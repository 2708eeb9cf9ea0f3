/**
 * The express-validator chains of validators/newBook.js, newAuthor.js, signup.js and
 * login.js. Each chain runs all of its checks and reports the message of every check that
 * fails, in order; a chain marked optional is skipped when its field is absent. A
 * validator is a function from the body (and the tables its lookups read) to the list of
 * messages; the body is accepted when that list is empty.
 */
module Validators {
  import opened Wrappers
  import opened Rows
  import opened Queries
  import opened JsInt
  import Auth

  /** A value of the parsed JSON body; the contents of objects and arrays are not looked into. */
  datatype Json = JNull | JBool(b: bool) | JNum(n: int) | JStr(s: string) | JObject

  type Body = map<string, Json>

  /** `req.body[key]`, or undefined. */
  function Field(body: Body, key: string): Option<Json>
  {
    if key in body then Some(body[key]) else None
  }

  /** The string the standard validators test: undefined and null give "", a number its decimal form. */
  function ToStr(v: Option<Json>): string
  {
    match v
    case None => ""
    case Some(JNull) => ""
    case Some(JBool(b)) => if b then "true" else "false"
    case Some(JNum(n)) => Decimal(n)
    case Some(JStr(s)) => s
    case Some(JObject) => "[object Object]"
  }

  /** `notEmpty()`. */
  predicate NotEmpty(v: Option<Json>)
  {
    ToStr(v) != ""
  }

  /** `isString()`. */
  predicate IsString(v: Option<Json>)
  {
    v.Some? && v.value.JStr?
  }

  /**
   * The length validator.js's `isLength` measures: the characters of `s` less the variation
   * selectors U+FE0E and U+FE0F. A character here is a whole code point, so the surrogate
   * pairs `isLength` also discounts are already counted once.
   */
  function PresentedLength(s: string): (n: nat)
    ensures n <= |s|
    ensures (forall i :: 0 <= i < |s| ==> s[i] != '\U{FE0E}' && s[i] != '\U{FE0F}') ==> n == |s|
  {
    if |s| == 0 then 0
    else PresentedLength(s[1..]) + (if s[0] == '\U{FE0E}' || s[0] == '\U{FE0F}' then 0 else 1)
  }

  /** One check of a chain: no message when it holds. */
  function Check(ok: bool, message: string): seq<string>
  {
    if ok then [] else [message]
  }

  /**
   * `body().notEmpty()`: the check reads the whole parsed body as text. `express.json()`
   * always leaves an object there, `{}` included, and an object reads as "[object Object]",
   * so the check never reports its message.
   */
  function BodyErrors(message: string): (r: seq<string>)
    ensures r == []
  {
    Check(NotEmpty(Some(JObject)), message)
  }

  // ---------------------------------------------------------------------------
  // validators/newBook.js

  /** The message of the whole-body check of validateNewBook and validateNewAuthor. */
  const EmptyBodyMessage := "Request body must have data"

  predicate IsbnChar(c: char)
  {
    IsDigit(c) || c == '-'
  }

  /** `[0-9-]{min,max}` matched against the whole of `s`, one character at a time. */
  predicate MatchRepeat(s: string, min: nat, max: nat)
    decreases |s|
  {
    if |s| == 0 then min == 0
    else max > 0 && IsbnChar(s[0]) && MatchRepeat(s[1..], if min > 0 then min - 1 else 0, max - 1)
  }

  /** `/^[0-9-]{10,17}$/`. */
  predicate MatchesIsbn(s: string)
  {
    MatchRepeat(s, 10, 17)
  }

  /** The pattern accepts exactly the strings of min to max digits and hyphens. */
  lemma {:induction false} MatchRepeatShape(s: string, min: nat, max: nat)
    ensures MatchRepeat(s, min, max) <==> min <= |s| <= max && forall i :: 0 <= i < |s| ==> IsbnChar(s[i])
  {
    if |s| > 0 && max > 0 {
      MatchRepeatShape(s[1..], if min > 0 then min - 1 else 0, max - 1);
      assert forall i :: 1 <= i < |s| ==> s[i] == s[1..][i - 1];
    }
  }

  /**
   * isbn is accepted exactly when it is 10 to 17 digits and hyphens, so 11 and 12 characters
   * pass although the message speaks of "10 or 13-17".
   */
  lemma IsbnShape(s: string)
    ensures MatchesIsbn(s) <==> 10 <= |s| <= 17 && forall i :: 0 <= i < |s| ==> IsbnChar(s[i])
    ensures |s| == 11 && AllDigits(s) ==> MatchesIsbn(s)
  {
    MatchRepeatShape(s, 10, 17);
  }

  const IsbnMessage := "ISBN must be 10 or 13-17 characters, containing only digits and hyphens"

  function TitleErrors(v: Option<Json>): (r: seq<string>)
    ensures v.None? ==> "Title is required" in r
    ensures v.None? ==> r == ["Title is required", "Title must be a string", "Title must be at least 3 characters"]
    ensures EmptyBodyMessage !in r
  {
    Check(NotEmpty(v), "Title is required")
    + Check(IsString(v), "Title must be a string")
    + Check(PresentedLength(ToStr(v)) >= 3, "Title must be at least 3 characters")
  }

  function SummaryErrors(v: Option<Json>): (r: seq<string>)
    ensures v.None? ==> r == []
    ensures EmptyBodyMessage !in r
  {
    if v.None? then [] else Check(IsString(v), "Summary must be a string")
  }

  function IsbnErrors(v: Option<Json>): (r: seq<string>)
    ensures v.None? ==> "ISBN is required" in r
    ensures v.None? ==> r == ["ISBN is required", IsbnMessage]
    ensures EmptyBodyMessage !in r
  {
    Check(NotEmpty(v), "ISBN is required") + Check(MatchesIsbn(ToStr(v)), IsbnMessage)
  }

  /** The integer `isInt({ min: 1 })` reads, if the text is one. */
  predicate IsPositiveInt(s: string)
  {
    IntText(s).Some? && IntText(s).value >= 1
  }

  /** The custom check: `SELECT id FROM authors WHERE id = value` finds a row. */
  predicate NamesAuthor(authors: seq<Author>, v: Option<Json>)
  {
    IntText(ToStr(v)).Some? && IntText(ToStr(v)).value in AuthorIds(authors)
  }

  function AuthorIdErrors(authors: seq<Author>, v: Option<Json>): (r: seq<string>)
    ensures v.None? ==> "Author ID is required" in r
    ensures v.None? ==>
              r == ["Author ID is required", "Author ID must be a positive integer",
                    "Invalid author ID, not found in authors table"]
    ensures EmptyBodyMessage !in r
  {
    Check(NotEmpty(v), "Author ID is required")
    + Check(IsPositiveInt(ToStr(v)), "Author ID must be a positive integer")
    + Check(NamesAuthor(authors, v), "Invalid author ID, not found in authors table")
  }

  /** validateNewBook. */
  function NewBookErrors(authors: seq<Author>, body: Body): (r: seq<string>)
    ensures EmptyBodyMessage !in r
    ensures "title" !in body ==> "Title is required" in r
    ensures "isbn" !in body ==> "ISBN is required" in r
    ensures "author_id" !in body ==> "Author ID is required" in r
  {
    BodyErrors(EmptyBodyMessage)
    + TitleErrors(Field(body, "title"))
    + SummaryErrors(Field(body, "summary"))
    + IsbnErrors(Field(body, "isbn"))
    + AuthorIdErrors(authors, Field(body, "author_id"))
  }

  /** The body validateNewBook lets through, stated field by field. */
  ghost predicate NewBookAccepted(authors: seq<Author>, body: Body)
  {
    && "title" in body && body["title"].JStr? && PresentedLength(body["title"].s) >= 3
    && ("summary" in body ==> body["summary"].JStr?)
    && "isbn" in body
    && (var isbn := ToStr(Some(body["isbn"]));
        10 <= |isbn| <= 17 && forall i :: 0 <= i < |isbn| ==> IsbnChar(isbn[i]))
    && "author_id" in body
    && exists id :: id >= 1 && id in AuthorIds(authors) && IntText(ToStr(Some(body["author_id"]))) == Some(id)
  }

  lemma TitleAccepted(v: Option<Json>)
    ensures TitleErrors(v) == [] <==> v.Some? && v.value.JStr? && PresentedLength(v.value.s) >= 3
  {
  }

  /** A variation selector does not count towards the three characters a title needs. */
  lemma SelectorNotCounted()
    ensures PresentedLength("ab\U{FE0F}") == 2
    ensures TitleErrors(Some(JStr("ab\U{FE0F}"))) == ["Title must be at least 3 characters"]
  {
    assert "ab\U{FE0F}"[1..] == "b\U{FE0F}" && "b\U{FE0F}"[1..] == "\U{FE0F}" && "\U{FE0F}"[1..] == "";
  }

  lemma IsbnAccepted(v: Option<Json>)
    ensures IsbnErrors(v) == [] <==>
              v.Some? && var isbn := ToStr(v); 10 <= |isbn| <= 17 && forall i :: 0 <= i < |isbn| ==> IsbnChar(isbn[i])
  {
    IsbnShape(ToStr(v));
  }

  lemma AuthorIdAccepted(authors: seq<Author>, v: Option<Json>)
    ensures AuthorIdErrors(authors, v) == [] <==>
              v.Some? && exists id :: id >= 1 && id in AuthorIds(authors) && IntText(ToStr(v)) == Some(id)
  {
    if NamesAuthor(authors, v) && IsPositiveInt(ToStr(v)) {
      var id := IntText(ToStr(v)).value;
      assert id >= 1 && id in AuthorIds(authors);
    }
  }

  /** validateNewBook reports nothing exactly for the bodies NewBookAccepted describes. */
  lemma NewBookValidation(authors: seq<Author>, body: Body)
    ensures NewBookErrors(authors, body) == [] <==> NewBookAccepted(authors, body)
  {
    TitleAccepted(Field(body, "title"));
    IsbnAccepted(Field(body, "isbn"));
    AuthorIdAccepted(authors, Field(body, "author_id"));
  }

  /** A body validateNewBook accepts names an existing author, so createBook cannot refuse it. */
  lemma AcceptedBookNamesAuthor(authors: seq<Author>, body: Body)
    requires NewBookErrors(authors, body) == []
    ensures IntText(ToStr(Field(body, "author_id"))).Some?
    ensures IntText(ToStr(Field(body, "author_id"))).value in AuthorIds(authors)
    ensures IntText(ToStr(Field(body, "author_id"))).value >= 1
  {
  }

  // ---------------------------------------------------------------------------
  // validators/newAuthor.js

  /** Two digits from position `i` read as a number. */
  function TwoDigits(s: string, i: nat): nat
    requires i + 2 <= |s| && IsDigit(s[i]) && IsDigit(s[i + 1])
  {
    10 * DigitValue(s[i]) + DigitValue(s[i + 1])
  }

  /**
   * The calendar-date form of `isISO8601()`: YYYY-MM-DD with a month from 01 to 12 and a day
   * from 01 to 31. The check does not relate the day to the month.
   */
  predicate IsIsoDate(s: string)
  {
    && |s| == 10 && s[4] == '-' && s[7] == '-'
    && IsDigit(s[0]) && IsDigit(s[1]) && IsDigit(s[2]) && IsDigit(s[3])
    && IsDigit(s[5]) && IsDigit(s[6]) && IsDigit(s[8]) && IsDigit(s[9])
    && 1 <= TwoDigits(s, 5) <= 12 && 1 <= TwoDigits(s, 8) <= 31
  }

  /** Year, month and day of a calendar date, if `s` is one. */
  function ParseIsoDate(s: string): (r: Option<(nat, nat, nat)>)
    ensures r.Some? <==> IsIsoDate(s)
  {
    if !IsIsoDate(s) then None
    else Some((100 * TwoDigits(s, 0) + TwoDigits(s, 2), TwoDigits(s, 5), TwoDigits(s, 8)))
  }

  /** `n` written with exactly two digits. */
  function Two(n: nat): (r: string)
    requires n < 100
    ensures |r| == 2 && IsDigit(r[0]) && IsDigit(r[1]) && TwoDigits(r, 0) == n
  {
    [DigitChar(n / 10), DigitChar(n % 10)]
  }

  /** The text YYYY-MM-DD of a date. */
  function DateText(y: nat, m: nat, d: nat): (r: string)
    requires y < 10000 && m < 100 && d < 100
    ensures |r| == 10
  {
    Two(y / 100) + Two(y % 100) + "-" + Two(m) + "-" + Two(d)
  }

  /** Every date with a month from 1 to 12 and a day from 1 to 31 is accepted and read back unchanged. */
  lemma DateTextRoundTrip(y: nat, m: nat, d: nat)
    requires y < 10000 && 1 <= m <= 12 && 1 <= d <= 31
    ensures IsIsoDate(DateText(y, m, d))
    ensures ParseIsoDate(DateText(y, m, d)) == Some((y, m, d))
  {
    var s := DateText(y, m, d);
    var hi, lo, mm, dd := Two(y / 100), Two(y % 100), Two(m), Two(d);
    assert s[0] == hi[0] && s[1] == hi[1] && s[2] == lo[0] && s[3] == lo[1];
    assert s[5] == mm[0] && s[6] == mm[1] && s[8] == dd[0] && s[9] == dd[1];
    assert TwoDigits(s, 0) == TwoDigits(hi, 0) && TwoDigits(s, 2) == TwoDigits(lo, 0);
    assert TwoDigits(s, 5) == TwoDigits(mm, 0) && TwoDigits(s, 8) == TwoDigits(dd, 0);
  }

  function NameErrors(v: Option<Json>): (r: seq<string>)
    ensures v.None? ==> "Name is required" in r
    ensures v.None? ==> r == ["Name is required", "Name must be a string", "Name must be at least 2 characters"]
    ensures EmptyBodyMessage !in r
  {
    Check(NotEmpty(v), "Name is required")
    + Check(IsString(v), "Name must be a string")
    + Check(PresentedLength(ToStr(v)) >= 2, "Name must be at least 2 characters")
  }

  function BirthDateErrors(v: Option<Json>): (r: seq<string>)
    ensures v.None? ==> "Birth date is required" in r
    ensures v.None? ==> r == ["Birth date is required", "Birth date must be a valid ISO 8601 date (e.g., YYYY-MM-DD)"]
    ensures EmptyBodyMessage !in r
  {
    Check(NotEmpty(v), "Birth date is required")
    + Check(IsIsoDate(ToStr(v)), "Birth date must be a valid ISO 8601 date (e.g., YYYY-MM-DD)")
  }

  function BiographyErrors(v: Option<Json>): (r: seq<string>)
    ensures v.None? ==> r == []
    ensures EmptyBodyMessage !in r
  {
    if v.None? then []
    else Check(IsString(v), "Biography must be a string")
         + Check(PresentedLength(ToStr(v)) <= 150, "Biography must not exceed 150 characters")
  }

  /** validateNewAuthor. */
  function NewAuthorErrors(body: Body): (r: seq<string>)
    ensures EmptyBodyMessage !in r
    ensures "name" !in body ==> "Name is required" in r
    ensures "birth_date" !in body ==> "Birth date is required" in r
  {
    BodyErrors(EmptyBodyMessage)
    + NameErrors(Field(body, "name"))
    + BirthDateErrors(Field(body, "birth_date"))
    + BiographyErrors(Field(body, "biography"))
  }

  /** The body validateNewAuthor lets through, stated field by field. */
  ghost predicate NewAuthorAccepted(body: Body)
  {
    && "name" in body && body["name"].JStr? && PresentedLength(body["name"].s) >= 2
    && "birth_date" in body && ParseIsoDate(ToStr(Some(body["birth_date"]))).Some?
    && ("biography" in body ==> body["biography"].JStr? && PresentedLength(body["biography"].s) <= 150)
  }

  /** validateNewAuthor reports nothing exactly for the bodies NewAuthorAccepted describes. */
  lemma NewAuthorValidation(body: Body)
    ensures NewAuthorErrors(body) == [] <==> NewAuthorAccepted(body)
  {
    var b := Field(body, "birth_date");
    assert IsIsoDate(ToStr(b)) ==> NotEmpty(b);
  }

  // ---------------------------------------------------------------------------
  // validators/signup.js

  /** What `getUserByUsername(value)` gives a custom validator: a row, no row, or a thrown error. */
  datatype Lookup = Found(user: User) | Missing | Threw(message: string)

  /** The error the database driver throws for an undefined query parameter. */
  const UndefinedMessage := "Undefined values are not allowed"

  /** The error the database answers when a boolean parameter is compared with the username column. */
  const BoolMismatchMessage := "operator does not exist: character varying = boolean"

  /**
   * `getUserByUsername(value)` on a body field: undefined makes the driver throw, a boolean is
   * sent typed and the comparison fails, null matches no row, and any other value is
   * compared as text.
   */
  function UserFor(users: seq<User>, v: Option<Json>): (r: Lookup)
    ensures r.Threw? <==> v.None? || v.value.JBool?
    ensures v.None? ==> r == Threw(UndefinedMessage)
    ensures r.Found? ==> r.user in users && r.user.username == ToStr(v)
    ensures r.Missing? && v.Some? && v.value != JNull ==> forall u :: u in users ==> u.username != ToStr(v)
  {
    match v
    case None => Threw(UndefinedMessage)
    case Some(JNull) => Missing
    case Some(JBool(_)) => Threw(BoolMismatchMessage)
    case _ =>
      match UserByUsername(users, ToStr(v))
      case Some(u) => Found(u)
      case None => Missing
  }

  /** The message of a custom validator whose lookup threw. */
  function Thrown(l: Lookup): seq<string>
  {
    if l.Threw? then [l.message] else []
  }

  /** `value !== req.body.passwordconfirm`: two objects are never the same value. */
  predicate StrictlyEqual(a: Option<Json>, b: Option<Json>)
  {
    a == b && !(a.Some? && a.value.JObject?)
  }

  predicate RoleAllowed(v: Option<Json>)
  {
    ToStr(v) == "user" || ToStr(v) == "admin"
  }

  /** The `username` chain of validateNewUser. */
  function NewUsernameErrors(users: seq<User>, v: Option<Json>): seq<string>
  {
    var user := UserFor(users, v);
    Check(NotEmpty(v), "Username is required") + Check(!user.Found?, "Username already exists") + Thrown(user)
  }

  /** The `password` chain of validateNewUser. */
  function NewPasswordErrors(v: Option<Json>, confirm: Option<Json>): seq<string>
  {
    Check(NotEmpty(v), "Password is required")
    + Check(StrictlyEqual(v, confirm), "Password and password confirmation do not match.")
  }

  /** The optional `role` chain of validateNewUser. */
  function RoleErrors(v: Option<Json>): seq<string>
  {
    if v.None? then [] else Check(RoleAllowed(v), "Role must be either \"user\" or \"admin\"")
  }

  /** validateNewUser. */
  function SignupErrors(users: seq<User>, body: Body): (r: seq<string>)
    ensures "username" !in body ==> "Username is required" in r && UndefinedMessage in r
    ensures "username" in body && body["username"].JBool? ==> BoolMismatchMessage in r
  {
    BodyErrors("User body must contain data")
    + NewUsernameErrors(users, Field(body, "username"))
    + NewPasswordErrors(Field(body, "password"), Field(body, "passwordconfirm"))
    + RoleErrors(Field(body, "role"))
  }

  /** The body validateNewUser lets through, stated field by field. */
  ghost predicate SignupAccepted(users: seq<User>, body: Body)
  {
    && "username" in body && ToStr(Some(body["username"])) != "" && !body["username"].JBool?
    && (forall u :: u in users ==> u.username != ToStr(Some(body["username"])))
    && "password" in body && ToStr(Some(body["password"])) != ""
    && "passwordconfirm" in body && body["passwordconfirm"] == body["password"] && !body["password"].JObject?
    && ("role" in body ==> body["role"] in {JStr("user"), JStr("admin")})
  }

  /** validateNewUser reports nothing exactly for the bodies SignupAccepted describes. */
  lemma SignupValidation(users: seq<User>, body: Body)
    ensures SignupErrors(users, body) == [] <==> SignupAccepted(users, body)
  {
    var username := Field(body, "username");
    var role := Field(body, "role");
    if role.Some? && RoleAllowed(role) {
      var v := role.value;
      assert v.JStr? by {
        if v.JNum? { assert ToStr(role) == Decimal(v.n); DecimalIsNotRole(v.n); }
      }
    }
  }

  lemma DecimalIsNotRole(n: int)
    ensures Decimal(n) != "user" && Decimal(n) != "admin"
  {
    if n < 0 {
      assert Decimal(n)[0] == '-';
    } else {
      assert IsDigit(Decimal(n)[0]);
    }
  }

  /** "Username already exists" is reported exactly when the lookup finds a row. */
  lemma TakenMessageIffFound(users: seq<User>, body: Body)
    ensures "Username already exists" in SignupErrors(users, body) <==> UserFor(users, Field(body, "username")).Found?
  {
    var user := UserFor(users, Field(body, "username"));
    assert "Username already exists" !in Thrown(user) by {
      assert user.Threw? ==> user.message == UndefinedMessage || user.message == BoolMismatchMessage;
    }
  }

  /** "Username already exists" is reported exactly when a stored user has the username the body gives as text. */
  lemma UsernameTaken(users: seq<User>, body: Body)
    ensures "Username already exists" in SignupErrors(users, body) <==>
              "username" in body && !body["username"].JNull? && !body["username"].JBool?
              && exists u :: u in users && u.username == ToStr(Some(body["username"]))
  {
    TakenMessageIffFound(users, body);
    var user := UserFor(users, Field(body, "username"));
    if user.Found? {
      assert user.user in users;
    }
  }

  // ---------------------------------------------------------------------------
  // validators/login.js

  /**
   * validateLogin: the password is checked against the stored hash only when the username
   * names a user. Both custom checks run the lookup, so an error it throws is reported twice.
   */
  function LoginErrors(c: Auth.Crypto, users: seq<User>, body: Body): (r: seq<string>)
    ensures "User not found, please sign up" in r <==> UserFor(users, Field(body, "username")).Missing?
    ensures "Incorrect password" in r <==>
              var user := UserFor(users, Field(body, "username"));
              user.Found? && !c.verify(user.user.password, ToStr(Field(body, "password")))
    ensures "username" !in body ==>
              r == ["Username is required", UndefinedMessage]
                   + Check(NotEmpty(Field(body, "password")), "Password is required") + [UndefinedMessage]
  {
    var username, password := Field(body, "username"), Field(body, "password");
    var user := UserFor(users, username);
    Check(NotEmpty(username), "Username is required")
    + Check(!user.Missing?, "User not found, please sign up") + Thrown(user)
    + Check(NotEmpty(password), "Password is required")
    + (if user.Found? then Check(c.verify(user.user.password, ToStr(password)), "Incorrect password") else Thrown(user))
  }

  /**
   * A login body the validator accepts is one the login handler answers with 200: the
   * validator's lookup and verify are the handler's own.
   */
  lemma AcceptedLoginSucceeds(c: Auth.Crypto, users: seq<User>, username: string, password: string)
    requires LoginErrors(c, users, map["username" := JStr(username), "password" := JStr(password)]) == []
    ensures Auth.Login(c, users, Auth.LoginBody(username, password)).code == 200
  {
    var body := map["username" := JStr(username), "password" := JStr(password)];
    assert Field(body, "username") == Some(JStr(username)) && Field(body, "password") == Some(JStr(password));
  }

  /**
   * A body validateNewUser accepts names a free username, so after signup stores its row
   * the same username and password log in and the token resolves to the new user.
   */
  lemma AcceptedSignupCanLogIn(c: Auth.Crypto, users: seq<User>, id: int, username: string, password: string, role: Option<string>)
    requires Auth.HashSound(c) && Auth.TokenSound(c)
    requires id !in UserIds(users)
    requires SignupErrors(users, map["username" := JStr(username), "password" := JStr(password),
                                     "passwordconfirm" := JStr(password)]) == []
    ensures var body := Auth.SignupBody(username, password, role);
            var after := users + [User(id, username, c.hash(password), Auth.RoleOrUser(role))];
            Auth.Login(c, after, Auth.LoginBody(username, password)).code == 200
  {
    var body := map["username" := JStr(username), "password" := JStr(password), "passwordconfirm" := JStr(password)];
    assert Field(body, "username") == Some(JStr(username));
    assert forall u :: u in users ==> u.username != username;
    Auth.SignupThenLoginThenProtect(c, users, id, Auth.SignupBody(username, password, role));
  }
}
