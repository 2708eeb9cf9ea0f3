/**
 * `ORDER BY authors.name ASC`: names are compared code point by code point (the
 * database's collation rules are not part of this model) and authors are sorted by
 * insertion.
 */
module NameOrder {
  import opened Rows

  /** `a` sorts before or together with `b`: lexicographic order on code points. */
  predicate NameLe(a: string, b: string)
  {
    |a| == 0 || (|b| > 0 && (a[0] < b[0] || (a[0] == b[0] && NameLe(a[1..], b[1..]))))
  }

  lemma {:induction false} NameLeTotal(a: string, b: string)
    ensures NameLe(a, b) || NameLe(b, a)
  {
    if |a| > 0 && |b| > 0 && a[0] == b[0] {
      NameLeTotal(a[1..], b[1..]);
    }
  }

  lemma {:induction false} NameLeTransitive(a: string, b: string, c: string)
    requires NameLe(a, b) && NameLe(b, c)
    ensures NameLe(a, c)
  {
    if |a| > 0 && |b| > 0 && |c| > 0 && a[0] == b[0] && b[0] == c[0] {
      NameLeTransitive(a[1..], b[1..], c[1..]);
    }
  }

  /** Every author's name sorts before or together with the names of those after it. */
  ghost predicate SortedByName(s: seq<Author>)
  {
    forall i, j :: 0 <= i < j < |s| ==> NameLe(s[i].name, s[j].name)
  }

  /** Inserts `x` into `s` in front of the first author whose name `x` sorts before. */
  function InsertByName(x: Author, s: seq<Author>): (r: seq<Author>)
    ensures multiset(r) == multiset(s) + multiset{x}
  {
    if |s| == 0 then [x]
    else if NameLe(x.name, s[0].name) then [x] + s
    else
      assert s == [s[0]] + s[1..];
      [s[0]] + InsertByName(x, s[1..])
  }

  lemma {:induction false} InsertKeepsSorted(x: Author, s: seq<Author>)
    requires SortedByName(s)
    ensures SortedByName(InsertByName(x, s))
  {
    if |s| == 0 {
    } else if NameLe(x.name, s[0].name) {
      var r := [x] + s;
      forall i, j | 0 <= i < j < |r| ensures NameLe(r[i].name, r[j].name) {
        if i == 0 && j > 1 { NameLeTransitive(x.name, s[0].name, s[j - 1].name); }
      }
    } else {
      var rest := InsertByName(x, s[1..]);
      InsertKeepsSorted(x, s[1..]);
      InsertHeadBound(s[0], x, s[1..]);
      var r := [s[0]] + rest;
      assert r == InsertByName(x, s);
      forall i, j | 0 <= i < j < |r| ensures NameLe(r[i].name, r[j].name) {
        if i == 0 {
          assert r[j] in rest;
        } else {
          assert r[i] == rest[i - 1] && r[j] == rest[j - 1];
        }
      }
    }
  }

  /** An author `h` that sorts before every name of `s`, and not after `x`, sorts before all of InsertByName(x, s). */
  lemma InsertHeadBound(h: Author, x: Author, s: seq<Author>)
    requires !NameLe(x.name, h.name)
    requires forall j :: 0 <= j < |s| ==> NameLe(h.name, s[j].name)
    ensures forall y :: y in InsertByName(x, s) ==> NameLe(h.name, y.name)
  {
    var rest := InsertByName(x, s);
    forall y | y in rest ensures NameLe(h.name, y.name) {
      assert y in multiset(rest);
      if y == x {
        NameLeTotal(x.name, h.name);
      } else {
        assert y in multiset(s);
        var k :| 0 <= k < |s| && s[k] == y;
      }
    }
  }

  /** The authors in ascending name order: the same authors, each as often as before. */
  function SortByName(s: seq<Author>): (r: seq<Author>)
    ensures multiset(r) == multiset(s)
    ensures |r| == |s|
    ensures SortedByName(r)
  {
    if |s| == 0 then []
    else
      var r := InsertByName(s[|s| - 1], SortByName(s[..|s| - 1]));
      assert s == s[..|s| - 1] + [s[|s| - 1]];
      InsertKeepsSorted(s[|s| - 1], SortByName(s[..|s| - 1]));
      assert |r| == |multiset(r)|;
      r
  }
}
