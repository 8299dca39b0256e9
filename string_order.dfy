/** Python's ordering of strings (code point by code point, a proper prefix
    first) and `sorted(set(lines))`, the only use the parsers make of it. */
module StringOrder {

  /** `a < b` on Python strings: lexicographic by character code. */
  predicate Less(a: string, b: string)
    decreases |a|
  {
    if a == [] then b != []
    else b != [] && (a[0] < b[0] || (a[0] == b[0] && Less(a[1..], b[1..])))
  }

  lemma {:induction false} LessIrreflexive(a: string)
    ensures !Less(a, a)
  {
    if a != [] {
      LessIrreflexive(a[1..]);
    }
  }

  lemma {:induction false} LessTotal(a: string, b: string)
    ensures a == b || Less(a, b) || Less(b, a)
  {
    if a != [] && b != [] && a[0] == b[0] {
      LessTotal(a[1..], b[1..]);
      if a[1..] == b[1..] {
        assert a == [a[0]] + a[1..] && b == [b[0]] + b[1..];
      }
    }
  }

  lemma {:induction false} LessTransitive(a: string, b: string, c: string)
    requires Less(a, b) && Less(b, c)
    ensures Less(a, c)
  {
    if a != [] && a[0] == b[0] && b[0] == c[0] {
      LessTransitive(a[1..], b[1..], c[1..]);
    }
  }

  lemma {:induction false} LessAsymmetric(a: string, b: string)
    requires Less(a, b)
    ensures !Less(b, a)
  {
    if Less(b, a) {
      LessTransitive(a, b, a);
      LessIrreflexive(a);
    }
  }

  /** Every earlier entry is strictly smaller than every later one: sorted
      and free of duplicates. */
  predicate StrictlyAscending(s: seq<string>) {
    forall i, j :: 0 <= i < j < |s| ==> Less(s[i], s[j])
  }

  /** The set of entries of a sequence. */
  function Elems(s: seq<string>): set<string> {
    set x | x in s
  }

  /** Adds x to a sequence before the first entry it is less than, unless
      it is found first. */
  function InsertDistinct(x: string, s: seq<string>): (r: seq<string>)
    ensures Elems(r) == Elems(s) + {x}
  {
    if s == [] then [x]
    else if x == s[0] then
      assert s[0] in Elems(s);
      s
    else if Less(x, s[0]) then [x] + s
    else
      assert Elems(s) == {s[0]} + Elems(s[1..]) by {
        assert s == [s[0]] + s[1..];
      }
      var rest := InsertDistinct(x, s[1..]);
      assert Elems([s[0]] + rest) == {s[0]} + Elems(rest);
      [s[0]] + rest
  }

  /** Inserting into a strictly ascending sequence keeps it strictly
      ascending. */
  lemma {:induction false} InsertDistinctAscending(x: string, s: seq<string>)
    requires StrictlyAscending(s)
    ensures StrictlyAscending(InsertDistinct(x, s))
  {
    if s == [] || x == s[0] {
    } else if Less(x, s[0]) {
      forall j | 0 <= j < |s| ensures Less(x, s[j]) {
        if j > 0 { LessTransitive(x, s[0], s[j]); }
      }
      var r := [x] + s;
      forall i, j | 0 <= i < j < |r| ensures Less(r[i], r[j]) {
        if i > 0 {
          assert r[i] == s[i - 1] && r[j] == s[j - 1];
        }
      }
    } else {
      LessTotal(x, s[0]);
      InsertDistinctAscending(x, s[1..]);
      var rest := InsertDistinct(x, s[1..]);
      forall y | y in rest ensures Less(s[0], y) {
        assert y in Elems(rest);
        if y != x {
          var j :| 0 <= j < |s[1..]| && s[1..][j] == y;
          assert s[j + 1] == y;
        }
      }
      var r := [s[0]] + rest;
      forall i, j | 0 <= i < j < |r| ensures Less(r[i], r[j]) {
        if i == 0 {
          assert r[j] == rest[j - 1];
          assert rest[j - 1] in rest;
        } else {
          assert r[i] == rest[i - 1] && r[j] == rest[j - 1];
        }
      }
    }
  }

  /** sorted(set(s)): the distinct entries of s in ascending order. */
  function SortDistinct(s: seq<string>): (r: seq<string>)
    ensures Elems(r) == Elems(s)
  {
    if s == [] then []
    else
      var init := s[..|s| - 1];
      assert s == init + [s[|s| - 1]];
      assert Elems(s) == Elems(init) + {s[|s| - 1]};
      InsertDistinct(s[|s| - 1], SortDistinct(init))
  }

  /** The result of SortDistinct is strictly ascending. */
  lemma {:induction false} SortDistinctAscending(s: seq<string>)
    ensures StrictlyAscending(SortDistinct(s))
  {
    if s != [] {
      var init := s[..|s| - 1];
      SortDistinctAscending(init);
      InsertDistinctAscending(s[|s| - 1], SortDistinct(init));
    }
  }

  /** The first entry of a strictly ascending sequence is its least element. */
  lemma FirstIsLeast(s: seq<string>, y: string)
    requires StrictlyAscending(s) && s != [] && y in s && y != s[0]
    ensures Less(s[0], y)
  {
  }

  /** A strictly ascending sequence is determined by its set of entries:
      `sorted(set(...))` has exactly one possible result. */
  lemma {:induction false} AscendingUnique(a: seq<string>, b: seq<string>)
    requires StrictlyAscending(a) && StrictlyAscending(b)
    requires Elems(a) == Elems(b)
    ensures a == b
  {
    assert a != [] ==> a[0] in Elems(a);
    assert b != [] ==> b[0] in Elems(b);
    if a != [] && b != [] {
      if a[0] != b[0] {
        FirstIsLeast(a, b[0]);
        FirstIsLeast(b, a[0]);
        LessAsymmetric(a[0], b[0]);
      }
      assert Elems(a[1..]) == Elems(a) - {a[0]} by {
        assert a == [a[0]] + a[1..];
        forall y | y in a[1..] ensures y != a[0] {
          var j :| 0 <= j < |a[1..]| && a[1..][j] == y;
          assert Less(a[0], a[j + 1]);
          LessIrreflexive(a[0]);
        }
      }
      assert Elems(b[1..]) == Elems(b) - {b[0]} by {
        assert b == [b[0]] + b[1..];
        forall y | y in b[1..] ensures y != b[0] {
          var j :| 0 <= j < |b[1..]| && b[1..][j] == y;
          assert Less(b[0], b[j + 1]);
          LessIrreflexive(b[0]);
        }
      }
      AscendingUnique(a[1..], b[1..]);
      assert a == [a[0]] + a[1..] && b == [b[0]] + b[1..];
    }
  }
}
