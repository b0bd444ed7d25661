/** The order Python's `sorted` uses on `str` values, and `sorted` itself
    applied to a set of strings.

    Python compares two strings code point by code point; at the first
    position where they differ the smaller code point wins, and a proper
    prefix comes before every longer string that extends it. Dafny's `char`
    comparison is also by code point, so the order can be stated directly. */
module Ordering {

  /** `a <= b` on Python strings. */
  predicate LessEq(a: string, b: string)
  {
    a == [] || (b != [] && (a[0] < b[0] || (a[0] == b[0] && LessEq(a[1..], b[1..]))))
  }

  /** `a < b` on Python strings. */
  predicate Less(a: string, b: string)
  {
    LessEq(a, b) && a != b
  }

  lemma {:induction false} LessEqReflexive(a: string)
    ensures LessEq(a, a)
  {
    if a != [] {
      LessEqReflexive(a[1..]);
    }
  }

  lemma {:induction false} LessEqAntisymmetric(a: string, b: string)
    requires LessEq(a, b) && LessEq(b, a)
    ensures a == b
  {
    if a != [] && b != [] {
      LessEqAntisymmetric(a[1..], b[1..]);
      assert a == [a[0]] + a[1..] && b == [b[0]] + b[1..];
    }
  }

  lemma {:induction false} LessEqTransitive(a: string, b: string, c: string)
    requires LessEq(a, b) && LessEq(b, c)
    ensures LessEq(a, c)
  {
    if a != [] && b != [] && c != [] && a[0] == b[0] == c[0] {
      LessEqTransitive(a[1..], b[1..], c[1..]);
    }
  }

  lemma {:induction false} LessEqTotal(a: string, b: string)
    ensures LessEq(a, b) || LessEq(b, a)
  {
    if a != [] && b != [] && a[0] == b[0] {
      LessEqTotal(a[1..], b[1..]);
    }
  }

  /** `m` is the smallest element of `S`. */
  predicate IsLeast(m: string, S: set<string>)
  {
    m in S && forall x :: x in S ==> LessEq(m, x)
  }

  /** Every non-empty finite set of strings has a smallest element. */
  lemma {:induction false} LeastExists(S: set<string>)
    requires S != {}
    ensures exists m :: IsLeast(m, S)
    decreases |S|
  {
    var x :| x in S;
    if S == {x} {
      LessEqReflexive(x);
      assert IsLeast(x, S);
    } else {
      var rest := S - {x};
      LeastExists(rest);
      var m :| IsLeast(m, rest);
      LessEqTotal(x, m);
      if LessEq(x, m) {
        LessEqReflexive(x);
        forall y | y in S ensures LessEq(x, y) {
          if y != x { LessEqTransitive(x, m, y); }
        }
        assert IsLeast(x, S);
      } else {
        assert IsLeast(m, S);
      }
    }
  }

  /** The smallest element is unique. */
  lemma LeastUnique(S: set<string>)
    ensures forall m1, m2 :: IsLeast(m1, S) && IsLeast(m2, S) ==> m1 == m2
  {
    forall m1, m2 | IsLeast(m1, S) && IsLeast(m2, S) ensures m1 == m2 {
      LessEqAntisymmetric(m1, m2);
    }
  }

  /** Strictly ascending: sorted and free of duplicates. */
  predicate Ascending(s: seq<string>)
  {
    forall i, j :: 0 <= i < j < |s| ==> Less(s[i], s[j])
  }

  /** A prefix one longer is the shorter prefix and one more element. */
  lemma PrefixStep(s: seq<string>, n: nat)
    requires n < |s|
    ensures s[..n + 1] == s[..n] + [s[n]]
  {
  }

  /** In an ascending sequence, everything before position `n` is below the
      element at `n`. */
  lemma PrefixBelow(s: seq<string>, n: nat)
    requires Ascending(s) && n < |s|
    ensures forall x :: x in s[..n] ==> Less(x, s[n])
  {
    forall x | x in s[..n] ensures Less(x, s[n]) {
      var j :| 0 <= j < n && s[..n][j] == x;
      assert s[j] == x;
    }
  }

  /** Appending an element above all others keeps a sequence ascending. */
  lemma AscendingAppend(s: seq<string>, y: string)
    requires Ascending(s)
    requires forall x :: x in s ==> Less(x, y)
    ensures Ascending(s + [y])
  {
    forall i, j | 0 <= i < j < |s| + 1 ensures Less((s + [y])[i], (s + [y])[j]) {
      if j == |s| {
        assert s[i] in s;
      }
    }
  }

  /** Python's `sorted(S)` for a set `S` of strings: its elements, each once,
      in ascending order. */
  function Sorted(S: set<string>): (r: seq<string>)
    ensures Ascending(r)
    ensures |r| == |S|
    ensures forall x :: x in r <==> x in S
    decreases |S|
  {
    if S == {} then []
    else
      LeastExists(S);
      LeastUnique(S);
      var m :| IsLeast(m, S);
      var rest := Sorted(S - {m});
      assert forall j :: 0 <= j < |rest| ==> Less(m, rest[j]) by {
        forall j | 0 <= j < |rest| ensures Less(m, rest[j]) {
          assert rest[j] in rest;
        }
      }
      [m] + rest
  }

  /** Two ascending sequences with the same elements are equal. */
  lemma {:induction false} AscendingUnique(a: seq<string>, b: seq<string>)
    requires Ascending(a) && Ascending(b)
    requires forall x :: x in a <==> x in b
    ensures a == b
    decreases |a|
  {
    if a != [] { assert a[0] in a; }
    if b != [] { assert b[0] in b; }
    if a != [] && b != [] {
      if a[0] != b[0] {
        var i :| 0 <= i < |b| && b[i] == a[0];
        var j :| 0 <= j < |a| && a[j] == b[0];
        assert LessEq(b[0], a[0]) && LessEq(a[0], b[0]);
        LessEqAntisymmetric(a[0], b[0]);
      }
      forall x ensures x in a[1..] <==> x in b[1..] {
        if x in a[1..] {
          var k :| 1 <= k < |a| && a[1..][k - 1] == x;
          assert Less(a[0], a[k]);
          assert x in b && x != b[0];
          var l :| 0 <= l < |b| && b[l] == x;
          assert b[1..][l - 1] == x;
        }
        if x in b[1..] {
          var k :| 1 <= k < |b| && b[1..][k - 1] == x;
          assert Less(b[0], b[k]);
          assert x in a && x != a[0];
          var l :| 0 <= l < |a| && a[l] == x;
          assert a[1..][l - 1] == x;
        }
      }
      AscendingUnique(a[1..], b[1..]);
      assert a == [a[0]] + a[1..] && b == [b[0]] + b[1..];
    }
  }

  /** `Sorted(S)` is the one and only ascending listing of `S`. */
  lemma SortedCharacterized(S: set<string>, r: seq<string>)
    ensures r == Sorted(S) <==> Ascending(r) && forall x :: x in r <==> x in S
  {
    if Ascending(r) && forall x :: x in r <==> x in S {
      AscendingUnique(r, Sorted(S));
    }
  }
}
