/** Python's ordering of `str` values (lexicographic on code points, a proper
    prefix first) and `sorted(...)` applied to a set of strings. */
module StringOrder {

  /** `a < b` on Python strings. */
  predicate Less(a: string, b: string)
    ensures Less(a, b) ==> a != b
    ensures |a| < |b| && a == b[..|a|] ==> Less(a, b)
  {
    if a == [] then b != []
    else if b == [] then false
    else if a[0] != b[0] then a[0] < b[0]
    else Less(a[1..], b[1..])
  }

  lemma {:induction false} LessIrreflexive(a: string)
    ensures !Less(a, a)
  {
    if a != [] {
      LessIrreflexive(a[1..]);
    }
  }

  lemma {:induction false} LessTransitive(a: string, b: string, c: string)
    requires Less(a, b) && Less(b, c)
    ensures Less(a, c)
  {
    if a != [] && b != [] && c != [] && a[0] == b[0] == c[0] {
      LessTransitive(a[1..], b[1..], c[1..]);
    }
  }

  /** Any two different strings are ordered one way or the other, and never both. */
  lemma {:induction false} LessTotal(a: string, b: string)
    requires a != b
    ensures Less(a, b) != Less(b, a)
  {
    if a != [] && b != [] && a[0] == b[0] {
      assert a == [a[0]] + a[1..] && b == [b[0]] + b[1..];
      LessTotal(a[1..], b[1..]);
    }
  }

  /** Every element is smaller than every later one: sorted with no duplicates. */
  predicate StrictlyIncreasing(r: seq<string>)
  {
    forall i, j :: 0 <= i < j < |r| ==> Less(r[i], r[j])
  }

  /** `r` is `sorted(s)`: the elements of `s`, each once, in increasing order. */
  predicate IsSortingOf(r: seq<string>, s: set<string>)
  {
    && StrictlyIncreasing(r)
    && (forall u :: u in r ==> u in s)
    && (forall u :: u in s ==> u in r)
  }

  /** Puts `x` into its place in an increasing sequence. */
  function Insert(x: string, r: seq<string>): (q: seq<string>)
  {
    if r == [] || Less(x, r[0]) then [x] + r else [r[0]] + Insert(x, r[1..])
  }

  lemma {:induction false} InsertSorted(x: string, r: seq<string>)
    requires StrictlyIncreasing(r) && x !in r
    ensures StrictlyIncreasing(Insert(x, r))
    ensures forall u :: u in Insert(x, r) <==> u == x || u in r
  {
    if r == [] {
    } else if Less(x, r[0]) {
      forall j | 0 < j < |r| ensures Less(x, r[j]) {
        LessTransitive(x, r[0], r[j]);
      }
    } else {
      var t := r[1..];
      InsertSorted(x, t);
      LessTotal(x, r[0]);
      var q := Insert(x, r);
      assert q == [r[0]] + Insert(x, t);
      forall u | u in Insert(x, t) ensures Less(r[0], u) {
        if u != x {
          var j :| 0 <= j < |t| && t[j] == u;
          assert r[j + 1] == u;
        }
      }
      forall i, j | 0 <= i < j < |q| ensures Less(q[i], q[j]) {
        if i == 0 {
          assert q[j] in Insert(x, t);
        }
      }
      forall u ensures u in q <==> u == x || u in r {
        assert u in r <==> u == r[0] || u in t;
      }
    }
  }

  /** The listing promised by IsSortingOf is unique: sorting a set is deterministic. */
  lemma {:induction false} SortingUnique(a: seq<string>, b: seq<string>, s: set<string>)
    requires IsSortingOf(a, s) && IsSortingOf(b, s)
    ensures a == b
  {
    SortingLength(a, s);
    SortingLength(b, s);
    if a != [] {
      // a[0] and b[0] are both the least element of s
      assert a[0] in b && b[0] in a by { assert a[0] in s && b[0] in s; }
      if a[0] != b[0] {
        var i :| 0 <= i < |b| && b[i] == a[0];
        var j :| 0 <= j < |a| && a[j] == b[0];
        assert Less(b[0], a[0]) by { assert i > 0; }
        assert Less(a[0], b[0]) by { assert j > 0; }
        LessTotal(a[0], b[0]);
      }
      var s' := s - {a[0]};
      forall u ensures u in a[1..] <==> u in s' {
        if u in a[1..] {
          var k :| 0 <= k < |a[1..]| && a[1..][k] == u;
          assert a[k + 1] == u;
          LessIrreflexive(a[0]);
        }
        assert u in a <==> u == a[0] || u in a[1..];
      }
      forall u ensures u in b[1..] <==> u in s' {
        if u in b[1..] {
          var k :| 0 <= k < |b[1..]| && b[1..][k] == u;
          assert b[k + 1] == u;
          LessIrreflexive(b[0]);
        }
        assert u in b <==> u == b[0] || u in b[1..];
      }
      SortingUnique(a[1..], b[1..], s');
      assert a == [a[0]] + a[1..] && b == [b[0]] + b[1..];
    }
  }

  /** A strictly increasing listing has exactly as many entries as the set it lists. */
  lemma {:induction false} SortingLength(r: seq<string>, s: set<string>)
    requires IsSortingOf(r, s)
    ensures |r| == |s|
  {
    if r != [] {
      var s' := s - {r[0]};
      forall u ensures u in r[1..] <==> u in s' {
        if u in r[1..] {
          var k :| 0 <= k < |r[1..]| && r[1..][k] == u;
          assert r[k + 1] == u;
          LessIrreflexive(r[0]);
        }
        assert u in r <==> u == r[0] || u in r[1..];
      }
      SortingLength(r[1..], s');
    } else {
      assert s == {};
    }
  }

  /** `sorted(s)` for a set of strings. */
  method SortedList(s: set<string>) returns (r: seq<string>)
    ensures IsSortingOf(r, s)
  {
    r := [];
    var rest := s;
    while rest != {}
      invariant rest <= s
      invariant StrictlyIncreasing(r)
      invariant forall u :: u in r <==> u in s && u !in rest
      decreases rest
    {
      var x :| x in rest;
      InsertSorted(x, r);
      r := Insert(x, r);
      rest := rest - {x};
    }
  }
}
