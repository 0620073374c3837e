/**
 * The `BTreeSet<(String, String)>` in which the search stage gathers
 * (repository full name, file path) pairs. A B-tree set iterates in ascending
 * key order and holds each key once, so its value is modelled as a strictly
 * ascending sequence; inserting a present key leaves it unchanged.
 */
module PairSet {
  import opened Text

  /** (repository full name, file path) */
  type Pair = (string, string)

  /** Rust's order on 2-tuples: by the first component, then by the second. */
  predicate PairLt(p: Pair, q: Pair) {
    StrLt(p.0, q.0) || (p.0 == q.0 && StrLt(p.1, q.1))
  }

  lemma PairLtIrreflexive(p: Pair)
    ensures !PairLt(p, p)
  {
    StrLtIrreflexive(p.0);
    StrLtIrreflexive(p.1);
  }

  lemma PairLtTransitive(p: Pair, q: Pair, r: Pair)
    requires PairLt(p, q) && PairLt(q, r)
    ensures PairLt(p, r)
  {
    if StrLt(p.0, q.0) && StrLt(q.0, r.0) {
      StrLtTransitive(p.0, q.0, r.0);
    } else if p.0 == q.0 && q.0 == r.0 {
      StrLtTransitive(p.1, q.1, r.1);
    }
  }

  lemma PairLtTotal(p: Pair, q: Pair)
    ensures p == q || PairLt(p, q) || PairLt(q, p)
  {
    StrLtTotal(p.0, q.0);
    StrLtTotal(p.1, q.1);
  }

  /** The iteration order of a B-tree set: strictly ascending. */
  predicate Sorted(s: seq<Pair>) {
    forall i, j :: 0 <= i < j < |s| ==> PairLt(s[i], s[j])
  }

  function Elems(s: seq<Pair>): set<Pair> {
    set p | p in s
  }

  /** An ascending sequence holds no element twice. */
  lemma SortedDistinct(s: seq<Pair>)
    requires Sorted(s)
    ensures forall i, j :: 0 <= i < |s| && 0 <= j < |s| && i != j ==> s[i] != s[j]
  {
    forall i, j | 0 <= i < |s| && 0 <= j < |s| && i != j
      ensures s[i] != s[j]
    {
      PairLtIrreflexive(s[i]);
    }
  }

  /** Putting below an ascending sequence something smaller than all of it keeps it ascending. */
  lemma PrependSorted(x: Pair, s: seq<Pair>)
    requires Sorted(s)
    requires forall p :: p in s ==> PairLt(x, p)
    ensures Sorted([x] + s)
  {

  }

  /** `set.insert(x)` on a B-tree set. */
  function Insert(s: seq<Pair>, x: Pair): (r: seq<Pair>)
    requires Sorted(s)
    ensures Sorted(r)
    ensures Elems(r) == Elems(s) + {x}
    decreases |s|
  {
    if |s| == 0 then [x]
    else if x == s[0] then s
    else if PairLt(x, s[0]) then
      assert forall p :: p in s ==> PairLt(x, p) by {
        forall p | p in s
          ensures PairLt(x, p)
        {
          if p != s[0] {
            var k :| 0 <= k < |s| && s[k] == p;
            PairLtTransitive(x, s[0], p);
          }
        }
      }
      PrependSorted(x, s);
      [x] + s
    else
      PairLtTotal(x, s[0]);
      assert s == [s[0]] + s[1..];
      var rest := Insert(s[1..], x);
      assert forall p :: p in rest ==> PairLt(s[0], p) by {
        forall p | p in rest
          ensures PairLt(s[0], p)
        {
          if p != x {
            assert p in Elems(s[1..]);
            var k :| 0 <= k < |s[1..]| && s[1..][k] == p;
            assert s[k + 1] == p;
          }
        }
      }
      PrependSorted(s[0], rest);
      assert Elems(s) == {s[0]} + Elems(s[1..]);
      assert Elems([s[0]] + rest) == {s[0]} + Elems(rest);
      [s[0]] + rest
  }

  /** A B-tree set's iteration sequence is determined by its elements. */
  lemma {:induction false} SortedUnique(a: seq<Pair>, b: seq<Pair>)
    requires Sorted(a) && Sorted(b)
    requires Elems(a) == Elems(b)
    ensures a == b
    decreases |a|
  {
    assert |a| == 0 <==> |b| == 0 by {
      if |a| > 0 {
        assert a[0] in Elems(a);
      }
      if |b| > 0 {
        assert b[0] in Elems(b);
      }
    }
    if |a| > 0 {
      assert a[0] in Elems(b);
      assert b[0] in Elems(a);
      if a[0] != b[0] {
        var i :| 0 <= i < |b| && b[i] == a[0];
        var j :| 0 <= j < |a| && a[j] == b[0];
        PairLtTransitive(a[0], b[0], a[0]);
        PairLtIrreflexive(a[0]);
      }
      assert Elems(a[1..]) == Elems(b[1..]) by {
        SortedDistinct(a);
        SortedDistinct(b);
        forall p | p in a[1..]
          ensures p in b[1..]
        {
          var k :| 0 <= k < |a[1..]| && a[1..][k] == p;
          assert p in Elems(b);
          var m :| 0 <= m < |b| && b[m] == p;
          assert m != 0;
          assert b[1..][m - 1] == p;
        }
        forall p | p in b[1..]
          ensures p in a[1..]
        {
          var k :| 0 <= k < |b[1..]| && b[1..][k] == p;
          assert p in Elems(a);
          var m :| 0 <= m < |a| && a[m] == p;
          assert m != 0;
          assert a[1..][m - 1] == p;
        }
      }
      SortedUnique(a[1..], b[1..]);
      assert a == [a[0]] + a[1..] && b == [b[0]] + b[1..];
    }
  }
}
