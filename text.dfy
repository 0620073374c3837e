/**
 * The string operations of Rust's standard library that the search tool relies on:
 * the ordering of `String` (which orders the keys of a `BTreeSet`),
 * `str::trim_end_matches` with a character pattern, and `str::split_once`.
 */
module Text {
  import opened Wrappers

  /**
   * Lexicographic order on strings, character by character. Rust compares
   * `String`s byte by byte in UTF-8; UTF-8 byte order coincides with code
   * point order, which is the order on Dafny's `char`.
   */
  predicate StrLt(a: string, b: string)
    decreases |a|
  {
    if |a| == 0 then |b| > 0
    else if |b| == 0 then false
    else if a[0] != b[0] then a[0] < b[0]
    else StrLt(a[1..], b[1..])
  }

  lemma {:induction false} StrLtIrreflexive(a: string)
    ensures !StrLt(a, a)
  {
    if |a| > 0 {
      StrLtIrreflexive(a[1..]);
    }
  }

  lemma {:induction false} StrLtTransitive(a: string, b: string, c: string)
    requires StrLt(a, b) && StrLt(b, c)
    ensures StrLt(a, c)
  {
    if |a| > 0 && |b| > 0 && |c| > 0 && a[0] == b[0] && b[0] == c[0] {
      StrLtTransitive(a[1..], b[1..], c[1..]);
    }
  }

  lemma {:induction false} StrLtTotal(a: string, b: string)
    ensures a == b || StrLt(a, b) || StrLt(b, a)
  {
    if |a| > 0 && |b| > 0 && a[0] == b[0] {
      StrLtTotal(a[1..], b[1..]);
      if a[1..] == b[1..] {
        assert a == [a[0]] + a[1..] && b == [b[0]] + b[1..];
      }
    }
  }

  /** `r` is `s` with every trailing `c` removed: a prefix of `s` not ending in `c`, followed in `s` only by `c`s. */
  predicate IsTrimmedOf(r: string, s: string, c: char) {
    && r <= s
    && (r == [] || r[|r| - 1] != c)
    && forall i :: |r| <= i < |s| ==> s[i] == c
  }

  /** `s.trim_end_matches(c)`: removes every trailing occurrence of `c`, not just one. */
  function TrimTrailing(s: string, c: char): (r: string)
    ensures IsTrimmedOf(r, s, c)
    decreases |s|
  {
    if |s| > 0 && s[|s| - 1] == c then TrimTrailing(s[..|s| - 1], c) else s
  }

  /** At most one string is the trimmed form of `s`, so the contract of TrimTrailing determines it. */
  lemma TrimmedUnique(r1: string, r2: string, s: string, c: char)
    requires IsTrimmedOf(r1, s, c) && IsTrimmedOf(r2, s, c)
    ensures r1 == r2
  {
  }

  /** Trimming is idempotent. */
  lemma TrimIdempotent(s: string, c: char)
    ensures TrimTrailing(TrimTrailing(s, c), c) == TrimTrailing(s, c)
  {

  }

  /** Appending any run of `c`s to `s` does not change what trimming yields. */
  lemma TrimIgnoresTrailing(s: string, tail: string, c: char)
    requires forall i :: 0 <= i < |tail| ==> tail[i] == c
    ensures TrimTrailing(s + tail, c) == TrimTrailing(s, c)
  {
    var r := TrimTrailing(s, c);
    assert IsTrimmedOf(r, s + tail, c) by {
      forall i | |r| <= i < |s + tail|
        ensures (s + tail)[i] == c
      {
        if i >= |s| {
          assert (s + tail)[i] == tail[i - |s|];
        }
      }
    }
    TrimmedUnique(TrimTrailing(s + tail, c), r, s + tail, c);
  }

  /** The index of the first `c` in `s`, if there is one. */
  function FindChar(s: string, c: char): (r: Option<nat>)
    ensures r.None? <==> c !in s
    ensures r.Some? ==> r.value < |s| && s[r.value] == c
    ensures r.Some? ==> forall j :: 0 <= j < r.value ==> s[j] != c
    decreases |s|
  {
    if |s| == 0 then None
    else if s[0] == c then Some(0)
    else match FindChar(s[1..], c)
      case None => None
      case Some(k) => Some(k + 1)
  }

  /** `s.split_once(c)`: the text before the first `c` and the text after it; `None` when `s` has no `c`. */
  function SplitOnce(s: string, c: char): (r: Option<(string, string)>)
    ensures r.None? <==> c !in s
    ensures r.Some? ==> r.value.0 + [c] + r.value.1 == s && c !in r.value.0
  {
    match FindChar(s, c)
    case None => None
    case Some(k) =>
      assert s == s[..k] + [c] + s[k + 1..];
      Some((s[..k], s[k + 1..]))
  }

  /** Splitting a string joined at its first `c` gives back the two parts. */
  lemma SplitOnceJoin(a: string, b: string, c: char)
    requires c !in a
    ensures SplitOnce(a + [c] + b, c) == Some((a, b))
  {
    var s := a + [c] + b;
    assert s[|a|] == c;
    var r := SplitOnce(s, c);
    var a', b' := r.value.0, r.value.1;
    assert a' == s[..|a|] == a;
    assert b' == s[|a| + 1..] == b;
  }

  /** Joining with a separator is injective when the left part holds no separator. */
  lemma JoinInjective(a1: string, b1: string, a2: string, b2: string, c: char)
    requires c !in a1 && c !in a2
    requires a1 + [c] + b1 == a2 + [c] + b2
    ensures a1 == a2 && b1 == b2
  {
    SplitOnceJoin(a1, b1, c);
    SplitOnceJoin(a2, b2, c);
  }
}
