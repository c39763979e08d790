/**
 * Facts about sequences that the proofs about tree.def rely on, stated
 * for any element type so that they are proved once, away from the
 * rendering functions.
 */
module SeqFacts {

  lemma SplitAt<T>(s: seq<T>, i: nat)
    requires i <= |s|
    ensures s == s[..i] + s[i..]
  {
  }

  lemma TakeNext<T>(s: seq<T>, i: nat)
    requires i < |s|
    ensures s[..i + 1] == s[..i] + [s[i]]
  {
  }

  lemma TakeAll<T>(s: seq<T>)
    ensures s[..|s|] == s
  {
  }

  lemma Associate<T>(a: seq<T>, b: seq<T>, c: seq<T>)
    ensures a + b + c == a + (b + c)
  {
  }

  lemma AbsentFromPrefix<T>(x: T, r: seq<T>, s: seq<T>)
    requires r <= s && x !in s
    ensures x !in r
  {
    assert forall k :: 0 <= k < |r| ==> r[k] == s[k];
  }

  lemma Reassemble<T>(s: seq<T>, p: nat, q: nat)
    requires p <= q <= |s|
    ensures s == s[..p] + s[p..q] + s[q..]
  {
  }

  lemma Regroup<T>(a: seq<T>, b: seq<T>, c: seq<T>, d: seq<T>, e: seq<T>)
    ensures a + (b + c + d) + e == a + b + c + d + e
  {
  }

  /** Splitting `a + [x] + b` around `x` gives back `a` and `b`. */
  lemma AroundElement<T>(s: seq<T>, a: seq<T>, x: T, b: seq<T>)
    requires s == a + ([x] + b)
    ensures |a| < |s| && s[..|a|] == a && s[|a|] == x && s[|a| + 1..] == b
  {
  }

  lemma ConsTail<T>(s: seq<T>)
    requires s != []
    ensures [s[0]] + s[1..] == s
  {
  }

  /** The three parts of `p + m + c` are found again at their positions. */
  lemma Framed<T>(p: seq<T>, m: seq<T>, c: seq<T>)
    ensures |p| + |c| <= |p + m + c|
    ensures (p + m + c)[..|p|] == p
    ensures (p + m + c)[|p + m + c| - |c|..] == c
    ensures (p + m + c)[|p|..|p + m + c| - |c|] == m
  {
  }

  /** The parts of `a + s + b` after `a` and after `a + s`. */
  lemma Parts<T>(a: seq<T>, s: seq<T>, b: seq<T>)
    ensures (a + s + b)[..|a|] == a
    ensures (a + s + b)[|a|..] == s + b
    ensures (a + s + b)[|a| + |s|..] == b
    ensures s <= s + b
  {
  }

  /** Moving the boundaries of a middle part around a repeated separator `c`. */
  lemma ShiftAcross<T>(a: seq<T>, b: seq<T>, c: seq<T>, d: seq<T>, e: seq<T>, f: seq<T>)
    ensures a + (b + c + d) + c + e + f == a + b + c + (d + c + e) + f
  {
  }

  /**
   * A sequence that starts with `p`, ends with `c`, and whose middle holds
   * `sep` at offset `k` is `p`, the middle before `sep`, `sep`, the middle
   * after it, and `c`.
   */
  lemma Unframe<T>(l: seq<T>, p: seq<T>, c: seq<T>, sep: seq<T>, k: nat)
    requires |p| + |c| <= |l| && l[..|p|] == p && l[|l| - |c|..] == c
    requires k <= |l| - |p| - |c| && sep <= l[|p|..|l| - |c|][k..]
    ensures l == p + l[|p|..|l| - |c|][..k] + sep + l[|p|..|l| - |c|][k + |sep|..] + c
  {
    var m := l[|p|..|l| - |c|];
    Reassemble(l, |p|, |l| - |c|);
    Reassemble(m, k, k + |sep|);
    assert m[k..k + |sep|] == sep;
  }

  /** Cutting `h + (a + s + b) + s` after the first `s` instead. */
  lemma SplitAfter<T>(h: seq<T>, a: seq<T>, s: seq<T>, b: seq<T>)
    ensures h + (a + s + b) + s == (h + a + s) + (b + s)
  {
  }
}
