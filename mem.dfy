/** The one piece of the C library every core file uses: memcpy into an array. */
module Mem {

  /** Copies `src` into `dst` starting at index `at`, leaving every other element alone. */
  method Copy<T>(dst: array<T>, at: nat, src: seq<T>)
    requires at + |src| <= dst.Length
    modifies dst
    ensures forall i :: 0 <= i < dst.Length ==> dst[i] == if at <= i < at + |src| then src[i - at] else old(dst[i])
  {
    ghost var d0 := dst[..];
    var k := 0;
    while k < |src|
      invariant 0 <= k <= |src|
      invariant forall i :: 0 <= i < dst.Length ==> dst[i] == if at <= i < at + k then src[i - at] else d0[i]
    {
      dst[at + k] := src[k];
      k := k + 1;
    }
  }

  /** A sequence that agrees with `src` from `at` on and with `d0` elsewhere
      is `src` spliced into `d0`. */
  lemma Splice<T>(d: seq<T>, d0: seq<T>, at: nat, src: seq<T>)
    requires |d| == |d0| && at + |src| <= |d0|
    requires forall i :: 0 <= i < |d| ==> d[i] == if at <= i < at + |src| then src[i - at] else d0[i]
    ensures d == d0[..at] + src + d0[at + |src|..]
  {
    var r := d0[..at] + src + d0[at + |src|..];
    assert |r| == |d|;
    forall i | 0 <= i < |d| ensures d[i] == r[i] {
      if i < at { assert r[i] == d0[i]; }
      else if i < at + |src| { assert r[i] == src[i - at]; }
      else { assert r[i] == d0[i]; }
    }
  }

  /** Copy, seen through a known layout of `dst`: the part `mid` that sits at `at`,
      between `pre` and `post`, is replaced by `src`. */
  method Overwrite<T>(dst: array<T>, at: nat, ghost pre: seq<T>, ghost mid: seq<T>, ghost post: seq<T>, src: seq<T>)
    requires dst[..] == pre + mid + post && |pre| == at && |mid| == |src|
    modifies dst
    ensures dst[..] == pre + src + post
  {
    ghost var whole := dst[..];
    assert whole[..|pre|] == pre && whole[|pre| + |src|..] == post;
    Copy(dst, at, src);
    Splice(dst[..], whole, at, src);
  }

  /** A sequence whose front holds `a` and then `b`, element by element,
      starts with `a + b`. */
  lemma Front<T>(d: seq<T>, a: seq<T>, b: seq<T>)
    requires |a| + |b| <= |d|
    requires forall i :: 0 <= i < |a| ==> d[i] == a[i]
    requires forall i :: |a| <= i < |a| + |b| ==> d[i] == b[i - |a|]
    ensures d[..|a| + |b|] == a + b
  {
  }

  /** A slice within the front part of a concatenation is a slice of that part. */
  lemma Slice<T>(d: seq<T>, a: seq<T>, b: seq<T>, i: nat, j: nat)
    requires d == a + b && i <= j <= |a|
    ensures d[i..j] == a[i..j] && d[..|a|] == a
  {
  }

  /** A slice within a prefix is a slice of the prefix. */
  lemma Sub<T>(d: seq<T>, a: seq<T>, i: nat, j: nat)
    requires |a| <= |d| && d[..|a|] == a && i <= j <= |a|
    ensures d[i..j] == a[i..j]
  {
    assert forall k :: i <= k < j ==> d[k] == d[..|a|][k];
  }

  /** Splice, for a `dst` that held `acc` followed by the rest of `before`:
      writing `src` right after `acc` extends `acc` by `src`. */
  lemma Extend<T>(d: seq<T>, acc: seq<T>, before: seq<T>, src: seq<T>)
    requires |acc| + |src| <= |before| == |d|
    requires forall i :: 0 <= i < |d| ==>
               d[i] == if |acc| <= i < |acc| + |src| then src[i - |acc|] else (acc + before[|acc|..])[i]
    ensures d == acc + src + before[|acc| + |src|..]
  {
    var r := acc + src + before[|acc| + |src|..];
    forall i | 0 <= i < |d| ensures d[i] == r[i] {
      if i < |acc| { assert r[i] == acc[i] == (acc + before[|acc|..])[i]; }
      else if i < |acc| + |src| { assert r[i] == src[i - |acc|]; }
      else { assert r[i] == before[i] == (acc + before[|acc|..])[i]; }
    }
  }

  /** Writing `a` over the front of `t` keeps its length and leaves
      everything from offset `n` on, when `a` ends before `n`. */
  lemma OverFront<T>(a: seq<T>, t: seq<T>, n: nat)
    requires |a| <= n <= |t|
    ensures |a + t[|a|..]| == |t| && (a + t[|a|..])[n..] == t[n..]
  {
    var d := a + t[|a|..];
    assert forall k :: n <= k < |t| ==> d[k] == t[k];
  }
}
