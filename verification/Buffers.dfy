/** What a store at an offset does to a buffer. */
module Buffers {

  /** `s` with `b` written over it from `offset` on. */
  function Patch<T>(s: seq<T>, offset: nat, b: seq<T>): (t: seq<T>)
    requires offset + |b| <= |s|
    ensures |t| == |s|
    ensures forall k :: 0 <= k < |s| ==> t[k] == if offset <= k < offset + |b| then b[k - offset] else s[k]
  {
    s[..offset] + b + s[offset + |b|..]
  }
}
