/** Bytes in memory and the library routines that move them (cpp/src/string.cpp). */
module Bytes {

  import opened Words

  /** What a move of `n` bytes from `s` to `d` leaves behind, whether or not the two ranges overlap. */
  function Moved(a: seq<byte>, d: nat, s: nat, n: nat): (r: seq<byte>)
    requires d + n <= |a| && s + n <= |a|
    ensures |r| == |a|
  {
    a[..d] + a[s..s + n] + a[d + n..]
  }

  lemma IsMoved(a: seq<byte>, b: seq<byte>, d: nat, s: nat, n: nat)
    requires d + n <= |a| == |b| && s + n <= |a|
    requires forall k :: d <= k < d + n ==> b[k] == a[k - d + s]
    requires forall k :: 0 <= k < |a| && !(d <= k < d + n) ==> b[k] == a[k]
    ensures b == Moved(a, d, s, n)
  {
  }

  /** `memmove`: upwards when the target lies below the source, downwards otherwise. */
  method MemMove(a: array<byte>, dst: nat, src: nat, count: nat)
    requires dst + count <= a.Length && src + count <= a.Length
    modifies a
    ensures a[..] == Moved(old(a[..]), dst, src, count)
  {
    hide Moved;
    if dst < src {
      for n := 0 to count
        invariant forall k :: dst <= k < dst + n ==> a[k] == old(a[k - dst + src])
        invariant forall k :: 0 <= k < a.Length && !(dst <= k < dst + n) ==> a[k] == old(a[k])
      {
        a[dst + n] := a[src + n];
      }
    } else {
      for n := count downto 0
        invariant forall k :: dst + n <= k < dst + count ==> a[k] == old(a[k - dst + src])
        invariant forall k :: 0 <= k < a.Length && !(dst + n <= k < dst + count) ==> a[k] == old(a[k])
      {
        a[dst + n] := a[src + n];
      }
    }
    IsMoved(old(a[..]), a[..], dst, src, count);
  }

  /** `memcpy` is `memmove`, so it too tolerates overlap. */
  method MemCpy(a: array<byte>, dst: nat, src: nat, count: nat)
    requires dst + count <= a.Length && src + count <= a.Length
    modifies a
    ensures a[..] == Moved(old(a[..]), dst, src, count)
  {
    MemMove(a, dst, src, count);
  }
}
