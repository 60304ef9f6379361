/** The byte-buffer copy the engine uses to duplicate rule tables. */
module Memory {

  /**
    memcpy(dst + dstFrom, src + srcFrom, count): the two buffers do not
    overlap, and every cell of dst outside the written window keeps its value.
  */
  method MemCopy(dst: array<int>, dstFrom: nat, src: array<int>, srcFrom: nat, count: nat)
    requires dst != src
    requires dstFrom + count <= dst.Length && srcFrom + count <= src.Length
    modifies dst
    ensures forall i :: 0 <= i < dst.Length ==>
              dst[i] == if dstFrom <= i < dstFrom + count then src[srcFrom + i - dstFrom] else old(dst[i])
  {
    var k := 0;
    while k < count
      invariant 0 <= k <= count
      invariant forall i :: 0 <= i < dst.Length ==>
                  dst[i] == if dstFrom <= i < dstFrom + k then src[srcFrom + i - dstFrom] else old(dst[i])
    {
      dst[dstFrom + k] := src[srcFrom + k];
      k := k + 1;
    }
  }
}
