/**
 * System.arraycopy, the one library routine modelled as a method of its own.
 */
module JavaSystem {

  /**
   * System.arraycopy(src, srcPos, dest, destPos, length) where src is a fresh
   * array (the result of a list's toArray()), so it cannot overlap dest:
   * dest[destPos .. destPos + length) receives src[srcPos .. srcPos + length)
   * and every other element of dest is left as it was. Positions out of range
   * make Java throw; here the precondition rules them out.
   */
  method ArrayCopy<T>(src: seq<T>, srcPos: nat, dest: array<T>, destPos: nat, length: nat)
    requires srcPos + length <= |src| && destPos + length <= dest.Length
    modifies dest
    ensures forall k :: 0 <= k < dest.Length ==>
      dest[k] == if destPos <= k < destPos + length then src[srcPos + k - destPos] else old(dest[k])
  {
    for m := 0 to length
      invariant forall k :: 0 <= k < dest.Length ==>
        dest[k] == if destPos <= k < destPos + m then src[srcPos + k - destPos] else old(dest[k])
    {
      dest[destPos + m] := src[srcPos + m];
    }
  }
}
