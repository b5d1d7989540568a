/**
 The part of the kernel heap the driver uses: live blocks and their bytes.  Addresses may be
 reused once freed, and fresh memory holds arbitrary bytes.
 */
module Kernel {
  import opened Bytes
  import opened CircularBuffer

  lemma FreshAddressExists(used: set<Ptr>) returns (p: Ptr)
    ensures p != NULL && p !in used
  {
    p := 1;
    var left := used;
    while left != {}
      invariant p != NULL && forall q :: q in used ==> q in left || q < p
      decreases left
    {
      var q :| q in left;
      left := left - {q};
      if p <= q {
        p := q + 1;
      }
    }
  }

  class Heap {
    var blocks: map<Ptr, seq<byte>>

    constructor ()
      ensures blocks == map[]
    {
      blocks := map[];
    }

    method Kmalloc(size: nat, ok: bool) returns (p: Ptr)
      modifies this
      ensures ok ==> p != NULL && p !in old(blocks)
      ensures ok ==> p in blocks && |blocks[p]| == size && blocks == old(blocks)[p := blocks[p]]
      ensures !ok ==> p == NULL && blocks == old(blocks)
    {
      if !ok {
        return NULL;
      }
      ghost var unused := FreshAddressExists(blocks.Keys);
      p :| p != NULL && p !in blocks;
      var unset := new byte[size];
      blocks := blocks[p := unset[..]];
    }

    /** On failure the old block stays allocated; on success the block may have moved. */
    method Krealloc(p: Ptr, size: nat, ok: bool) returns (q: Ptr)
      requires p == NULL || p in blocks
      modifies this
      ensures !ok ==> q == NULL && blocks == old(blocks)
      ensures ok ==> q != NULL && (q == p || q !in old(blocks))
      ensures ok ==> q in blocks && |blocks[q]| == size && blocks == (old(blocks) - {p})[q := blocks[q]]
      ensures ok && p != NULL && |old(blocks)[p]| <= size ==> old(blocks)[p] <= blocks[q]
    {
      if !ok {
        return NULL;
      }
      var unset := new byte[size];
      var contents := unset[..];
      if p != NULL {
        var kept := if |blocks[p]| <= size then |blocks[p]| else size;
        contents := blocks[p][..kept] + contents[kept..];
      }
      ghost var unused := FreshAddressExists(blocks.Keys);
      q :| q != NULL && (q == p || q !in blocks);
      blocks := (blocks - {p})[q := contents];
    }

    /** Freeing takes a live block, or null, which is ignored: a second free of a block has no proof. */
    method Kfree(p: Ptr)
      requires p == NULL || p in blocks
      modifies this
      ensures blocks == if p == NULL then old(blocks) else old(blocks) - {p}
    {
      if p != NULL {
        blocks := blocks - {p};
      }
    }

    /** memcpy into a live block. */
    method Memcpy(p: Ptr, at: nat, data: seq<byte>)
      requires p in blocks && at + |data| <= |blocks[p]|
      modifies this
      ensures blocks == old(blocks)[p := old(blocks)[p][..at] + data + old(blocks)[p][at + |data|..]]
    {
      blocks := blocks[p := blocks[p][..at] + data + blocks[p][at + |data|..]];
    }
  }
}
