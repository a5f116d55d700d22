/** The I/O buffer of net/iobuffer.h over net/ambuffer.h: a queue of bytes in one block of tiered memory. */
module IoBuffer {
  import opened Keys
  import opened Memory

  const STANDARD_READ_SIZE: nat := 4 * KB

  /** The window from head to size of a block after src has been written at position at. */
  lemma Overwritten(b: seq<Byte>, at: nat, src: seq<Byte>, head: nat, size: nat)
    requires head <= at && at + |src| <= size <= |b|
    ensures var w, w' := b[head..size], (b[..at] + src + b[at + |src|..])[head..size];
      |w'| == |w| && w'[..at - head] == w[..at - head] && w'[at - head..at - head + |src|] == src
  {
    var b' := b[..at] + src + b[at + |src|..];
    assert forall i :: 0 <= i < at ==> b'[i] == b[i];
    assert forall i :: 0 <= i < |src| ==> b'[at + i] == src[i];
  }

  class IOBuffer {
    const man: TieredMemoryManager
    const context: Context
    var head: nat

    ghost predicate Valid()
      reads this, man, man.slabs, man.Blocks(), man.contexts, context
    {
      man.Valid() && context in man.contexts && head <= context.size
    }

    /** The bytes waiting to be read. */
    ghost function Contents(): seq<Byte>
      requires Valid()
      reads this, man, man.slabs, man.Blocks(), man.contexts, context
    {
      man.Owns(context, {});
      if context.data == null then [] else context.data.bytes[head..context.size]
    }

    constructor (man: TieredMemoryManager)
      requires man.Valid()
      modifies man
      ensures Valid() && this.man == man && Contents() == [] && fresh(context)
    {
      var c := new Context();
      man.Register(c);
      this.man, context, head := man, c, 0;
    }

    // ---------- the underlying buffer ----------

    /** AMBuffer::resize */
    method Resize(sizeNew: nat, pointer: seq<Byte>) returns (ok: bool)
      requires Valid() && head <= sizeNew && |pointer| == 8
      modifies context, man.slabs, man.Blocks()
      ensures Valid()
      ensures !ok ==> Contents() == old(Contents()) && context.size == old(context.size)
      ensures ok ==> context.size == sizeNew && (sizeNew == 0 || context.data != null)
      ensures ok && sizeNew >= old(context.size) ==> old(Contents()) <= Contents()
      ensures ok && sizeNew <= old(context.size) ==> Contents() <= old(Contents())
      ensures ok <==> sizeNew <= old(context.capacity) || old(man.Room(sizeNew))
      ensures forall d :: d in man.contexts && d != context ==> d.data == old(d.data) && d.Bytes() == old(d.Bytes())
    {
      hide TieredMemoryManager.ValidBut;
      man.Owns(context, {});
      if sizeNew > context.capacity {
        ok := man.Allocate(context, sizeNew, pointer);
        if !ok {
          return false;
        }
      }
      SetSize(sizeNew);
      return true;
    }

    method SetSize(n: nat)
      requires man.Valid() && context in man.contexts && head <= n <= context.capacity && head <= context.size
      modifies context`size
      ensures Valid() && context.size == n
      ensures old(context.size) <= n ==> old(Contents()) <= Contents()
      ensures n <= old(context.size) ==> Contents() <= old(Contents())
    {
      context.size := n;
    }

    /** Bytes written into the block from position at on. */
    method Write(at: nat, src: seq<Byte>)
      requires Valid() && context.data != null && head <= at && at + |src| <= context.size
      modifies context.data`bytes
      ensures Valid() && |Contents()| == old(|Contents()|) && at - head + |src| <= |Contents()|
      ensures Contents()[..at - head] == old(Contents()[..at - head])
      ensures Contents()[at - head..at - head + |src|] == src
      ensures forall d :: d in man.contexts && d != context ==> d.data == old(d.data) && d.Bytes() == old(d.Bytes())
    {
      man.Owns(context, {});
      Overwritten(context.data.bytes, at, src, head, context.size);
      hide TieredMemoryManager.ValidBut;
      Store(at, src);
    }

    method Store(at: nat, src: seq<Byte>)
      requires man.Valid() && context in man.contexts && context.data != null && at + |src| <= |context.data.bytes|
      modifies context.data`bytes
      ensures man.Valid() && context.data.bytes == old(context.data.bytes[..at] + src + context.data.bytes[at + |src|..])
      ensures forall d :: d in man.contexts && d != context ==> d.data == old(d.data) && d.Bytes() == old(d.Bytes())
    {
      man.Owns(context, {});
      context.data.bytes := context.data.bytes[..at] + src + context.data.bytes[at + |src|..];
    }

    // ---------- the queue ----------

    /** push_: bytes at the end. Nothing can be pushed, not even nothing, where there is no memory. */
    method Push(s: seq<Byte>, pointer: seq<Byte>) returns (ok: bool)
      requires Valid() && |pointer| == 8
      modifies context, man.slabs, man.Blocks()
      ensures Valid() && Contents() == if ok then old(Contents()) + s else old(Contents())
      ensures ok <==>
        if old(context.size) + |s| > old(context.capacity) then old(man.Room(context.size + |s|)) else old(context.data) != null
      ensures forall d :: d in man.contexts && d != context ==> d.data == old(d.data) && d.Bytes() == old(d.Bytes())
    {
      hide TieredMemoryManager.ValidBut;
      man.Owns(context, {});
      if context.size + |s| > context.capacity {
        ok := Reserve(context.size + |s|, pointer);
        if !ok {
          return false;
        }
      }
      if context.data == null {
        return false;
      }
      man.Owns(context, {});
      Append(s);
      return true;
    }

    method Reserve(needed: nat, pointer: seq<Byte>) returns (ok: bool)
      requires Valid() && |pointer| == 8
      modifies context, man.slabs, man.Blocks()
      ensures Valid() && Contents() == old(Contents()) && context.size == old(context.size)
      ensures ok ==> context.data != null && needed <= context.capacity
      ensures ok <==> (old(context.data) != null && needed <= old(context.capacity)) || old(man.Room(needed))
      ensures forall d :: d in man.contexts && d != context ==> d.data == old(d.data) && d.Bytes() == old(d.Bytes())
    {
      hide TieredMemoryManager.ValidBut;
      man.Owns(context, {});
      ok := man.Allocate(context, needed, pointer);
      man.Owns(context, {});
    }

    method Append(s: seq<Byte>)
      requires Valid() && context.data != null && context.size + |s| <= context.capacity
      modifies context`size, context.data`bytes
      ensures Valid() && Contents() == old(Contents()) + s
      ensures forall d :: d in man.contexts && d != context ==> d.data == old(d.data) && d.Bytes() == old(d.Bytes())
    {
      hide TieredMemoryManager.ValidBut;
      man.Owns(context, {});
      ghost var c := Contents();
      var at := context.size;
      SetSize(at + |s|);
      assert Contents()[..at - head] == c;
      Write(at, s);
      assert Contents() == Contents()[..at - head] + Contents()[at - head..];
    }

    /** pop: bytes from the front. The last one gives the block back. */
    method Pop(size: nat, pointer: seq<Byte>) returns (ok: bool)
      requires Valid() && |pointer| == 8
      modifies this`head, context, man.slabs, man.Blocks()
      ensures ok == (0 < size <= |old(Contents())|)
      ensures Valid() && Contents() == if ok then old(Contents())[size..] else old(Contents())
      ensures |man.slabs| == TIERS
      ensures
        if ok && size == |old(Contents())| then
          && context.data == null && context.capacity == 0 && old(context.data) != null
          && forall i :: 0 <= i < TIERS ==> man.slabs[i].free == Given(old(context.data), i) + old(man.slabs[i].free)
        else
          && context.data == old(context.data) && context.capacity == old(context.capacity)
          && forall i :: 0 <= i < TIERS ==> man.slabs[i].free == old(man.slabs[i].free)
      ensures forall d :: d in man.contexts && d != context ==> d.data == old(d.data) && d.Bytes() == old(d.Bytes())
    {
      hide TieredMemoryManager.ValidBut;
      man.Owns(context, {});
      if size == 0 {
        return false;
      }
      var available := context.size - head;
      if available < size {
        return false;
      }
      if available == size {
        assert |Contents()| == size;
        man.Deallocate(context, pointer);
        head := 0;
        man.Owns(context, {});
        return true;
      }
      head := head + size;
      return true;
    }

    /** provideBuffer: room for size bytes behind the contents, for somebody else to fill. */
    method ProvideBuffer(size: nat, pointer: seq<Byte>) returns (ok: bool, offset: nat)
      requires Valid() && size > 0 && |pointer| == 8
      modifies context, man.slabs, man.Blocks()
      ensures Valid() && offset == old(context.size)
      ensures !ok ==> Contents() == old(Contents())
      ensures ok ==> context.data != null && context.size == offset + size && old(Contents()) <= Contents()
      ensures ok <==> offset + size <= old(context.capacity) || old(man.Room(context.size + size))
      ensures forall d :: d in man.contexts && d != context ==> d.data == old(d.data) && d.Bytes() == old(d.Bytes())
    {
      hide TieredMemoryManager.ValidBut;
      man.Owns(context, {});
      offset := context.size;
      ok := Resize(offset + size, pointer);
    }

    /** provideBufferAtLeast: the same, and then all that the block has. */
    method ProvideBufferAtLeast(size: nat, pointer: seq<Byte>) returns (ok: bool, offset: nat, provided: nat)
      requires Valid() && size > 0 && |pointer| == 8
      modifies context, man.slabs, man.Blocks()
      ensures Valid() && offset == old(context.size)
      ensures !ok ==> Contents() == old(Contents())
      ensures ok ==> provided >= size && context.data != null && context.size == context.capacity == offset + provided
      ensures ok ==> old(Contents()) <= Contents()
      ensures ok <==> offset + size <= old(context.capacity) || old(man.Room(context.size + size))
      ensures forall d :: d in man.contexts && d != context ==> d.data == old(d.data) && d.Bytes() == old(d.Bytes())
    {
      hide TieredMemoryManager.ValidBut;
      man.Owns(context, {});
      offset, provided := context.size, 0;
      ok := Resize(offset + size, pointer);
      if ok {
        man.Owns(context, {});
        SetSize(context.capacity);
        provided := context.size - offset;
      }
    }

    /** finalizeBuffer: of the bytes provided from offset on, actual have been filled. */
    method FinalizeBuffer(offset: nat, actual: nat, pointer: seq<Byte>)
      requires Valid() && |pointer| == 8 && head <= offset && offset + actual <= context.size && context.data != null
      modifies context, man.slabs, man.Blocks()
      ensures Valid() && Contents() == old(Contents()[..offset - head + actual])
      ensures forall d :: d in man.contexts && d != context ==> d.data == old(d.data) && d.Bytes() == old(d.Bytes())
    {
      hide TieredMemoryManager.ValidBut;
      man.Owns(context, {});
      Length();
      var ok := Resize(offset + actual, pointer);
      assert ok;
      Length();
    }

    lemma Length()
      requires Valid()
      ensures |Contents()| == context.size - head
    {
      man.Owns(context, {});
    }

    /** Filling provided bytes and finalizing. */
    method Fill(offset: nat, s: seq<Byte>, pointer: seq<Byte>)
      requires Valid() && |pointer| == 8 && head <= offset && offset + |s| <= context.size && context.data != null
      requires offset - head <= |Contents()|
      modifies context, man.slabs, man.Blocks()
      ensures Valid() && Contents() == old(Contents()[..offset - head]) + s
      ensures forall d :: d in man.contexts && d != context ==> d.data == old(d.data) && d.Bytes() == old(d.Bytes())
    {
      hide TieredMemoryManager.ValidBut;
      man.Owns(context, {});
      Write(offset, s);
      ghost var filled := Contents();
      FinalizeBuffer(offset, |s|, pointer);
      assert filled[..offset - head + |s|] == filled[..offset - head] + filled[offset - head..offset - head + |s|];
    }

    /** A read from the network: provide, fill with src, finalize. The queue has grown by what was read. */
    method Receive(src: seq<Byte>, pointer: seq<Byte>) returns (n: nat)
      requires Valid() && |pointer| == 8
      modifies context, man.slabs, man.Blocks()
      ensures Valid() && n <= |src| && Contents() == old(Contents()) + src[..n]
      ensures |src| <= STANDARD_READ_SIZE && old(man.Room(context.size + STANDARD_READ_SIZE)) ==> n == |src|
      ensures forall d :: d in man.contexts && d != context ==> d.data == old(d.data) && d.Bytes() == old(d.Bytes())
    {
      hide TieredMemoryManager.ValidBut;
      hide IOBuffer.Contents;
      Length();
      var ok, offset, provided := ProvideBufferAtLeast(STANDARD_READ_SIZE, pointer);
      if !ok {
        assert src[..0] == [];
        return 0;
      }
      n := if |src| < provided then |src| else provided;
      Length();
      Fill(offset, src[..n], pointer);
      assert |src| == n ==> src[..n] == src;
    }

    /** swap: two buffers of one manager exchange their queues, and no byte moves. */
    method Swap(other: IOBuffer)
      requires Valid() && other.Valid() && other.man == man && other.context != context
      modifies this`head, other`head, context, other.context
      ensures Valid() && other.Valid() && Contents() == old(other.Contents()) && other.Contents() == old(Contents())
    {
      hide TieredMemoryManager.ValidBut;
      man.Owns(context, {});
      man.Owns(other.context, {});
      var h := head;
      head, other.head := other.head, h;
      man.SwapContexts(context, other.context);
    }
  }
}
