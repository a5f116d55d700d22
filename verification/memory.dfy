/** Tiered slab memory: fixed size blocks on free lists, owned by at most one buffer at a time. */
module Memory {
  import opened Keys

  const KB: nat := 1024
  const MB: nat := 1024 * 1024
  const TIERS: nat := 8

  function SizeOf(tier: nat): nat {
    match tier
    case 0 => 16 * KB
    case 1 => 64 * KB
    case 2 => 256 * KB
    case 3 => 1 * MB
    case 4 => 4 * MB
    case 5 => 16 * MB
    case 6 => 64 * MB
    case _ => 256 * MB + 64 * KB
  }

  /** capacity2tier: TIERS when the capacity is not a block size. */
  function TierOf(capacity: nat): nat {
    if capacity == SizeOf(0) then 0
    else if capacity == SizeOf(1) then 1
    else if capacity == SizeOf(2) then 2
    else if capacity == SizeOf(3) then 3
    else if capacity == SizeOf(4) then 4
    else if capacity == SizeOf(5) then 5
    else if capacity == SizeOf(6) then 6
    else if capacity == SizeOf(7) then 7
    else TIERS
  }

  /** Each tier is four times the one before, but for the last, which has 64 KB more. */
  lemma TierSizes(tier: nat)
    requires tier < TIERS
    ensures tier == 0 ==> SizeOf(tier) == 16384
    ensures 0 < tier ==> SizeOf(tier) == 4 * SizeOf(tier - 1) + if tier == 7 then 65536 else 0
  {
  }

  lemma TierOfSize(tier: nat)
    requires tier < TIERS
    ensures TierOf(SizeOf(tier)) == tier && SizeOf(tier) > 8
  {
  }

  lemma SizesGrow(s: nat, t: nat)
    requires s <= t < TIERS
    ensures SizeOf(s) <= SizeOf(t)
  {
  }

  /** findTier_: the first tier that is large enough. */
  method FindTier(needed: nat) returns (tier: nat)
    ensures tier <= TIERS && (tier < TIERS ==> needed <= SizeOf(tier))
    ensures forall t :: 0 <= t < tier ==> needed > SizeOf(t)
  {
    for i := 0 to TIERS
      invariant forall t :: 0 <= t < i ==> needed > SizeOf(t)
    {
      if needed <= SizeOf(i) {
        return i;
      }
    }
    return TIERS;
  }

  /** A block; while it is free its first bytes hold the link. */
  class Block {
    const tier: nat
    var bytes: seq<Byte>
    var link: Block?

    constructor (tier: nat, bytes: seq<Byte>)
      ensures this.tier == tier && this.bytes == bytes
    {
      this.tier, this.bytes, this.link := tier, bytes, null;
    }
  }

  function At(list: seq<Block>, i: nat): Block? { if i < |list| then list[i] else null }

  predicate SameFront(x: seq<Byte>, y: seq<Byte>, n: nat) {
    n <= |x| && n <= |y| && x[..n] == y[..n]
  }

  /** What a block given back adds to the free list of tier i. */
  ghost function Given(b: Block?, i: nat): seq<Block> { if b != null && b.tier == i then [b] else [] }

  /** p comes from the smallest tier that is large enough and had a free block. It has left its free list, and b, the
      block held before, is in front of the list of its own tier. */
  ghost predicate Fits(p: Block?, needed: nat, b: Block?, before: seq<seq<Block>>, after: seq<seq<Block>>) {
    && |before| == |after| == TIERS && p != null && p.tier < TIERS && needed <= SizeOf(p.tier)
    && (forall i :: 0 <= i < TIERS && needed <= SizeOf(i) && before[i] != [] ==> SizeOf(p.tier) <= SizeOf(i))
    && before[p.tier] != [] && p == before[p.tier][0]
    && forall i :: 0 <= i < TIERS ==> after[i] == Given(b, i) + if i == p.tier then before[i][1..] else before[i]
  }

  /** Whoever comes from the first tier on that has a free block, fits. */
  lemma FirstFits(p: Block, needed: nat, tier: nat, b: Block?, before: seq<seq<Block>>, after: seq<seq<Block>>)
    requires |before| == |after| == TIERS && tier <= p.tier < TIERS && needed <= SizeOf(tier)
    requires (forall i :: 0 <= i < tier ==> needed > SizeOf(i)) && forall i :: tier <= i < p.tier ==> before[i] == []
    requires before[p.tier] != [] && p == before[p.tier][0]
    requires forall i :: 0 <= i < TIERS ==> after[i] == Given(b, i) + if i == p.tier then before[i][1..] else before[i]
    ensures Fits(p, needed, b, before, after)
  {
    SizesGrow(tier, p.tier);
    forall i | 0 <= i < TIERS && needed <= SizeOf(i) && before[i] != [] ensures SizeOf(p.tier) <= SizeOf(i) {
      SizesGrow(p.tier, i);
    }
  }

  lemma Popped(list: seq<Block>, p: Block, rest: seq<Block>)
    requires list == [p] + rest
    ensures forall b :: b in list <==> b in rest || b == p
  {
  }

  class SlabAllocator {
    const tier: nat
    var freeList: Block?
    ghost const blocks: set<Block>
    ghost var free: seq<Block>

    /** The free list runs through free, every block once. */
    ghost predicate Valid()
      reads this, blocks
    {
      && (forall b :: b in blocks ==> b.tier == tier && |b.bytes| == SizeOf(tier))
      && (forall i :: 0 <= i < |free| ==> free[i] in blocks)
      && (forall i, j :: 0 <= i < j < |free| ==> free[i] != free[j])
      && freeList == At(free, 0)
      && (forall i :: 0 <= i < |free| ==> free[i].link == At(free, i + 1))
    }

    /** createFreeList_: the blocks of a new slab, linked from the last to the first. */
    constructor (tier: nat, count: nat, raw: seq<Byte>)
      requires tier < TIERS && |raw| == SizeOf(tier)
      ensures Valid() && this.tier == tier && |free| == count && fresh(blocks)
      ensures forall b :: b in blocks <==> b in free
    {
      var first: Block? := null;
      ghost var all: set<Block>, list: seq<Block> := {}, [];
      for i := 0 to count
        invariant |list| == i && fresh(all) && (forall b :: b in all <==> b in list) && first == At(list, 0)
        invariant forall b :: b in all ==> b.tier == tier && |b.bytes| == SizeOf(tier)
        invariant forall k :: 0 <= k < |list| ==> list[k].link == At(list, k + 1)
        invariant forall j, k :: 0 <= j < k < |list| ==> list[j] != list[k]
      {
        var b := new Block(tier, raw);
        b.link := first;
        first := b;
        all, list := all + {b}, [b] + list;
      }
      this.tier := tier;
      freeList := first;
      blocks, free := all, list;
    }

    method XAllocate() returns (b: Block?)
      requires Valid()
      modifies this`freeList, this`free
      ensures Valid()
      ensures if old(free) == [] then b == null && free == [] else b == old(free)[0] && free == old(free)[1..]
    {
      if freeList == null {
        return null;
      }
      b := freeList;
      assert b == free[0] && free[0].link == At(free, 1);
      freeList := b.link;
      ghost var before := free;
      free := free[1..];
      assert forall i :: 0 <= i < |free| ==> free[i] == before[i + 1];
    }

    /** The link overwrites the first eight bytes with something. */
    method XDeallocate(b: Block, pointer: seq<Byte>)
      requires Valid() && b in blocks && b !in free && |pointer| == 8 && tier < TIERS
      modifies this`freeList, this`free, b`link, b`bytes
      ensures Valid() && free == [b] + old(free)
    {
      TierOfSize(tier);
      b.link := freeList;
      b.bytes := pointer + b.bytes[8..];
      freeList := b;
      ghost var before := free;
      free := [b] + free;
      assert forall i :: 0 < i < |free| ==> free[i] == before[i - 1];
    }

    method GetFreeBlocks() returns (n: nat)
      requires Valid()
      ensures n == |free|
    {
      var b := freeList;
      n := 0;
      while b != null
        invariant n <= |free| && b == At(free, n)
        decreases |free| - n
      {
        assert b == free[n];
        b := b.link;
        n := n + 1;
      }
    }
  }

  /** One slab for every tier, all of it free. */
  method NewSlabs(counts: seq<nat>, raw: seq<seq<Byte>>) returns (list: seq<SlabAllocator>)
    requires |counts| == TIERS && |raw| == TIERS && forall i :: 0 <= i < TIERS ==> |raw[i]| == SizeOf(i)
    ensures |list| == TIERS
    ensures forall j :: 0 <= j < TIERS ==> list[j].tier == j && list[j].Valid() && |list[j].free| == counts[j]
    ensures forall j :: 0 <= j < TIERS ==> forall b :: b in list[j].blocks ==> b in list[j].free
    ensures forall j :: 0 <= j < TIERS ==> fresh(list[j]) && fresh(list[j].blocks)
  {
    hide SlabAllocator.Valid;
    hide SizeOf;
    list := [];
    for i := 0 to TIERS
      invariant |list| == i && (forall j :: 0 <= j < i ==> list[j].tier == j && list[j].Valid() && |list[j].free| == counts[j])
      invariant forall j :: 0 <= j < i ==> fresh(list[j]) && fresh(list[j].blocks)
      invariant forall j :: 0 <= j < i ==> forall b :: b in list[j].blocks ==> b in list[j].free
    {
      var slab := new SlabAllocator(i, counts[i], raw[i]);
      list := list + [slab];
    }
  }

  /** The memory of one buffer. */
  class Context {
    var data: Block?
    var size: nat
    var capacity: nat

    constructor ()
      ensures data == null && size == 0 && capacity == 0
    {
      data, size, capacity := null, 0, 0;
    }

    ghost function Bytes(): seq<Byte>
      reads this, data
    {
      if data == null then [] else data.bytes
    }

    method Exchange(other: Context)
      modifies this, other
      ensures data == old(other.data) && size == old(other.size) && capacity == old(other.capacity)
      ensures other.data == old(data) && other.size == old(size) && other.capacity == old(capacity)
    {
      var d, s, c := data, size, capacity;
      data, size, capacity := other.data, other.size, other.capacity;
      other.data, other.size, other.capacity := d, s, c;
    }
  }

  class TieredMemoryManager {
    const slabs: seq<SlabAllocator>
    ghost var contexts: set<Context>

    ghost function Blocks(): set<Block> {
      set s, b | s in slabs && b in s.blocks :: b
    }

    ghost function FreeLists(): (f: seq<seq<Block>>)
      reads slabs
      ensures |f| == |slabs| && forall i :: 0 <= i < |slabs| ==> f[i] == slabs[i].free
    {
      seq(|slabs|, i requires 0 <= i < |slabs| reads slabs => slabs[i].free)
    }

    ghost predicate Slabs()
      reads slabs, Blocks()
    {
      |slabs| == TIERS && forall i :: 0 <= i < TIERS ==> slabs[i].tier == i && slabs[i].Valid()
    }

    /** b belongs to its slab and is not on the free list. */
    ghost predicate Used(b: Block)
      requires |slabs| == TIERS
      reads slabs
    {
      b.tier < TIERS && b in slabs[b.tier].blocks && b !in slabs[b.tier].free
    }

    ghost predicate Held(c: Context)
      requires |slabs| == TIERS
      reads slabs, c
    {
      if c.data == null then c.size == 0 && c.capacity == 0
      else Used(c.data) && c.capacity == SizeOf(c.data.tier) && c.size <= c.capacity
    }

    /** Every block is on its free list once, or held by exactly one context whose capacity names its tier, or loose. */
    ghost predicate ValidBut(loose: set<Block>)
      reads this, slabs, Blocks(), contexts
    {
      && Slabs() && (forall c :: c in contexts ==> Held(c))
      && (forall c, d :: c in contexts && d in contexts && c != d && c.data != null ==> c.data != d.data)
      && (forall c :: c in contexts && c.data != null ==> c.data !in loose)
      && (forall b :: b in loose ==> Used(b))
      && (forall b :: b in Blocks() && Used(b) ==> b in loose || exists c :: c in contexts && c.data == b)
    }

    ghost predicate Valid()
      reads this, slabs, Blocks(), contexts
    {
      ValidBut({})
    }

    constructor (counts: seq<nat>, raw: seq<seq<Byte>>)
      requires |counts| == TIERS && |raw| == TIERS && forall i :: 0 <= i < TIERS ==> |raw[i]| == SizeOf(i)
      ensures Valid() && contexts == {}
      ensures forall i :: 0 <= i < TIERS ==> |slabs[i].free| == counts[i]
    {
      contexts := {};
      var list := NewSlabs(counts, raw);
      slabs := list;
    }

    /** A new buffer starts without memory. */
    method Register(c: Context)
      requires Valid() && c !in contexts && c.data == null && c.size == 0 && c.capacity == 0
      modifies this`contexts
      ensures Valid() && contexts == old(contexts) + {c}
    {
      contexts := contexts + {c};
    }

    // ---------- allocate ----------

    /** allocate_: one block of a tier, if it has any. */
    method TakeFrom(t: nat) returns (p: Block?)
      requires Valid() && t < TIERS
      modifies slabs
      ensures contexts == old(contexts) && |slabs| == TIERS
      ensures forall i :: 0 <= i < TIERS && i != t ==> slabs[i].free == old(slabs[i].free)
      ensures p == null ==> Valid() && slabs[t].free == old(slabs[t].free) == []
      ensures p != null ==> ValidBut({p}) && [p] + slabs[t].free == old(slabs[t].free) && p.tier == t
    {
      assert |slabs| == TIERS;
      hide SizeOf;
      hide TieredMemoryManager.Slabs;
      p := Pull(t);
    }

    method Pull(t: nat) returns (p: Block?)
      requires Slabs() && t < TIERS && forall c :: c in contexts ==> Held(c)
      modifies slabs
      ensures Slabs() && (forall c :: c in contexts ==> Held(c) && (c.data != null ==> c.data != p))
      ensures forall i :: 0 <= i < TIERS && i != t ==> slabs[i].free == old(slabs[i].free)
      ensures forall b :: b in Blocks() ==> (Used(b) <==> old(Used(b)) || b == p)
      ensures p == null ==> slabs[t].free == old(slabs[t].free) == []
      ensures p != null ==> [p] + slabs[t].free == old(slabs[t].free) && p.tier == t && Used(p)
    {
      hide SizeOf;
      assert forall i :: 0 <= i < TIERS && i != t ==> slabs[i] != slabs[t];
      p := slabs[t].XAllocate();
      if p != null {
        assert p in old(slabs[t].free);
        Popped(old(slabs[t].free), p, slabs[t].free);
      }
    }

    /** The first free block from tier on. */
    method Take(tier: nat) returns (p: Block?, t: nat)
      requires Valid() && tier <= TIERS
      modifies slabs
      ensures contexts == old(contexts) && |slabs| == TIERS && tier <= t <= TIERS && (p != null <==> t < TIERS)
      ensures p == null ==> Valid()
      ensures p != null ==> ValidBut({p}) && [p] + slabs[t].free == old(slabs[t].free) && p.tier == t
      ensures forall i :: tier <= i < t ==> old(slabs[i].free) == []
      ensures forall i :: 0 <= i < TIERS && i != t ==> slabs[i].free == old(slabs[i].free)
    {
      p, t := null, tier;
      assert |slabs| == TIERS;
      hide TieredMemoryManager.ValidBut;
      while t < TIERS
        invariant tier <= t <= TIERS && p == null && Valid() && contexts == old(contexts)
        invariant forall i :: tier <= i < t ==> old(slabs[i].free) == []
        invariant forall i :: 0 <= i < TIERS ==> slabs[i].free == old(slabs[i].free)
      {
        p := TakeFrom(t);
        if p != null {
          return;
        }
        t := t + 1;
      }
    }

    /** memcpy of the first size bytes into a loose block. */
    method Copy(p: Block, from: Block, size: nat)
      requires ValidBut({p}) && Used(from) && p != from && size <= |from.bytes| && size <= |p.bytes|
      modifies p`bytes
      ensures ValidBut({p}) && |p.bytes| == old(|p.bytes|) && p.bytes[..size] == from.bytes[..size]
    {
      p.bytes := from.bytes[..size] + p.bytes[size..];
    }

    /** deallocate_: a loose block goes back to its free list. */
    method GiveBack(b: Block, t: nat, pointer: seq<Byte>)
      requires ValidBut({b}) && t == b.tier && |pointer| == 8
      modifies slabs, b
      ensures Valid() && contexts == old(contexts)
      ensures t < TIERS && slabs[t].free == [b] + old(slabs[t].free)
      ensures forall i :: 0 <= i < TIERS && i != t ==> slabs[i].free == old(slabs[i].free)
    {
      assert Used(b);
      assert forall i :: 0 <= i < TIERS && i != t ==> slabs[i] != slabs[t] && b !in slabs[i].blocks;
      slabs[t].XDeallocate(b, pointer);
      assert forall i :: 0 <= i < TIERS && i != t ==> slabs[i].Valid();
      assert forall x :: x in Blocks() ==> (Used(x) <==> old(Used(x)) && x != b);
    }

    /** The context takes over a loose block; the block it had is loose then. */
    method Bind(c: Context, p: Block)
      requires ValidBut({p}) && c in contexts && c.size <= SizeOf(p.tier)
      modifies c
      ensures c.data == p && c.size == old(c.size) && c.capacity == SizeOf(p.tier)
      ensures ValidBut(if old(c.data) == null then {} else {old(c.data)})
    {
      ghost var b := c.data;
      assert b != null ==> Used(b);
      c.data, c.capacity := p, SizeOf(p.tier);
      forall x | x in Blocks() && Used(x) ensures x == b || exists d :: d in contexts && d.data == x {
        if x == p {
          assert c.data == x;
        } else if x != b {
          var d :| d in contexts && old(d.data) == x;
          assert d != c;
        }
      }
    }

    /** Context::clear; its block is loose then. */
    method Drop(c: Context)
      requires Valid() && c in contexts && c.data != null
      modifies c
      ensures c.data == null && c.size == 0 && c.capacity == 0 && ValidBut({old(c.data)})
    {
      ghost var b := c.data;
      assert Used(b);
      c.data, c.size, c.capacity := null, 0, 0;
      forall x | x in Blocks() && Used(x) ensures x == b || exists d :: d in contexts && d.data == x {
        var d :| d in contexts && old(d.data) == x;
        assert x != b ==> d != c;
      }
    }

    lemma Owns(c: Context, loose: set<Block>)
      requires ValidBut(loose) && c in contexts
      ensures |slabs| == TIERS && Held(c)
      ensures c.data != null ==> c.data.tier < TIERS && c.data in Blocks() && c.data !in loose
      ensures c.data != null ==> |c.data.bytes| == c.capacity == SizeOf(c.data.tier)
      ensures c.data != null ==> TierOf(c.capacity) == c.data.tier
      ensures forall b :: b in loose ==> b.tier < TIERS && b in Blocks() && |b.bytes| == SizeOf(b.tier)
      ensures c.data != null ==> forall d :: d in contexts && d != c ==> d.data != c.data
      ensures forall d :: d in contexts && d.data != null ==> d.data !in loose
    {
      if c.data != null {
        assert slabs[c.data.tier].Valid();
        TierOfSize(c.data.tier);
      }
      forall b | b in loose ensures b.tier < TIERS && b in Blocks() && |b.bytes| == SizeOf(b.tier) {
        assert Used(b);
        assert slabs[b.tier].Valid();
      }
    }

    method Deallocate(c: Context, pointer: seq<Byte>)
      requires Valid() && c in contexts && |pointer| == 8
      modifies c, slabs, Blocks()
      ensures Valid() && contexts == old(contexts) && c.data == null && c.size == 0 && c.capacity == 0 && |slabs| == TIERS
      ensures forall i :: 0 <= i < TIERS ==> slabs[i].free == Given(old(c.data), i) + old(slabs[i].free)
      ensures forall d :: d in contexts && d != c ==> d.data == old(d.data) && d.Bytes() == old(d.Bytes())
    {
      hide TieredMemoryManager.ValidBut;
      Owns(c, {});
      if c.data != null {
        var b, t := c.data, TierOf(c.capacity);
        Drop(c);
        GiveBack(b, t, pointer);
      }
    }

    /** The contents move into a loose block, and the block they were in goes back. */
    method Move(c: Context, p: Block, pointer: seq<Byte>)
      requires ValidBut({p}) && c in contexts && |pointer| == 8 && c.size <= SizeOf(p.tier)
      modifies c, slabs, Blocks()
      ensures Valid() && contexts == old(contexts) && |slabs| == TIERS
      ensures c.data == p && c.size == old(c.size) && c.capacity == SizeOf(p.tier) == |p.bytes|
      ensures forall i :: 0 <= i < TIERS ==> slabs[i].free == Given(old(c.data), i) + old(slabs[i].free)
      ensures old(c.data) != null ==> SameFront(p.bytes, old(c.data.bytes), c.size)
      ensures forall d :: d in contexts && d != c ==> d.data == old(d.data) && d.Bytes() == old(d.Bytes())
    {
      hide TieredMemoryManager.ValidBut;
      Owns(c, {p});
      if c.data == null {
        Bind(c, p);
      } else {
        var b, t := c.data, TierOf(c.capacity);
        Copy(p, b, c.size);
        Bind(c, p);
        GiveBack(b, t, pointer);
      }
    }

    /** Some tier that is large enough has a free block. */
    ghost predicate Room(needed: nat)
      reads slabs
    {
      exists i :: 0 <= i < |slabs| && needed <= SizeOf(i) && slabs[i].free != []
    }

    lemma FirstFree(tier: nat) returns (t: nat)
      requires |slabs| == TIERS && tier <= TIERS
      ensures tier <= t <= TIERS && (forall i :: tier <= i < t ==> slabs[i].free == []) && (t < TIERS ==> slabs[t].free != [])
    {
      t := tier;
      while t < TIERS && slabs[t].free == []
        invariant tier <= t <= TIERS && forall i :: tier <= i < t ==> slabs[i].free == []
      {
        t := t + 1;
      }
    }

    lemma RoomFrom(needed: nat, tier: nat, t: nat)
      requires |slabs| == TIERS && tier <= TIERS && tier <= t <= TIERS
      requires (tier < TIERS ==> needed <= SizeOf(tier)) && (forall i :: 0 <= i < tier ==> needed > SizeOf(i))
      requires (forall i :: tier <= i < t ==> slabs[i].free == []) && (t < TIERS ==> slabs[t].free != [])
      ensures Room(needed) <==> t < TIERS
      ensures t < TIERS ==> needed <= SizeOf(t)
    {
      if t < TIERS {
        SizesGrow(tier, t);
      }
      hide SizeOf;
    }

    /** Room for needed bytes. A context that has room keeps its block; otherwise the contents move along to the block
        taken; on failure nothing changes. */
    method Allocate(c: Context, needed: nat, pointer: seq<Byte>) returns (ok: bool)
      requires Valid() && c in contexts && |pointer| == 8
      modifies c, slabs, Blocks()
      ensures Valid() && contexts == old(contexts) && c.size == old(c.size) && |slabs| == TIERS
      ensures
        if old(c.data) != null && needed <= old(c.capacity) then
          && c.data == old(c.data) && c.capacity == old(c.capacity) && c.data.bytes == old(c.data.bytes)
          && FreeLists() == old(FreeLists())
        else
          ok ==> Fits(c.data, needed, old(c.data), old(FreeLists()), FreeLists())
      ensures ok ==> c.data != null && needed <= c.capacity == |c.data.bytes|
      ensures ok && old(c.data) != null ==> SameFront(c.data.bytes, old(c.data.bytes), c.size)
      ensures !ok ==> c.data == old(c.data) && c.capacity == old(c.capacity) && (c.data != null ==> c.data.bytes == old(c.data.bytes))
      ensures !ok ==> FreeLists() == old(FreeLists())
      ensures ok <==> (old(c.data) != null && needed <= old(c.capacity)) || old(Room(needed))
      ensures forall d :: d in contexts && d != c ==> d.data == old(d.data) && d.Bytes() == old(d.Bytes())
    {
      hide TieredMemoryManager.ValidBut;
      hide SizeOf;
      hide TierOf;
      Owns(c, {});
      var tier := FindTier(needed);
      var contextTier := TierOf(c.capacity);
      if c.data != null && contextTier >= tier {
        SizesGrow(tier, contextTier);
        return true;
      }
      if tier >= TIERS {
        RoomFrom(needed, tier, tier);
        return false;
      }
      ok := Grow(c, needed, tier, pointer);
    }

    /** The first free block that is large enough, when tier is the first tier of that size. */
    method TakeRoom(needed: nat, tier: nat) returns (p: Block?)
      requires Valid() && tier < TIERS && needed <= SizeOf(tier) && forall i :: 0 <= i < tier ==> needed > SizeOf(i)
      modifies slabs
      ensures contexts == old(contexts) && |slabs| == TIERS && (p != null <==> old(Room(needed)))
      ensures p == null ==> Valid() && FreeLists() == old(FreeLists())
      ensures p != null ==> ValidBut({p}) && tier <= p.tier < TIERS && old(FreeLists())[p.tier] == [p] + slabs[p.tier].free
      ensures p != null ==> forall i :: 0 <= i < TIERS && i != p.tier ==> slabs[i].free == old(FreeLists())[i]
      ensures p != null ==> forall i :: tier <= i < p.tier ==> slabs[i].free == []
    {
      hide SizeOf;
      assert |slabs| == TIERS;
      hide TieredMemoryManager.ValidBut;
      ghost var first := FirstFree(tier);
      RoomFrom(needed, tier, first);
      hide TieredMemoryManager.Room;
      assert first < TIERS ==> slabs[first].free != [];
      var t;
      p, t := Take(tier);
      assert t == first;
    }

    method Grow(c: Context, needed: nat, tier: nat, pointer: seq<Byte>) returns (ok: bool)
      requires Valid() && c in contexts && |pointer| == 8 && tier < TIERS && needed <= SizeOf(tier)
      requires forall i :: 0 <= i < tier ==> needed > SizeOf(i)
      requires c.data != null ==> c.data.tier < tier
      modifies c, slabs, Blocks()
      ensures Valid() && contexts == old(contexts) && c.size == old(c.size) && ok == old(Room(needed))
      ensures ok ==> Fits(c.data, needed, old(c.data), old(FreeLists()), FreeLists())
      ensures ok ==> c.data != null && needed <= c.capacity == |c.data.bytes|
      ensures ok && old(c.data) != null ==> SameFront(c.data.bytes, old(c.data.bytes), c.size)
      ensures !ok ==> c.data == old(c.data) && c.capacity == old(c.capacity) && (c.data != null ==> c.data.bytes == old(c.data.bytes))
      ensures !ok ==> FreeLists() == old(FreeLists())
      ensures forall d :: d in contexts && d != c ==> d.data == old(d.data) && d.Bytes() == old(d.Bytes())
    {
      hide TieredMemoryManager.ValidBut;
      hide SizeOf;
      hide TierOf;
      hide Fits;
      hide SameFront;
      hide SlabAllocator.Valid;
      hide TieredMemoryManager.Slabs;
      hide TieredMemoryManager.Used;
      hide TieredMemoryManager.Held;
      hide TieredMemoryManager.Room;
      Owns(c, {});
      ghost var before := FreeLists();
      var p := TakeRoom(needed, tier);
      if p == null {
        return false;
      }
      Settle(c, p, needed, tier, pointer, before);
      return true;
    }

    /** The block taken from the first tier that had one becomes the block of the context. */
    method Settle(c: Context, p: Block, needed: nat, tier: nat, pointer: seq<Byte>, ghost before: seq<seq<Block>>)
      requires ValidBut({p}) && c in contexts && |pointer| == 8 && tier <= p.tier < TIERS && needed <= SizeOf(tier)
      requires (forall i :: 0 <= i < tier ==> needed > SizeOf(i)) && (c.data != null ==> c.data.tier < tier)
      requires |slabs| == |before| == TIERS && (forall i :: tier <= i < p.tier ==> before[i] == []) && before[p.tier] != []
      requires p == before[p.tier][0] && forall i :: 0 <= i < TIERS ==> slabs[i].free == if i == p.tier then before[i][1..] else before[i]
      modifies c, slabs, Blocks()
      ensures Valid() && contexts == old(contexts) && c.size == old(c.size)
      ensures Fits(c.data, needed, old(c.data), before, FreeLists()) && c.data == p && needed <= c.capacity == |p.bytes|
      ensures old(c.data) != null ==> SameFront(p.bytes, old(c.data.bytes), c.size)
      ensures forall d :: d in contexts && d != c ==> d.data == old(d.data) && d.Bytes() == old(d.Bytes())
    {
      hide TieredMemoryManager.ValidBut;
      hide SizeOf;
      hide Fits;
      Owns(c, {p});
      SizesGrow(tier, p.tier);
      if c.data != null {
        SizesGrow(c.data.tier, p.tier);
      }
      ghost var b := c.data;
      Move(c, p, pointer);
      FirstFits(p, needed, tier, b, before, FreeLists());
    }

    /** Context::swap */
    method SwapContexts(c: Context, d: Context)
      requires Valid() && c in contexts && d in contexts && c != d
      modifies c, d
      ensures Valid() && contexts == old(contexts)
      ensures c.data == old(d.data) && c.size == old(d.size) && c.capacity == old(d.capacity)
      ensures d.data == old(c.data) && d.size == old(c.size) && d.capacity == old(c.capacity)
    {
      hide SizeOf;
      assert |slabs| == TIERS;
      hide TieredMemoryManager.Slabs;
      hide TieredMemoryManager.Held;
      Trade(c, d);
      forall x | x in Blocks() && Used(x) ensures exists e :: e in contexts && e.data == x {
        var e :| e in contexts && old(e.data) == x;
        assert (if e == c then d else if e == d then c else e).data == x;
      }
    }

    method Trade(c: Context, d: Context)
      requires Slabs() && c in contexts && d in contexts && c != d && forall x :: x in contexts ==> Held(x)
      modifies c, d
      ensures Slabs() && (forall x :: x in contexts ==> Held(x)) && (forall b :: b in Blocks() ==> Used(b) == old(Used(b)))
      ensures c.data == old(d.data) && c.size == old(d.size) && c.capacity == old(d.capacity)
      ensures d.data == old(c.data) && d.size == old(c.size) && d.capacity == old(c.capacity)
    {
      hide SizeOf;
      assert Held(c) && Held(d);
      c.Exchange(d);
    }
  }
}
