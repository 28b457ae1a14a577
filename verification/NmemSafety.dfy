/** What every run of nmem operations keeps, src/nmem.c: live allocations are aligned, apart from each
    other and inside a block of exactly one handle, and all totals and counters are right. */
module NmemSafety {
  import opened Bytes
  import opened Nmem

  datatype Handle = Handle(blocks: seq<Block>, total: nat)

  /** Octets offset..offset+size of a block, requested through a handle or moved to it. */
  datatype Allocation = Allocation(handle: nat, block: nat, offset: nat, size: nat)

  /** All handles ever created, None once destroyed; the counters; and the live allocations, oldest
      first. */
  datatype State = State(
    handles: seq<Option<Handle>>, handleCount: int, blockCount: int, heldBytes: int, nextId: nat,
    live: seq<Allocation>)

  datatype Op = Create | Malloc(h: nat, size: nat) | Transfer(dst: nat, src: nat) | Reset(h: nat) | Destroy(h: nat)

  const START := State([], 0, 0, 0, 0, [])

  predicate Live(hs: seq<Option<Handle>>, h: nat) { h < |hs| && hs[h].Some? }

  /** What the interface asks of a caller: live and distinct handles, and objects that can exist. */
  predicate Legal(s: State, op: Op) {
    match op
    case Create => true
    case Malloc(h, size) => Live(s.handles, h) && size <= PTRDIFF_MAX
    case Transfer(dst, src) => Live(s.handles, dst) && Live(s.handles, src) && dst != src
    case Reset(h) => Live(s.handles, h)
    case Destroy(h) => Live(s.handles, h)
  }

  // ---- steps

  function Without(live: seq<Allocation>, h: nat): seq<Allocation> {
    if live == [] then []
    else
      var n := |live| - 1;
      Without(live[..n], h) + if live[n].handle == h then [] else [live[n]]
  }

  function Moved(live: seq<Allocation>, src: nat, dst: nat): seq<Allocation> {
    if live == [] then []
    else
      var n := |live| - 1;
      Moved(live[..n], src, dst) + [if live[n].handle == src then live[n].(handle := dst) else live[n]]
  }

  function MallocStep(s: State, h: nat, size: nat): State
    requires Live(s.handles, h)
  {
    var old_ := s.handles[h].value;
    match Prepared(old_.blocks, size, s.nextId)
    case None => s
    case Some(blocks) =>
      var added := if Served(old_.blocks, size) then 0 else 1;
      s.(handles := s.handles[h := Some(Handle(Taken(blocks, size), old_.total + size))],
         blockCount := s.blockCount + added,
         heldBytes := s.heldBytes + added * BlockSize(size),
         nextId := s.nextId + added,
         live := s.live + [Allocation(h, blocks[0].id, blocks[0].top, size)])
  }

  function TransferStep(s: State, dst: nat, src: nat): State
    requires Live(s.handles, dst) && Live(s.handles, src) && dst != src
  {
    var d, r := s.handles[dst].value, s.handles[src].value;
    s.(handles := s.handles[dst := Some(Handle(Pushed(r.blocks, d.blocks), d.total + r.total))]
                           [src := Some(Handle([], 0))],
       live := Moved(s.live, src, dst))
  }

  function ReleaseStep(s: State, h: nat, handle: Option<Handle>): State
    requires Live(s.handles, h)
  {
    var blocks := s.handles[h].value.blocks;
    s.(handles := s.handles[h := handle],
       blockCount := s.blockCount - |blocks|,
       heldBytes := s.heldBytes - TotalSize(blocks),
       live := Without(s.live, h))
  }

  function Step(s: State, op: Op): State
    requires Legal(s, op)
  {
    match op
    case Create => s.(handles := s.handles + [Some(Handle([], 0))], handleCount := s.handleCount + 1)
    case Malloc(h, size) => MallocStep(s, h, size)
    case Transfer(dst, src) => TransferStep(s, dst, src)
    case Reset(h) => ReleaseStep(s, h, Some(Handle([], 0)))
    case Destroy(h) =>
      ReleaseStep(s, h, None).(handleCount := s.handleCount - 1)
  }

  /** The states after legal operations. */
  ghost predicate Reaches(s: State, ops: seq<Op>, t: State)
    decreases |ops|
  {
    if ops == [] then t == s else Legal(s, ops[0]) && Reaches(Step(s, ops[0]), ops[1..], t)
  }

  // ---- invariants

  function Ids(blocks: seq<Block>): set<nat> {
    if blocks == [] then {} else {blocks[0].id} + Ids(blocks[1..])
  }

  predicate Distinct(blocks: seq<Block>) {
    blocks == [] || (blocks[0].id !in Ids(blocks[1..]) && Distinct(blocks[1..]))
  }

  /** The top is aligned; it passes the size by less than one alignment unit. */
  predicate BlockOk(b: Block, nextId: nat) {
    && b.id < nextId && 4096 <= b.size <= PTRDIFF_MAX
    && b.top % NMEM_ALIGN == 0 && b.top < b.size + NMEM_ALIGN
  }

  predicate BlocksOk(blocks: seq<Block>, nextId: nat) {
    Distinct(blocks) && forall b <- blocks :: BlockOk(b, nextId)
  }

  function BlocksOf(hs: seq<Option<Handle>>, h: nat): seq<Block> {
    if Live(hs, h) then hs[h].value.blocks else []
  }

  predicate Apart(a: seq<Block>, b: seq<Block>) { Ids(a) !! Ids(b) }

  /** Aligned, inside the block and below its top. */
  predicate Inside(b: Block, a: Allocation) {
    b.id == a.block && a.offset % NMEM_ALIGN == 0 && a.offset + a.size <= b.size && a.offset + a.size <= b.top
  }

  predicate Owns(blocks: seq<Block>, a: Allocation) {
    exists b <- blocks :: Inside(b, a)
  }

  predicate Before(a: Allocation, b: Allocation) {
    a.block == b.block ==> a.offset + a.size <= b.offset
  }

  predicate Ordered(live: seq<Allocation>) {
    live == [] ||
    var n := |live| - 1;
    Ordered(live[..n]) && forall a <- live[..n] :: Before(a, live[n])
  }

  function Requested(live: seq<Allocation>, h: nat): nat {
    if live == [] then 0
    else
      var n := |live| - 1;
      Requested(live[..n], h) + if live[n].handle == h then live[n].size else 0
  }

  function CountHandles(hs: seq<Option<Handle>>): nat {
    if hs == [] then 0 else (if hs[0].Some? then 1 else 0) + CountHandles(hs[1..])
  }

  function CountBlocks(hs: seq<Option<Handle>>): nat {
    if hs == [] then 0 else |BlocksOf(hs, 0)| + CountBlocks(hs[1..])
  }

  function SumSizes(hs: seq<Option<Handle>>): nat {
    if hs == [] then 0 else TotalSize(BlocksOf(hs, 0)) + SumSizes(hs[1..])
  }

  ghost predicate Structure(hs: seq<Option<Handle>>, nextId: nat) {
    && (forall h: nat :: BlocksOk(BlocksOf(hs, h), nextId))
    && (forall g: nat, h: nat :: g != h ==> Apart(BlocksOf(hs, g), BlocksOf(hs, h)))
  }

  ghost predicate Inv(s: State) {
    && Structure(s.handles, s.nextId)
    && (forall a <- s.live :: Owns(BlocksOf(s.handles, a.handle), a))
    && Ordered(s.live)
    && (forall h: nat :: Live(s.handles, h) ==> s.handles[h].value.total == Requested(s.live, h))
    && s.handleCount == CountHandles(s.handles)
    && s.blockCount == CountBlocks(s.handles) && s.heldBytes == SumSizes(s.handles)
  }

  // ---- blocks

  lemma {:induction false} IdMember(blocks: seq<Block>, b: Block)
    requires b in blocks
    ensures b.id in Ids(blocks)
  {
    if b != blocks[0] {
      assert b in blocks[1..];
      IdMember(blocks[1..], b);
    }
  }

  lemma SameBlock(blocks: seq<Block>, b: Block)
    requires b in blocks && Distinct(blocks) && b.id == blocks[0].id
    ensures b == blocks[0]
  {
    if b != blocks[0] {
      assert b in blocks[1..];
      IdMember(blocks[1..], b);
    }
  }

  lemma IdsBelow(blocks: seq<Block>, nextId: nat)
    requires forall b <- blocks :: BlockOk(b, nextId)
    ensures forall id <- Ids(blocks) :: id < nextId
  {
    if blocks != [] {
      assert BlockOk(blocks[0], nextId);
      IdsBelow(blocks[1..], nextId);
    }
  }

  lemma AlignedBounds(size: nat)
    requires size <= PTRDIFF_MAX
    ensures Aligned(size) % NMEM_ALIGN == 0 && size <= Aligned(size) < size + NMEM_ALIGN
  {
  }

  /** A request served from a block stays inside it, although the top may pass the end. */
  lemma RequestInside(b: Block, size: nat, nextId: nat)
    requires BlockOk(b, nextId) && size <= PTRDIFF_MAX && Wrap(size + b.top) <= b.size
    ensures b.top + size <= b.size
    ensures var taken := b.(top := Wrap(b.top + Aligned(size)));
            BlockOk(taken, nextId) && b.top + size <= taken.top
  {
    hide Aligned, Wrap;
    AlignedBounds(size);
    NoWrap(size + b.top);
    NoWrap(b.top + Aligned(size));
    AlignedSum(b.top, Aligned(size));
  }

  lemma NoWrap(n: nat)
    requires n < SIZE_LIMIT
    ensures Wrap(n) == n
  {
  }

  lemma AlignedSum(x: nat, y: nat)
    requires x % NMEM_ALIGN == 0 && y % NMEM_ALIGN == 0
    ensures (x + y) % NMEM_ALIGN == 0
  {
    var a, b := x / NMEM_ALIGN, y / NMEM_ALIGN;
    assert x == a * NMEM_ALIGN && y == b * NMEM_ALIGN;
    assert x + y == (a + b) * NMEM_ALIGN;
  }

  lemma {:induction false} PushedFacts(src: seq<Block>, dst: seq<Block>, nextId: nat)
    requires BlocksOk(src, nextId) && BlocksOk(dst, nextId) && Apart(src, dst)
    ensures BlocksOk(Pushed(src, dst), nextId) && Ids(Pushed(src, dst)) == Ids(src) + Ids(dst)
    ensures forall b :: b in Pushed(src, dst) <==> b in src || b in dst
    ensures |Pushed(src, dst)| == |src| + |dst|
    ensures TotalSize(Pushed(src, dst)) == TotalSize(src) + TotalSize(dst)
    decreases |src|
  {
    if src != [] {
      var more := [src[0]] + dst;
      assert more[1..] == dst;
      PushedFacts(src[1..], more, nextId);
    }
  }

  // ---- sums over handles

  lemma {:induction false} SumUpdate(hs: seq<Option<Handle>>, h: nat, x: Option<Handle>)
    requires h < |hs|
    ensures var new_ := hs[h := x];
            && CountHandles(new_) + (if hs[h].Some? then 1 else 0) == CountHandles(hs) + (if x.Some? then 1 else 0)
            && CountBlocks(new_) + |BlocksOf(hs, h)| == CountBlocks(hs) + |BlocksOf([x], 0)|
            && SumSizes(new_) + TotalSize(BlocksOf(hs, h)) == SumSizes(hs) + TotalSize(BlocksOf([x], 0))
  {
    var new_ := hs[h := x];
    if h == 0 {
      assert new_[1..] == hs[1..];
    } else {
      SumUpdate(hs[1..], h - 1, x);
      assert new_[0] == hs[0] && new_[1..] == hs[1..][h - 1 := x];
      assert BlocksOf(hs, h) == BlocksOf(hs[1..], h - 1) && BlocksOf(hs, 0) == BlocksOf(new_, 0);
    }
  }

  lemma {:induction false} SumSnoc(hs: seq<Option<Handle>>)
    ensures var new_ := hs + [Some(Handle([], 0))];
            CountHandles(new_) == CountHandles(hs) + 1 && CountBlocks(new_) == CountBlocks(hs) &&
            SumSizes(new_) == SumSizes(hs)
  {
    var new_ := hs + [Some(Handle([], 0))];
    if hs != [] {
      SumSnoc(hs[1..]);
      assert new_[1..] == hs[1..] + [Some(Handle([], 0))];
    }
  }

  // ---- sums over allocations

  lemma OrderedSnoc(live: seq<Allocation>, a: Allocation)
    ensures Ordered(live + [a]) <==> Ordered(live) && forall b <- live :: Before(b, a)
  {
    assert (live + [a])[..|live|] == live;
  }

  lemma RequestedSnoc(live: seq<Allocation>, a: Allocation)
    ensures forall h: nat :: Requested(live + [a], h) == Requested(live, h) + if a.handle == h then a.size else 0
  {
    assert (live + [a])[..|live|] == live;
  }

  lemma {:induction false} WithoutMembers(live: seq<Allocation>, h: nat)
    ensures forall a :: a in Without(live, h) <==> a in live && a.handle != h
  {
    if live != [] {
      WithoutMembers(live[..|live| - 1], h);
      assert live == live[..|live| - 1] + [live[|live| - 1]];
    }
  }

  lemma {:induction false} WithoutFacts(live: seq<Allocation>, h: nat)
    ensures Ordered(live) ==> Ordered(Without(live, h))
    ensures Requested(Without(live, h), h) == 0
    ensures forall g: nat :: g != h ==> Requested(Without(live, h), g) == Requested(live, g)
  {
    hide Ordered, Requested, Before;
    if live == [] {
      NothingLive();
    } else {
      var n := |live| - 1;
      var rest := Without(live[..n], h);
      WithoutFacts(live[..n], h);
      WithoutMembers(live[..n], h);
      assert live == live[..n] + [live[n]];
      OrderedSnoc(live[..n], live[n]);
      RequestedSnoc(live[..n], live[n]);
      if live[n].handle == h {
        assert Without(live, h) == rest;
      } else {
        OrderedSnoc(rest, live[n]);
        RequestedSnoc(rest, live[n]);
      }
    }
  }

  lemma NothingLive()
    ensures Ordered([]) && forall h: nat :: Requested([], h) == 0
  {
  }

  lemma {:induction false} MovedMembers(live: seq<Allocation>, src: nat, dst: nat)
    requires src != dst
    ensures forall a <- Moved(live, src, dst) ::
              a.handle != src && (a in live || (a.handle == dst && a.(handle := src) in live))
  {
    if live != [] {
      MovedMembers(live[..|live| - 1], src, dst);
      assert live == live[..|live| - 1] + [live[|live| - 1]];
    }
  }

  lemma {:induction false} MovedFacts(live: seq<Allocation>, src: nat, dst: nat)
    requires src != dst
    ensures Ordered(live) ==> Ordered(Moved(live, src, dst))
    ensures Requested(Moved(live, src, dst), src) == 0
    ensures Requested(Moved(live, src, dst), dst) == Requested(live, dst) + Requested(live, src)
    ensures forall g: nat :: g != src && g != dst ==> Requested(Moved(live, src, dst), g) == Requested(live, g)
  {
    hide Ordered, Requested;
    if live == [] {
      NothingLive();
    } else {
      var n := |live| - 1;
      var rest := Moved(live[..n], src, dst);
      var last := if live[n].handle == src then live[n].(handle := dst) else live[n];
      MovedFacts(live[..n], src, dst);
      MovedMembers(live[..n], src, dst);
      assert live == live[..n] + [live[n]];
      OrderedSnoc(live[..n], live[n]);
      RequestedSnoc(live[..n], live[n]);
      OrderedSnoc(rest, last);
      RequestedSnoc(rest, last);
      assert forall a :: Before(a, last) == Before(a, live[n]);
      assert forall a :: Before(a, last) == Before(a.(handle := src), last);
    }
  }

  // ---- every operation keeps the invariant

  /** A handle without allocations has none requested. */
  lemma {:induction false} NoneRequested(live: seq<Allocation>, h: nat)
    requires forall a <- live :: a.handle != h
    ensures Requested(live, h) == 0
  {
    if live != [] {
      NoneRequested(live[..|live| - 1], h);
    }
  }

  lemma CreateKeeps(s: State)
    requires Inv(s)
    ensures Inv(Step(s, Create))
  {
    hide Ordered, Requested, Owns, CountHandles, CountBlocks, SumSizes, Structure;
    SumSnoc(s.handles);
    StructureSnoc(s.handles, s.nextId);
    forall a <- s.live ensures a.handle != |s.handles| {
      OwnsNothing(a);
    }
    NoneRequested(s.live, |s.handles|);
  }

  lemma StructureSnoc(hs: seq<Option<Handle>>, nextId: nat)
    requires Structure(hs, nextId)
    ensures Structure(hs + [Some(Handle([], 0))], nextId) && BlocksOf(hs, |hs|) == []
    ensures forall h: nat :: BlocksOf(hs + [Some(Handle([], 0))], h) == BlocksOf(hs, h)
  {
    hide BlocksOk, Apart;
    assert forall h: nat :: BlocksOf(hs + [Some(Handle([], 0))], h) == BlocksOf(hs, h);
  }

  lemma OwnsNothing(a: Allocation)
    ensures !Owns([], a)
  {
  }

  /** The structure is kept when one handle's blocks change to blocks that stay apart from the others. */
  lemma StructureUpdate(hs: seq<Option<Handle>>, h: nat, x: Option<Handle>, nextId: nat, newId: nat)
    requires h < |hs| && Structure(hs, nextId) && nextId <= newId
    requires BlocksOk(BlocksOf([x], 0), newId)
    requires forall g: nat :: g != h ==> Apart(BlocksOf([x], 0), BlocksOf(hs, g))
    ensures Structure(hs[h := x], newId)
  {
    hide Distinct, Ids;
    var new_ := hs[h := x];
    assert forall g: nat :: BlocksOf(new_, g) == if g == h then BlocksOf([x], 0) else BlocksOf(hs, g);
  }

  lemma ReleaseKeeps(s: State, h: nat, x: Option<Handle>)
    requires Inv(s) && Live(s.handles, h) && (x.Some? ==> x.value == Handle([], 0))
    ensures Inv(ReleaseStep(s, h, x).(handleCount := s.handleCount - if x.Some? then 0 else 1))
  {
    hide Ordered, Requested, Owns, CountHandles, CountBlocks, SumSizes, Structure;
    var t := ReleaseStep(s, h, x);
    SumUpdate(s.handles, h, x);
    assert BlocksOf([x], 0) == [];
    StructureUpdate(s.handles, h, x, s.nextId, s.nextId);
    WithoutMembers(s.live, h);
    WithoutFacts(s.live, h);
    assert forall g: nat :: g != h ==> BlocksOf(t.handles, g) == BlocksOf(s.handles, g);
  }

  lemma OwnsMore(a: seq<Block>, b: seq<Block>, x: Allocation)
    requires Owns(a, x) && forall k <- a :: k in b
    ensures Owns(b, x)
  {
  }

  /** Ownership does not depend on the handle an allocation is recorded under. */
  lemma OwnsMoved(blocks: seq<Block>, a: Allocation, h: nat)
    ensures Owns(blocks, a.(handle := h)) <==> Owns(blocks, a)
  {
    assert forall b :: Inside(b, a.(handle := h)) <==> Inside(b, a);
  }

  lemma TransferKeeps(s: State, dst: nat, src: nat)
    requires Inv(s) && Live(s.handles, dst) && Live(s.handles, src) && dst != src
    ensures Inv(TransferStep(s, dst, src))
  {
    hide Ordered, Requested, Owns, CountHandles, CountBlocks, SumSizes, BlocksOk, Ids, Pushed, TotalSize, Moved;
    var t := TransferStep(s, dst, src);
    var d, r := s.handles[dst].value, s.handles[src].value;
    assert BlocksOf(s.handles, dst) == d.blocks && BlocksOf(s.handles, src) == r.blocks;
    PushedFacts(r.blocks, d.blocks, s.nextId);
    var emptied := s.handles[src := Some(Handle([], 0))];
    var joined := Some(Handle(Pushed(r.blocks, d.blocks), d.total + r.total));
    assert t.handles == emptied[dst := joined];
    SumUpdate(s.handles, src, Some(Handle([], 0)));
    SumUpdate(emptied, dst, joined);
    assert forall g: nat :: BlocksOf(emptied, g) == if g == src then [] else BlocksOf(s.handles, g);
    NoBlocksOk(s.nextId);
    assert BlocksOf([Some(Handle([], 0))], 0) == [] && BlocksOf([joined], 0) == joined.value.blocks;
    StructureUpdate(s.handles, src, Some(Handle([], 0)), s.nextId, s.nextId);
    StructureUpdate(emptied, dst, joined, s.nextId, s.nextId);
    MovedMembers(s.live, src, dst);
    MovedFacts(s.live, src, dst);
    forall a <- t.live ensures Owns(BlocksOf(t.handles, a.handle), a) {
      OwnsMoved(r.blocks, a, src);
      if a.handle == dst {
        if a in s.live {
          OwnsMore(d.blocks, joined.value.blocks, a);
        } else {
          OwnsMore(r.blocks, joined.value.blocks, a);
        }
      }
    }
  }

  lemma NoBlocksOk(nextId: nat)
    ensures BlocksOk([], nextId) && Ids([]) == {} && TotalSize([]) == 0
  {
  }

  /** Where a new block is needed it is put in front; either way the first block takes the request. */
  lemma PreparedOk(blocks: seq<Block>, size: nat, nextId: nat)
    requires BlocksOk(blocks, nextId) && size <= PTRDIFF_MAX
    ensures var p := Prepared(blocks, size, nextId);
            && p.Some? && Wrap(size + p.value[0].top) <= p.value[0].size
            && (Served(blocks, size) ==> p.value == blocks)
            && (!Served(blocks, size) ==>
                  p.value == [Block(nextId, BlockSize(size), 0)] + blocks && BlocksOk(p.value, nextId + 1) &&
                  Ids(p.value) == {nextId} + Ids(blocks))
  {
    IdsBelow(blocks, nextId);
    if !Served(blocks, size) {
      var p := [Block(nextId, BlockSize(size), 0)] + blocks;
      assert p[1..] == blocks;
    }
  }

  lemma TakenOk(p: seq<Block>, size: nat, nextId: nat, a: Allocation)
    requires p != [] && BlocksOk(p, nextId) && size <= PTRDIFF_MAX && Wrap(size + p[0].top) <= p[0].size
    requires a.block == p[0].id && a.offset == p[0].top && a.size == size
    ensures var t := Taken(p, size);
            && BlocksOk(t, nextId) && Ids(t) == Ids(p) && Owns(t, a)
            && TotalSize(t) == TotalSize(p) && |t| == |p|
            && (forall b :: Owns(p, b) ==> Owns(t, b))
  {
    hide Aligned, Wrap, Owns;
    var t := Taken(p, size);
    RequestInside(p[0], size, nextId);
    assert t[1..] == p[1..] && p == [p[0]] + p[1..];
    assert BlocksOk(t, nextId) by {
      assert forall b <- t :: b == t[0] || b in p;
    }
    assert Owns(t, a) by { OwnsIn(t, t[0], a); }
    forall b | Owns(p, b) ensures Owns(t, b) {
      var k := Owner(p, b);
      if k != p[0] {
        OwnsIn(t, k, b);
      } else {
        OwnsIn(t, t[0], b);
      }
    }
  }

  lemma OwnsIn(blocks: seq<Block>, b: Block, a: Allocation)
    requires b in blocks && Inside(b, a)
    ensures Owns(blocks, a)
  {
  }

  /** The block an allocation is inside. */
  lemma Owner(blocks: seq<Block>, a: Allocation) returns (b: Block)
    requires Owns(blocks, a)
    ensures b in blocks && Inside(b, a)
  {
    b :| b in blocks && Inside(b, a);
  }

  /** New octets lie behind all live allocations of their block. */
  lemma NewestLast(s: State, h: nat, p: seq<Block>, nextId: nat, a: Allocation, new_: Allocation)
    requires p != [] && BlocksOk(p, nextId) && new_.block == p[0].id && new_.offset == p[0].top
    requires Owns(BlocksOf(s.handles, a.handle), a)
    requires a.handle == h ==> Owns(p, a)
    requires a.handle != h ==> Apart(p, BlocksOf(s.handles, a.handle))
    ensures Before(a, new_)
  {
    if a.handle == h {
      var b := Owner(p, a);
      if a.block == new_.block {
        SameBlock(p, b);
      }
    } else {
      var b := Owner(BlocksOf(s.handles, a.handle), a);
      IdMember(BlocksOf(s.handles, a.handle), b);
      IdMember(p, p[0]);
    }
  }

  lemma MallocKeeps(s: State, h: nat, size: nat)
    requires Inv(s) && Live(s.handles, h) && size <= PTRDIFF_MAX
    ensures Inv(MallocStep(s, h, size)) && |MallocStep(s, h, size).live| == |s.live| + 1
  {
    hide Ordered, Requested, Owns, CountHandles, CountBlocks, SumSizes, BlocksOk, Taken, Served, BlockSize, Wrap, Ids;
    var t := MallocStep(s, h, size);
    var blocks := BlocksOf(s.handles, h);
    PreparedOk(blocks, size, s.nextId);
    var p := Prepared(blocks, size, s.nextId).value;
    var new_ := Allocation(h, p[0].id, p[0].top, size);
    var x := Some(Handle(Taken(p, size), s.handles[h].value.total + size));
    assert t.handles == s.handles[h := x];
    assert BlocksOf([x], 0) == Taken(p, size);
    assert BlocksOk(p, t.nextId) && |p| == |blocks| + (t.nextId - s.nextId);
    TakenOk(p, size, t.nextId, new_);
    SumUpdate(s.handles, h, x);
    forall g: nat | g != h ensures Apart(p, BlocksOf(s.handles, g)) && Apart(Taken(p, size), BlocksOf(s.handles, g)) {
      assert BlocksOk(BlocksOf(s.handles, g), s.nextId);
      StillApart(blocks, p, BlocksOf(s.handles, g), s.nextId);
    }
    StructureUpdate(s.handles, h, x, s.nextId, t.nextId);
    assert forall g: nat :: g != h ==> BlocksOf(t.handles, g) == BlocksOf(s.handles, g);
    forall a <- s.live ensures Before(a, new_) && Owns(BlocksOf(t.handles, a.handle), a) {
      if a.handle == h {
        OwnsMore(blocks, p, a);
      }
      NewestLast(s, h, p, t.nextId, a, new_);
    }
    OrderedSnoc(s.live, new_);
    RequestedSnoc(s.live, new_);
    assert TotalSize(p) == TotalSize(blocks) + (t.heldBytes - s.heldBytes);
  }

  lemma StillApart(blocks: seq<Block>, p: seq<Block>, others: seq<Block>, nextId: nat)
    requires Apart(blocks, others) && BlocksOk(others, nextId)
    requires Ids(p) == Ids(blocks) || Ids(p) == {nextId} + Ids(blocks)
    ensures Apart(p, others)
  {
    IdsBelow(others, nextId);
  }

  lemma StepKeeps(s: State, op: Op)
    requires Inv(s) && Legal(s, op)
    ensures Inv(Step(s, op))
  {
    hide Inv;
    match op
    case Create => CreateKeeps(s);
    case Malloc(h, size) => MallocKeeps(s, h, size);
    case Transfer(dst, src) => TransferKeeps(s, dst, src);
    case Reset(h) => ReleaseKeeps(s, h, Some(Handle([], 0)));
    case Destroy(h) => ReleaseKeeps(s, h, None);
  }

  // ---- whole runs

  lemma {:induction false} RunKeeps(s: State, ops: seq<Op>, t: State)
    requires Inv(s) && Reaches(s, ops, t)
    ensures Inv(t)
    decreases |ops|
  {
    hide Inv, Step;
    if ops != [] {
      StepKeeps(s, ops[0]);
      RunKeeps(Step(s, ops[0]), ops[1..], t);
    }
  }

  /** Octets of two allocations do not overlap. */
  predicate Disjoint(a: Allocation, b: Allocation) {
    a.block != b.block || a.offset + a.size <= b.offset || b.offset + b.size <= a.offset
  }

  /** Aligned, inside a block of its handle, and that block belongs to no other handle. */
  ghost predicate SafelyOwned(hs: seq<Option<Handle>>, a: Allocation) {
    && a.offset % NMEM_ALIGN == 0
    && (exists b <- BlocksOf(hs, a.handle) :: b.id == a.block && a.offset + a.size <= b.size)
    && (forall g: nat :: g != a.handle ==> a.block !in Ids(BlocksOf(hs, g)))
  }

  /** Every run of legal operations from the start: each live allocation is aligned and inside a block
      of its handle and of no other handle, any two live allocations are disjoint, each handle's total
      is the sum of its live requests, the counters are sums over what is live, and no block has fewer than
      4096 octets. */
  lemma RunSafe(ops: seq<Op>, t: State)
    requires Reaches(START, ops, t)
    ensures forall k :: 0 <= k < |t.live| ==> SafelyOwned(t.handles, t.live[k])
    ensures forall i, j :: 0 <= i < j < |t.live| ==> Disjoint(t.live[i], t.live[j])
    ensures forall h: nat :: Live(t.handles, h) ==> t.handles[h].value.total == Requested(t.live, h)
    ensures t.handleCount == CountHandles(t.handles) && t.blockCount == CountBlocks(t.handles)
    ensures t.heldBytes == SumSizes(t.handles)
    ensures forall h: nat :: forall b <- BlocksOf(t.handles, h) :: 4096 <= b.size <= PTRDIFF_MAX
  {
    hide Reaches, CountHandles, CountBlocks, SumSizes;
    StartInv();
    RunKeeps(START, ops, t);
    forall k | 0 <= k < |t.live| ensures SafelyOwned(t.handles, t.live[k]) {
      SingleOwner(t, t.live[k]);
    }
    forall i, j | 0 <= i < j < |t.live| ensures Disjoint(t.live[i], t.live[j]) {
      OrderedPair(t.live, i, j);
    }
    forall h: nat, b <- BlocksOf(t.handles, h) ensures 4096 <= b.size <= PTRDIFF_MAX {
      assert BlocksOk(BlocksOf(t.handles, h), t.nextId);
    }
  }

  /** In every state that is reached, a request takes a new block if and only if it does not fit into what is
      left of the first one, and then the octets are the first of that block. */
  lemma NewBlockExactly(ops: seq<Op>, t: State, h: nat, size: nat)
    requires Reaches(START, ops, t) && Legal(t, Malloc(h, size))
    ensures var blocks, u := BlocksOf(t.handles, h), Step(t, Malloc(h, size));
            var fits := blocks != [] && blocks[0].top + size <= blocks[0].size;
            && u.blockCount == t.blockCount + (if fits then 0 else 1)
            && u.live == t.live + [if fits then Allocation(h, blocks[0].id, blocks[0].top, size)
                                   else Allocation(h, t.nextId, 0, size)]
  {
    hide Reaches, Inv, Structure;
    StartInv();
    RunKeeps(START, ops, t);
    FirstBlockOk(t, h);
    var blocks := BlocksOf(t.handles, h);
    if blocks != [] { NoWrap(size + blocks[0].top); }
  }

  lemma FirstBlockOk(t: State, h: nat)
    requires Inv(t)
    ensures var blocks := BlocksOf(t.handles, h); blocks != [] ==> BlockOk(blocks[0], t.nextId)
  {
    hide Ordered, Requested, CountHandles, CountBlocks, SumSizes;
    assert BlocksOk(BlocksOf(t.handles, h), t.nextId);
  }

  /** A transfer moves the blocks in reverse order in front of those that are there, so the next request is
      served from the block that came last. */
  lemma {:induction false} TransferredAt(src: seq<Block>, dst: seq<Block>, k: nat)
    requires k < |src| + |dst|
    ensures |Pushed(src, dst)| == |src| + |dst|
    ensures Pushed(src, dst)[k] == if k < |src| then src[|src| - 1 - k] else dst[k - |src|]
    decreases |src|
  {
    if src != [] {
      TransferredAt(src[1..], [src[0]] + dst, k);
    }
  }

  lemma StartInv()
    ensures Inv(START)
  {
    assert forall h: nat :: BlocksOf(START.handles, h) == [];
  }

  lemma SingleOwner(t: State, a: Allocation)
    requires Structure(t.handles, t.nextId) && Owns(BlocksOf(t.handles, a.handle), a)
    ensures SafelyOwned(t.handles, a)
  {
    hide Owns;
    var b := Owner(BlocksOf(t.handles, a.handle), a);
    IdMember(BlocksOf(t.handles, a.handle), b);
  }

  lemma {:induction false} OrderedPair(live: seq<Allocation>, i: nat, j: nat)
    requires Ordered(live) && i < j < |live|
    ensures Before(live[i], live[j])
  {
    var n := |live| - 1;
    if j < n {
      OrderedPair(live[..n], i, j);
    } else {
      assert live[i] in live[..n];
    }
  }

  /** Once every handle is destroyed, nothing is left. */
  lemma NothingLeaks(ops: seq<Op>, t: State)
    requires Reaches(START, ops, t) && forall h :: 0 <= h < |t.handles| ==> t.handles[h].None?
    ensures t.handleCount == 0 && t.blockCount == 0 && t.heldBytes == 0 && t.live == []
  {
    hide Reaches;
    RunSafe(ops, t);
    NoHandles(t.handles);
    if |t.live| > 0 {
      SomeHandleLives(t);
    }
  }

  lemma SomeHandleLives(t: State)
    requires |t.live| > 0 && SafelyOwned(t.handles, t.live[0])
    ensures exists h :: 0 <= h < |t.handles| && t.handles[h].Some?
  {
    assert Live(t.handles, t.live[0].handle);
  }

  lemma {:induction false} NoHandles(hs: seq<Option<Handle>>)
    requires forall h :: 0 <= h < |hs| ==> hs[h].None?
    ensures CountHandles(hs) == 0 && CountBlocks(hs) == 0 && SumSizes(hs) == 0
  {
    if hs != [] {
      NoHandles(hs[1..]);
    }
  }

  // ---- requests that no object can have

  /** A request of any size_t value that the first block takes lies inside it exactly if the size and
      the top do not wrap around. */
  lemma InsideExactly(b: Block, size: nat, nextId: nat)
    requires BlockOk(b, nextId) && size < SIZE_LIMIT && Served([b], size)
    ensures b.top + size <= b.size <==> size + b.top < SIZE_LIMIT
  {
  }

  /** The largest requests wrap around and are served although they do not fit. */
  lemma HugeRequestServed()
    ensures exists b: Block, size: nat ::
              BlockOk(b, 1) && size < SIZE_LIMIT && Served([b], size) && b.top + size > b.size
  {
    var b, size := Block(0, NMEM_CHUNK, 16), SIZE_LIMIT - 8;
    assert BlockOk(b, 1) && Wrap(size + b.top) == 8 && Served([b], size);
  }
}
