/** The operations of the allocator as they run on its objects, src/nmem.c: every call is the step of the
    same name, so whole runs of calls have the properties of whole runs of steps. */
module NmemRuns {
  import opened Bytes
  import opened Nmem
  import opened NmemSafety

  /** The counters and the live handles hold what the state says; no object is two handles. */
  ghost predicate Represents(a: Allocator, cs: seq<Control>, s: State)
    reads a, set c | c in cs
  {
    && |cs| == |s.handles|
    && a.handles == s.handleCount && a.blockCount == s.blockCount && a.heldBytes == s.heldBytes && a.nextId == s.nextId
    && (forall h :: 0 <= h < |cs| && s.handles[h].Some? ==>
          cs[h].blocks == s.handles[h].value.blocks && cs[h].total == s.handles[h].value.total)
    && (forall g, h :: 0 <= g < h < |cs| ==> cs[g] != cs[h])
  }

  /** No handle holds more blocks or octets than all of them together, and there is at least one. */
  lemma {:induction false} PartOfAll(hs: seq<Option<Handle>>, h: nat)
    requires Live(hs, h)
    ensures CountHandles(hs) >= 1 && CountBlocks(hs) >= |hs[h].value.blocks|
    ensures SumSizes(hs) >= TotalSize(hs[h].value.blocks)
  {
    if h > 0 {
      PartOfAll(hs[1..], h - 1);
    }
  }

  method CallCreate(a: Allocator, cs: seq<Control>, ghost s: State) returns (cs': seq<Control>)
    requires Represents(a, cs, s)
    modifies a
    ensures |cs'| == |cs| + 1 && cs' == cs + [cs'[|cs|]] && fresh(cs'[|cs|])
    ensures Represents(a, cs', Step(s, Create))
  {
    var n := a.Create();
    cs' := cs + [n];
  }

  /** The octets returned are those of the newest allocation. */
  method CallMalloc(a: Allocator, cs: seq<Control>, ghost s: State, h: nat, size: nat) returns (r: Option<(nat, nat)>)
    requires Represents(a, cs, s) && Inv(s) && Legal(s, Malloc(h, size))
    modifies a, set c | c in cs
    ensures Represents(a, cs, Step(s, Malloc(h, size)))
    ensures var live := Step(s, Malloc(h, size)).live;
            |live| == |s.live| + 1 && r == Some((live[|s.live|].block, live[|s.live|].offset))
  {
    hide Inv, Taken, BlockSize;
    MallocKeeps(s, h, size);
    AlwaysPrepared(s.handles[h].value.blocks, size, s.nextId);
    r := a.Malloc(cs[h], size);
  }

  lemma AlwaysPrepared(blocks: seq<Block>, size: nat, id: nat)
    requires size <= PTRDIFF_MAX
    ensures Prepared(blocks, size, id).Some?
  {
  }

  method CallTransfer(a: Allocator, cs: seq<Control>, ghost s: State, dst: nat, src: nat)
    requires Represents(a, cs, s) && Legal(s, Transfer(dst, src))
    modifies set c | c in cs
    ensures Represents(a, cs, Step(s, Transfer(dst, src)))
  {
    hide Pushed;
    assert cs[dst] != cs[src];
    Nmem.Transfer(cs[dst], cs[src]);
  }

  method CallReset(a: Allocator, cs: seq<Control>, ghost s: State, h: nat)
    requires Represents(a, cs, s) && Inv(s) && Legal(s, Reset(h))
    modifies a, set c | c in cs
    ensures Represents(a, cs, Step(s, Reset(h)))
  {
    PartOfAll(s.handles, h);
    a.Reset(cs[h]);
  }

  method CallDestroy(a: Allocator, cs: seq<Control>, ghost s: State, h: nat)
    requires Represents(a, cs, s) && Inv(s) && Legal(s, Destroy(h))
    modifies a, set c | c in cs
    ensures Represents(a, cs, Step(s, Destroy(h)))
  {
    PartOfAll(s.handles, h);
    a.Destroy(cs[h]);
  }

  /** Legal operations one after the other. */
  ghost predicate LegalRun(s: State, ops: seq<Op>)
    decreases |ops|
  {
    ops == [] || (Legal(s, ops[0]) && LegalRun(Step(s, ops[0]), ops[1..]))
  }

  lemma {:induction false} ReachesSnoc(s: State, ops: seq<Op>, t: State, op: Op)
    requires Reaches(s, ops, t) && Legal(t, op)
    ensures Reaches(s, ops + [op], Step(t, op))
    decreases |ops|
  {
    hide Step;
    if ops == [] {
      assert [] + [op] == [op] && [op][1..] == [];
    } else {
      assert (ops + [op])[1..] == ops[1..] + [op];
      ReachesSnoc(Step(s, ops[0]), ops[1..], t, op);
    }
  }

  /** Every run of legal calls on fresh objects: the objects represent a state that the steps reach, so
      that RunSafe holds of it. */
  method Run(ops: seq<Op>) returns (a: Allocator, cs: seq<Control>, ghost t: State)
    requires LegalRun(START, ops)
    ensures Represents(a, cs, t) && Reaches(START, ops, t) && Inv(t)
  {
    hide Inv, Step, Legal;
    a := new Allocator();
    cs, t := [], START;
    StartInv();
    var k := 0;
    assert ops[..0] == [] && ops[0..] == ops;
    while k < |ops|
      invariant k <= |ops| && fresh(a) && fresh(set c | c in cs)
      invariant Represents(a, cs, t) && Inv(t) && Reaches(START, ops[..k], t) && LegalRun(t, ops[k..])
    {
      assert ops[k..][0] == ops[k] && ops[k..][1..] == ops[k + 1..] && ops[..k] + [ops[k]] == ops[..k + 1];
      ReachesSnoc(START, ops[..k], t, ops[k]);
      StepKeeps(t, ops[k]);
      cs := Call(a, cs, t, ops[k]);
      t := Step(t, ops[k]);
      k := k + 1;
    }
    assert ops[..k] == ops;
  }

  method Call(a: Allocator, cs: seq<Control>, ghost s: State, op: Op) returns (cs': seq<Control>)
    requires Represents(a, cs, s) && Inv(s) && Legal(s, op)
    modifies a, set c | c in cs
    ensures Represents(a, cs', Step(s, op)) && fresh((set c | c in cs') - (set c | c in cs))
  {
    hide Inv, Step;
    cs' := cs;
    match op
    case Create => cs' := CallCreate(a, cs, s);
    case Malloc(h, size) => var r := CallMalloc(a, cs, s, h, size);
    case Transfer(dst, src) => CallTransfer(a, cs, s, dst, src);
    case Reset(h) => CallReset(a, cs, s, h);
    case Destroy(h) => CallDestroy(a, cs, s, h);
  }
}
