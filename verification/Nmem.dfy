/** Nibble memory, src/nmem.c: handles that own lists of blocks, requests served from the first block.
    Addresses are a block number and an offset; block numbers are handed out in order, so that xmalloc
    never returns a block twice. */
module Nmem {
  import opened Bytes

  const NMEM_CHUNK := 4096
  const NMEM_ALIGN := 8
  const SIZE_LIMIT := 0x1_0000_0000_0000_0000

  /** The largest object xmalloc can return; it ends the program instead of failing. */
  const PTRDIFF_MAX := 0x7fff_ffff_ffff_ffff

  datatype Block = Block(id: nat, size: nat, top: nat)

  // ---- requests

  /** Sum of sizes as size_t computes it. */
  function Wrap(n: nat): nat { n % SIZE_LIMIT }

  /** The requested size with its low bits rounded up and masked off. */
  function Aligned(size: nat): nat {
    var n := Wrap(size + NMEM_ALIGN - 1);
    n - n % NMEM_ALIGN
  }

  /** The first block takes the request. */
  predicate Served(blocks: seq<Block>, size: nat) {
    blocks != [] && Wrap(size + blocks[0].top) <= blocks[0].size
  }

  /** The size of a new block. */
  function BlockSize(size: nat): nat {
    if NMEM_CHUNK < size then size else NMEM_CHUNK
  }

  /** The block list a request is served from: with a new block `id` in front where one is needed; None
      if no such block can be had. */
  function Prepared(blocks: seq<Block>, size: nat, id: nat): (r: Option<seq<Block>>)
    ensures r.Some? ==> r.value != []
  {
    if Served(blocks, size) then Some(blocks)
    else if BlockSize(size) > PTRDIFF_MAX then None
    else Some([Block(id, BlockSize(size), 0)] + blocks)
  }

  /** The block list once `size` octets are taken from the first block. */
  function Taken(blocks: seq<Block>, size: nat): seq<Block>
    requires blocks != []
  {
    [blocks[0].(top := Wrap(blocks[0].top + Aligned(size)))] + blocks[1..]
  }

  /** nmem_transfer: the blocks of `src` are pushed on `dst` one by one. */
  function Pushed(src: seq<Block>, dst: seq<Block>): seq<Block> {
    if src == [] then dst else Pushed(src[1..], [src[0]] + dst)
  }

  function TotalSize(blocks: seq<Block>): nat {
    if blocks == [] then 0 else blocks[0].size + TotalSize(blocks[1..])
  }

  // ---- the allocator

  /** One handle. */
  class Control {
    var blocks: seq<Block>
    var total: nat

    constructor ()
      ensures blocks == [] && total == 0
    {
      blocks, total := [], 0;
    }
  }

  /** The module's static counters and the operations. */
  class Allocator {
    var handles: nat
    var blockCount: nat
    var heldBytes: nat
    var nextId: nat

    constructor ()
      ensures handles == blockCount == heldBytes == nextId == 0
    {
      handles, blockCount, heldBytes, nextId := 0, 0, 0, 0;
    }

    /** get_block. */
    method GetBlock(size: nat) returns (b: Option<Block>)
      modifies this
      ensures handles == old(handles)
      ensures BlockSize(size) > PTRDIFF_MAX ==> b.None? && unchanged(this)
      ensures BlockSize(size) <= PTRDIFF_MAX ==>
                b == Some(Block(old(nextId), BlockSize(size), 0)) && nextId == old(nextId) + 1 &&
                blockCount == old(blockCount) + 1 && heldBytes == old(heldBytes) + BlockSize(size)
    {
      var get := NMEM_CHUNK;
      if get < size {
        get := size;
      }
      if get > PTRDIFF_MAX {
        return None;
      }
      b := Some(Block(nextId, get, 0));
      nextId := nextId + 1;
      blockCount := blockCount + 1;
      heldBytes := heldBytes + get;
    }

    /** free_block. */
    method FreeBlock(b: Block)
      requires blockCount >= 1 && heldBytes >= b.size
      modifies this
      ensures handles == old(handles) && nextId == old(nextId)
      ensures blockCount == old(blockCount) - 1 && heldBytes == old(heldBytes) - b.size
    {
      blockCount := blockCount - 1;
      heldBytes := heldBytes - b.size;
    }

    /** nmem_malloc: the block and the offset of the octets returned. */
    method Malloc(n: Control, size: nat) returns (r: Option<(nat, nat)>)
      modifies this, n
      ensures handles == old(handles)
      ensures var prepared := Prepared(old(n.blocks), size, old(nextId));
              if prepared.None? then r.None? && unchanged(this) && unchanged(n)
              else
                && r == Some((prepared.value[0].id, prepared.value[0].top))
                && n.blocks == Taken(prepared.value, size) && n.total == old(n.total) + size
                && (Served(old(n.blocks), size) ==> unchanged(this))
                && (!Served(old(n.blocks), size) ==>
                      nextId == old(nextId) + 1 && blockCount == old(blockCount) + 1 &&
                      heldBytes == old(heldBytes) + BlockSize(size))
    {
      if n.blocks == [] || n.blocks[0].size < Wrap(size + n.blocks[0].top) {
        var p := GetBlock(size);
        if p.None? {
          return None;
        }
        n.blocks := [p.value] + n.blocks;
      }
      var p := n.blocks[0];
      r := Some((p.id, p.top));
      n.blocks := [p.(top := Wrap(p.top + Aligned(size)))] + n.blocks[1..];
      n.total := n.total + size;
    }

    /** nmem_reset. */
    method Reset(n: Control)
      requires blockCount >= |n.blocks| && heldBytes >= TotalSize(n.blocks)
      modifies this, n
      ensures handles == old(handles) && nextId == old(nextId)
      ensures n.blocks == [] && n.total == 0
      ensures blockCount == old(blockCount) - |old(n.blocks)|
      ensures heldBytes == old(heldBytes) - TotalSize(old(n.blocks))
    {
      while n.blocks != []
        invariant handles == old(handles) && nextId == old(nextId)
        invariant blockCount - |n.blocks| == old(blockCount) - |old(n.blocks)| >= 0
        invariant heldBytes - TotalSize(n.blocks) == old(heldBytes) - TotalSize(old(n.blocks)) >= 0
        decreases |n.blocks|
      {
        var t := n.blocks[0];
        n.blocks := n.blocks[1..];
        FreeBlock(t);
      }
      n.total := 0;
    }

    /** nmem_create. */
    method Create() returns (n: Control)
      modifies this
      ensures fresh(n) && n.blocks == [] && n.total == 0
      ensures handles == old(handles) + 1
      ensures nextId == old(nextId) && blockCount == old(blockCount) && heldBytes == old(heldBytes)
    {
      handles := handles + 1;
      n := new Control();
    }

    /** nmem_destroy. */
    method Destroy(n: Control)
      requires handles >= 1 && blockCount >= |n.blocks| && heldBytes >= TotalSize(n.blocks)
      modifies this, n
      ensures handles == old(handles) - 1 && nextId == old(nextId)
      ensures blockCount == old(blockCount) - |old(n.blocks)|
      ensures heldBytes == old(heldBytes) - TotalSize(old(n.blocks))
    {
      Reset(n);
      handles := handles - 1;
    }
  }

  /** nmem_transfer; the loop does not end if both handles are the same. */
  method Transfer(dst: Control, src: Control)
    requires dst != src
    modifies dst, src
    ensures dst.blocks == Pushed(old(src.blocks), old(dst.blocks)) && src.blocks == []
    ensures dst.total == old(dst.total) + old(src.total) && src.total == 0
  {
    while src.blocks != []
      invariant Pushed(src.blocks, dst.blocks) == Pushed(old(src.blocks), old(dst.blocks))
      invariant dst.total == old(dst.total) && src.total == old(src.total)
      decreases |src.blocks|
    {
      var t := src.blocks[0];
      src.blocks := src.blocks[1..];
      dst.blocks := [t] + dst.blocks;
    }
    dst.total := dst.total + src.total;
    src.total := 0;
  }
}
