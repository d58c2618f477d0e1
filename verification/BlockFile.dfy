/**
 * The block cache under the pager: archie/less/ch.c.
 *
 * A pool of 1024-byte buffers, kept most recently used first in a circular doubly linked
 * list, stands between the character reads of the upper layers and the input file.
 */
module BlockFile {
  import opened Bytes
  import opened PipeSlots

  const EOI := -1
  const NULL_POSITION := -1

  /**
   * What a read answers: interrupted by a signal, or so many bytes (the count is brought within
   * the possible), perhaps with a signal pending.
   */
  datatype Reply = Interrupted | Ready(count: int, signal: bool)

  /** The system's answers to the reads and allocations of a session, in order. */
  datatype Kernel = Kernel(answers: nat -> Reply, allocs: nat -> bool)

  class Buf {
    var next: Buf
    var prev: Buf
    var block: int
    var datasize: nat
    const data: array<byte>

    constructor ()
      ensures next == this && prev == this
      ensures block == -1 && datasize == 0 && fresh(data) && data.Length == BUFSIZ
    {
      next := this;
      prev := this;
      block, datasize := -1, 0;
      data := new byte[BUFSIZ](_ => 0);
    }

    /** The buffer is empty or holds the first bytes of its block. */
    ghost predicate Holds(content: seq<byte>)
      reads `block, `datasize, data
    {
      && data.Length == BUFSIZ && datasize <= BUFSIZ
      && (block == -1 ||
          (&& 0 <= block && block * BUFSIZ + datasize <= Max(|content|, block * BUFSIZ)
           && forall k :: 0 <= k < datasize ==> data[k] == content[block * BUFSIZ + k]))
    }
  }

  // ---------------------------------------------------------------- the ring

  /** Element `i` of the ring; the anchor stands both before and after the buffers. */
  ghost function At(anchor: Buf, chain: seq<Buf>, i: int): Buf {
    if 0 <= i < |chain| then chain[i] else anchor
  }

  ghost predicate DistinctBufs(chain: seq<Buf>) {
    forall i, j :: 0 <= i < j < |chain| ==> chain[i] != chain[j]
  }

  /** The anchor and the buffers form a circular doubly linked list in this order. */
  ghost predicate Ring(anchor: Buf, chain: seq<Buf>)
    reads anchor`next, anchor`prev, chain`next, chain`prev
  {
    && anchor !in chain && DistinctBufs(chain)
    && (forall i {:trigger At(anchor, chain, i).next} :: -1 <= i < |chain| ==>
          At(anchor, chain, i).next == At(anchor, chain, i + 1))
    && (forall i {:trigger At(anchor, chain, i).prev} :: 0 <= i <= |chain| ==>
          At(anchor, chain, i).prev == At(anchor, chain, i - 1))
  }

  ghost function Front(chain: seq<Buf>, k: nat): seq<Buf>
    requires k < |chain|
  {
    [chain[k]] + chain[..k] + chain[k + 1..]
  }

  /** Move buffer `k` to the head of the ring. */
  method ToHead(anchor: Buf, bp: Buf, ghost chain: seq<Buf>, ghost k: nat)
    requires Ring(anchor, chain) && k < |chain| && bp == chain[k]
    modifies anchor`next, anchor`prev, chain`next, chain`prev
    ensures Ring(anchor, Front(chain, k))
  {
    assert At(anchor, chain, k).next == At(anchor, chain, k + 1);
    assert At(anchor, chain, k).prev == At(anchor, chain, k - 1);
    assert At(anchor, chain, -1).next == At(anchor, chain, 0);
    ghost var front := Front(chain, k);
    assert At(anchor, chain, k) == bp && At(anchor, chain, 0) == anchor.next;
    if anchor.next != bp {
      bp.next.prev := bp.prev;
      bp.prev.next := bp.next;
      bp.next := anchor.next;
      bp.prev := anchor;
      anchor.next.prev := bp;
      anchor.next := bp;
    }
    forall i | -1 <= i < |chain|
      ensures At(anchor, front, i).next == At(anchor, front, i + 1)
    {
      var o := Before(k, i);
      assert At(anchor, front, i) == At(anchor, chain, o);
      assert old(At(anchor, chain, o).next) == At(anchor, chain, o + 1);
    }
    forall i | 0 <= i <= |chain|
      ensures At(anchor, front, i).prev == At(anchor, front, i - 1)
    {
      var o := Before(k, i);
      assert At(anchor, front, i) == At(anchor, chain, o);
      assert old(At(anchor, chain, o).prev) == At(anchor, chain, o - 1);
    }
  }

  lemma FrontWas(chain: seq<Buf>, k: nat, i: nat)
    requires k < |chain| && i < |chain|
    ensures |Front(chain, k)| == |chain| && 0 <= Before(k, i) < |chain|
    ensures Front(chain, k)[i] == chain[Before(k, i)]
  {
  }

  lemma FrontMembers(chain: seq<Buf>, k: nat)
    requires k < |chain|
    ensures |Front(chain, k)| == |chain| && Front(chain, k)[0] == chain[k]
    ensures forall b: Buf :: b in Front(chain, k) ==> b in chain
    ensures forall b: Buf :: b in chain ==> b in Front(chain, k)
  {
    assert chain == chain[..k] + [chain[k]] + chain[k + 1..];
  }

  /** The order of the buffers is the same, but for one that may have come to the front. */
  ghost predicate Moved(before: seq<Buf>, after: seq<Buf>) {
    after == before || exists k: nat :: k < |before| && after == Front(before, k)
  }

  /** One more buffer, at the end or at the front. */
  ghost predicate Extended(before: seq<Buf>, after: seq<Buf>) {
    |after| == |before| + 1 && (after[..|before|] == before || after[1..] == before)
  }

  /** Buffer `bp` may have come to the front. */
  ghost predicate Raised(before: seq<Buf>, after: seq<Buf>, bp: Buf) {
    after == before || exists k: nat :: k < |before| && before[k] == bp && after == Front(before, k)
  }

  /** The chain, or the chain and one more buffer behind it. */
  ghost predicate Grown(before: seq<Buf>, after: seq<Buf>, bp: Buf) {
    after == before || after == before + [bp]
  }

  lemma GrownThenRaised(before: seq<Buf>, grown: seq<Buf>, after: seq<Buf>, bp: Buf)
    requires Grown(before, grown, bp) && Raised(grown, after, bp) && DistinctBufs(grown)
    ensures Moved(before, after) || Extended(before, after)
  {
    hide Front;
    if grown != before && after != grown {
      var k: nat :| k < |grown| && grown[k] == bp && after == Front(grown, k);
      assert k == |before| by {
        assert grown[|before|] == bp;
      }
      FrontOfLast(before, bp);
    }
  }

  lemma FrontOfLast(before: seq<Buf>, bp: Buf)
    ensures |Front(before + [bp], |before|)| == |before| + 1 && Front(before + [bp], |before|)[1..] == before
  {
    var grown := before + [bp];
    assert grown[..|before|] == before && grown[|before| + 1..] == [];
  }

  lemma SameOrder(chain: seq<Buf>, bp: Buf)
    ensures Raised(chain, chain, bp) && Grown(chain, chain, bp)
  {
  }

  /** The new buffers point to one another in order; the outer links of the run are left open. */
  ghost predicate LinkedRun(newbufs: seq<Buf>)
    reads newbufs`next, newbufs`prev
  {
    && (forall j {:trigger newbufs[j].next} :: 0 <= j < |newbufs| - 1 ==> newbufs[j].next == newbufs[j + 1])
    && (forall j {:trigger newbufs[j].prev} :: 1 <= j < |newbufs| ==> newbufs[j].prev == newbufs[j - 1])
  }

  method LinkRun(newbufs: seq<Buf>)
    requires DistinctBufs(newbufs)
    modifies newbufs`next, newbufs`prev
    ensures LinkedRun(newbufs)
  {
    for i := 0 to |newbufs|
      invariant forall j {:trigger newbufs[j].next} :: 0 <= j < i && j < |newbufs| - 1 ==>
        newbufs[j].next == newbufs[j + 1]
      invariant forall j {:trigger newbufs[j].prev} :: 1 <= j < i ==> newbufs[j].prev == newbufs[j - 1]
    {
      if i + 1 < |newbufs| {
        newbufs[i].next := newbufs[i + 1];
      }
      if i > 0 {
        newbufs[i].prev := newbufs[i - 1];
      }
    }
  }

  /** Link new buffers onto the tail of the ring. */
  method AppendBufs(anchor: Buf, newbufs: seq<Buf>, ghost chain: seq<Buf>)
    requires Ring(anchor, chain) && newbufs != [] && LinkedRun(newbufs)
    requires DistinctBufs(newbufs) && forall b :: b in newbufs ==> b != anchor && b !in chain
    modifies anchor`next, anchor`prev, chain`next, chain`prev, newbufs`next, newbufs`prev
    ensures Ring(anchor, chain + newbufs)
  {
    var n := |newbufs|;
    ghost var all := chain + newbufs;
    assert forall j :: 0 <= j < n ==> newbufs[j] !in chain;
    assert At(anchor, chain, |chain|).prev == At(anchor, chain, |chain| - 1);
    newbufs[n - 1].next := anchor;
    newbufs[0].prev := anchor.prev;
    anchor.prev.next := newbufs[0];
    anchor.prev := newbufs[n - 1];
    forall i | -1 <= i < |all|
      ensures At(anchor, all, i).next == At(anchor, all, i + 1)
    {
      if i < |chain| {
        assert old(At(anchor, chain, i).next) == At(anchor, chain, i + 1);
      } else {
        assert all[i] == newbufs[i - |chain|];
      }
    }
    forall i | 0 <= i <= |all|
      ensures At(anchor, all, i).prev == At(anchor, all, i - 1)
    {
      if i < |chain| {
        assert old(At(anchor, chain, i).prev) == At(anchor, chain, i - 1);
      } else if i < |all| {
        assert all[i] == newbufs[i - |chain|];
      }
    }
  }

  /** Buffers as blocks and sizes. */
  ghost function SlotsOf(chain: seq<Buf>): (v: seq<Slot>)
    reads chain`block, chain`datasize
    ensures |v| == |chain| && forall i :: 0 <= i < |v| ==> v[i] == Slot(chain[i].block, chain[i].datasize)
  {
    if chain == [] then [] else [Slot(chain[0].block, chain[0].datasize)] + SlotsOf(chain[1..])
  }

  /** What a read may change of a pipe: its slots, its position, its length if known, and the reads made. */
  datatype Shot = Shot(slots: seq<Slot>, fpos: int, fsize: int, made: nat)

  // ---------------------------------------------------------------- the file state

  /** The character at a position, or EOI past the end. */
  function CharAt(content: seq<byte>, pos: int): int {
    if 0 <= pos < |content| then content[pos] else EOI
  }

  /** The state of the input file: `thisfile`, its buffers, and the file itself. */
  class FileState {
    const anchor: Buf
    const ispipe: bool
    const content: seq<byte>
    const kernel: Kernel
    var autobuf: bool
    var fpos: int
    var nbufs: int
    var block: int
    var offset: int
    var fsize: int

    /** The pending signals (the global `sigs`). */
    var sigs: bool

    /** How many reads and allocations have been made. */
    var readCount: nat
    var allocCount: nat

    /** From this block on, everything read from a pipe is still buffered. */
    ghost var intact: int

    /** The buffers, most recently used first, and all the objects of the state. */
    ghost var chain: seq<Buf>
    ghost var repr: set<object>

    /** A file just opened, without buffers yet. */
    constructor (content: seq<byte>, ispipe: bool, autobuf: bool, kernel: Kernel)
      ensures Valid() && fresh(repr) && nbufs == 0 && Tell() == 0
      ensures !sigs && Lossless() && this.content == content && this.ispipe == ispipe
      ensures this.autobuf == autobuf && this.kernel == kernel
      ensures chain == [] && fpos == readCount == allocCount == 0
      ensures fsize == if ispipe then NULL_POSITION else |content|
    {
      this.content, this.ispipe, this.autobuf, this.kernel := content, ispipe, autobuf, kernel;
      var a := new Buf();
      anchor := a;
      fpos, nbufs, block, offset, readCount, allocCount, sigs := 0, 0, 0, 0, 0, 0, false;
      intact := 0;
      fsize := if ispipe then NULL_POSITION else |content|;
      chain, repr := [], {this, a};
    }

    /** The buffers hang together as a ring, each with storage of its own. */
    ghost predicate Pool()
      reads `nbufs, `chain, `repr, anchor`next, anchor`prev, chain`next, chain`prev
    {
      && this in repr && anchor in repr && nbufs == |chain|
      && (forall b: Buf :: b in chain ==> b in repr && b.data in repr)
      && (forall b: Buf, c: Buf :: b in chain && c in chain && b != c ==> b.data != c.data)
      && Ring(anchor, chain)
    }

    /** Every buffer holds bytes of its block, and no block is in two buffers. */
    ghost predicate Coherent()
      reads `chain, chain`block, chain`datasize, set b: Buf | b in chain :: b.data
    {
      && (forall b: Buf :: b in chain ==> b.Holds(content))
      && (forall b: Buf, c: Buf :: b in chain && c in chain && b != c && b.block == c.block ==> b.block == -1)
    }

    ghost predicate Buffered(blk: int)
      reads `chain, chain`block
    {
      exists b: Buf :: b in chain && b.block == blk
    }

    ghost predicate Position()
      reads `fpos, `block, `offset, `fsize
    {
      && 0 <= fpos <= |content| && 0 <= block && 0 <= offset < BUFSIZ
      && if ispipe then fsize == NULL_POSITION || fsize == fpos == |content|
         else fsize == |content| && Tell() <= |content|
    }

    /**
     * Every byte read from a pipe is still buffered, from block `intact` on: from the beginning
     * while buffers are allocated automatically.
     */
    ghost predicate Kept()
      reads `autobuf, `fpos, `block, `offset, `intact, `chain, chain`block, chain`datasize
    {
      ispipe ==>
        && intact >= 0 && (autobuf ==> intact == 0)
        && (forall blk: int :: intact <= blk && blk * BUFSIZ < fpos ==> Buffered(blk))
        && (forall b: Buf :: b in chain && b.block >= intact ==>
              b.datasize == Max(0, Min(BUFSIZ, fpos - b.block * BUFSIZ)))
        && (intact == 0 ==>
              && block * BUFSIZ <= fpos && (Buffered(block) || Tell() == fpos)
              && forall b: Buf :: b in chain && b.block >= 0 ==> b.block * BUFSIZ <= fpos)
    }

    /**
     * Every buffer of a pipe is empty or holds all that was read of its block; and when all that
     * was read is lost, so is the first part of the block the pipe would be read on in.
     */
    ghost predicate Entire()
      reads `fpos, `intact, `chain, chain`block, chain`datasize
    {
      ispipe ==>
        && (forall b: Buf :: b in chain && b.datasize > 0 ==> Full(Slot(b.block, b.datasize), fpos))
        && (fpos < intact * BUFSIZ ==>
              && fpos % BUFSIZ != 0
              && forall b: Buf :: b in chain && b.block == fpos / BUFSIZ ==> b.datasize == 0)
    }

    /** The buffers as a list of blocks and sizes, most recently used first. */
    ghost function Slots(): (v: seq<Slot>)
      reads `chain, chain`block, chain`datasize
    {
      SlotsOf(chain)
    }

    /** Nothing has been lost: the file can be read again, or all of it is kept. */
    ghost predicate Lossless()
      reads `intact
    {
      !ispipe || intact == 0
    }

    /** Nothing has been lost at the read pointer or behind it. */
    ghost predicate Sure()
      reads `intact, `fpos, `block
    {
      ispipe ==> intact <= block && block * BUFSIZ <= fpos
    }

    /** Past the end of what a pipe has given, where it can never be read on: only a "?" is to be had. */
    ghost predicate Lost()
      reads `fpos, `fsize, `block
    {
      ispipe && fsize == NULL_POSITION && fpos < block * BUFSIZ
    }

    /** A pipe without automatic buffers that has not been read to its end: it may lose data. */
    ghost predicate Bare()
      reads `autobuf, `fsize
    {
      ispipe && !autobuf && fsize == NULL_POSITION
    }

    /** Looking for a newline from `pos` on ends. */
    ghost predicate SkipEndsAt(pos: int)
      reads `autobuf, `fsize, `fpos, `chain, chain`block, chain`datasize
    {
      Bare() && chain != [] && pos >= 0 ==> SkipEnds(Slots(), fpos, content, pos / BUFSIZ, pos % BUFSIZ)
    }

    /** A position that has been read and can be read again. */
    ghost predicate Reachable(pos: int)
      reads `intact, `fpos
    {
      0 <= pos && if ispipe then pos <= fpos && intact <= pos / BUFSIZ else pos <= |content|
    }

    ghost predicate Valid()
      reads this, repr
    {
      && this in repr && anchor in repr && (forall b: Buf :: b in chain ==> b in repr && b.data in repr)
      && Pool() && Coherent() && Position() && Kept() && Entire()
    }

    /** The position of the read pointer. */
    function Tell(): int
      reads `block, `offset
    {
      block * BUFSIZ + offset
    }

    /** No read was interrupted between two points of the session. */
    ghost predicate Quiet(from: nat, to: nat) {
      forall k :: from <= k < to ==> kernel.answers(k).Ready?
    }

    lemma QuietJoin(from: nat, mid: nat)
      requires from <= mid <= readCount
      ensures Quiet(from, mid) && Quiet(mid, readCount) ==> Quiet(from, readCount)
    {
    }

    lemma QuietNow()
      ensures Quiet(readCount, readCount)
    {
    }

    /** Link new, empty buffers onto the tail of the chain. */
    method Adopt(newbufs: seq<Buf>)
      requires Pool() && newbufs != [] && DistinctBufs(newbufs)
      requires forall b: Buf :: b in newbufs ==> b !in repr && b.data !in repr
      requires forall b: Buf, c: Buf :: b in newbufs && c in newbufs && b != c ==> b.data != c.data
      modifies `nbufs, `chain, `repr, anchor`next, anchor`prev, chain`next, chain`prev, newbufs`next, newbufs`prev
      ensures Pool() && chain == old(chain) + newbufs && nbufs == old(nbufs) + |newbufs|
      ensures repr == old(repr) + (set b | b in newbufs) + (set b: Buf | b in newbufs :: b.data)
    {
      hide Ring, LinkedRun, DistinctBufs;
      assert forall i :: 0 <= i < |newbufs| ==> newbufs[i] in newbufs;
      LinkRun(newbufs);
      AppendBufs(anchor, newbufs, chain);
      nbufs := nbufs + |newbufs|;
      chain := chain + newbufs;
      repr := repr + (set b | b in newbufs) + (set b: Buf | b in newbufs :: b.data);
    }

    /** Allocate some new buffers, at the tail of the chain; true means failure. */
    method AddBuf(nnew: int) returns (failed: bool, ghost added: seq<Buf>)
      requires Pool() && nnew >= 1
      modifies `nbufs, `allocCount, `chain, `repr, anchor`next, anchor`prev, chain`next, chain`prev
      ensures Pool() && nbufs == old(nbufs) + |added|
      ensures allocCount == old(allocCount) + 1 && failed == !kernel.allocs(old(allocCount))
      ensures chain == old(chain) + added && |added| == (if failed then 0 else nnew)
      ensures fresh(repr - old(repr)) && repr >= old(repr)
      ensures forall b: Buf :: b in added ==>
        fresh(b) && fresh(b.data) && b.block == -1 && b.datasize == 0 && b.data.Length == BUFSIZ
    {
      hide Ring, LinkedRun, DistinctBufs;
      added := [];
      allocCount := allocCount + 1;
      if !kernel.allocs(allocCount - 1) {
        return true, [];
      }
      var newbufs := AllocBufs(nnew);
      assert forall i :: 0 <= i < nnew ==> newbufs[i] in newbufs;
      Adopt(newbufs);
      failed, added := false, newbufs;
    }

    static method AllocBufs(nnew: int) returns (newbufs: seq<Buf>)
      requires nnew >= 1
      ensures |newbufs| == nnew && DistinctBufs(newbufs)
      ensures forall b: Buf :: b in newbufs ==>
        fresh(b) && fresh(b.data) && b.block == -1 && b.datasize == 0 && b.data.Length == BUFSIZ
      ensures forall b: Buf, c: Buf :: b in newbufs && c in newbufs && b != c ==> b.data != c.data
    {
      newbufs := [];
      for i := 0 to nnew
        invariant |newbufs| == i && DistinctBufs(newbufs)
        invariant forall b: Buf :: b in newbufs ==>
          fresh(b) && fresh(b.data) && b.block == -1 && b.datasize == 0 && b.data.Length == BUFSIZ
        invariant forall b: Buf, c: Buf :: b in newbufs && c in newbufs && b != c ==> b.data != c.data
      {
        var b := new Buf();
        newbufs := newbufs + [b];
      }
    }

    lemma RingAt(k: int)
      requires Pool() && -1 <= k < |chain|
      ensures At(anchor, chain, k).next == At(anchor, chain, k + 1)
      ensures (At(anchor, chain, k + 1) == anchor) == (k + 1 == |chain|)
      ensures anchor.prev == At(anchor, chain, |chain| - 1)
    {
      assert At(anchor, chain, |chain|).prev == At(anchor, chain, |chain| - 1);
    }

    /** Look for the buffer that holds the block of the read pointer; the anchor stands for none. */
    method FindBuf(blk: int) returns (bp: Buf, ghost k: nat)
      requires Pool()
      ensures k <= |chain| && bp == At(anchor, chain, k) && (bp == anchor <==> k == |chain|)
      ensures bp != anchor ==> bp in chain && bp.block == blk
      ensures Buffered(blk) <==> bp != anchor
    {
      hide Ring;
      RingAt(-1);
      bp, k := anchor.next, 0;
      while bp != anchor
        invariant k <= |chain| && bp == At(anchor, chain, k) && (bp == anchor <==> k == |chain|)
        invariant forall i :: 0 <= i < k ==> chain[i].block != blk
        decreases |chain| - k
      {
        if bp.block == blk {
          return;
        }
        RingAt(k);
        bp, k := bp.next, k + 1;
      }
    }

    /** Only buffer `bp` has changed, and it is still right: the cache is still coherent. */
    twostate lemma CoherentStill(bp: Buf)
      requires old(Coherent()) && chain == old(chain) && bp in chain && bp.Holds(content)
      requires forall b: Buf :: b in chain && b != bp ==>
        b.block == old(b.block) && b.datasize == old(b.datasize) && b.data[..] == old(b.data[..])
      requires bp.block == old(bp.block) || forall b: Buf :: b in chain ==> old(b.block) != bp.block
      ensures Coherent()
    {
      forall b: Buf | b in chain && b != bp
        ensures b.Holds(content)
      {
        assert old(b.Holds(content));
        assert forall k :: 0 <= k < b.data.Length ==>
          b.data[k] == b.data[..][k] == old(b.data[..])[k] == old(b.data[k]);
      }
    }

    /** Reading on at the frontier keeps everything that was read. */
    twostate lemma KeptStill(bp: Buf)
      requires old(Kept()) && chain == old(chain) && bp in chain
      requires block == old(block) && offset == old(offset) && autobuf == old(autobuf) && intact == old(intact)
      requires old(Coherent()) && old(Position())
      requires forall b: Buf :: b in chain ==> b.block == old(b.block) && (b != bp ==> b.datasize == old(b.datasize))
      requires bp.block == block && old(bp.datasize) < BUFSIZ
      requires bp.datasize >= old(bp.datasize)
      requires bp.datasize <= BUFSIZ
      requires old(fpos) == block * BUFSIZ + old(bp.datasize) && fpos - old(fpos) == bp.datasize - old(bp.datasize)
      ensures Kept()
    {
      if ispipe {
        forall blk: int | intact <= blk && blk * BUFSIZ < fpos
          ensures Buffered(blk)
        {
          if blk < block {
            assert old(Buffered(blk));
          } else {
            assert bp.block == blk;
          }
        }
        forall b: Buf | b in chain && b.block >= intact
          ensures b.datasize == Max(0, Min(BUFSIZ, fpos - b.block * BUFSIZ))
        {
          assert b != bp ==> b.block != block;
        }
        assert Buffered(block);
      }
    }

    /** Reading on in the buffer that ends where the pipe does leaves every other buffer full or empty. */
    twostate lemma EntireAfterRead(bp: Buf)
      requires old(Entire()) && chain == old(chain) && bp in chain && intact == old(intact)
      requires old(Coherent()) && bp.block >= 0
      requires forall b: Buf :: b in chain ==> b.block == old(b.block) && (b != bp ==> b.datasize == old(b.datasize))
      requires old(bp.datasize) < BUFSIZ && old(bp.datasize) <= bp.datasize <= BUFSIZ
      requires fpos == bp.block * BUFSIZ + bp.datasize && old(fpos) == bp.block * BUFSIZ + old(bp.datasize)
      ensures Entire()
    {
      if ispipe {
        assert old(fpos) / BUFSIZ == bp.block;
        forall b: Buf | b in chain && b.datasize > 0 && b != bp
          ensures Full(Slot(b.block, b.datasize), fpos)
        {
          assert old(Full(Slot(b.block, b.datasize), fpos));
        }
      }
    }

    /** The bytes read go behind those the buffer holds. */
    method Store(bp: Buf, n: nat)
      requires Pool() && Coherent() && Kept() && Entire() && Position() && bp in chain && bp.block == block
      requires fpos == block * BUFSIZ + bp.datasize && bp.datasize + n <= BUFSIZ && bp.datasize < BUFSIZ
      requires fpos + n <= |content|
      modifies `fpos, bp`datasize, bp.data
      ensures Pool() && Coherent() && Kept() && Entire()
      ensures fpos == old(fpos) + n && bp.datasize == old(bp.datasize) + n
    {
      hide Ring, Entire;
      assert bp.Holds(content);
      forall i | 0 <= i < n {
        bp.data[bp.datasize + i] := content[fpos + i];
      }
      fpos := fpos + n;
      bp.datasize := bp.datasize + n;
      CoherentStill(bp);
      KeptStill(bp);
      EntireAfterRead(bp);
    }

    /** How many bytes a read gives: the count brought within the room in the buffer and what is left of the file. */
    function Got(count: int, room: int, left: int): int {
      if Min(room, left) == 0 then 0 else Max(1, Min(count, Min(room, left)))
    }

    /** Read on into a buffer that ends where the file is positioned. */
    method ReadInto(bp: Buf) returns (n: int)
      requires Valid() && bp in chain && bp.block == block && bp.datasize <= offset
      requires fpos == block * BUFSIZ + bp.datasize && (fsize == NULL_POSITION || fpos < fsize)
      modifies `fpos, `fsize, `readCount, `sigs, bp`datasize, bp.data
      ensures Valid() && readCount == old(readCount) + 1
      ensures match kernel.answers(old(readCount))
        case Interrupted => sigs
        case Ready(_, signal) => sigs == (old(sigs) || signal)
      ensures n == -2 <==> kernel.answers(old(readCount)).Interrupted?
      ensures n == -2 ==> bp.datasize == old(bp.datasize) && fpos == old(fpos) && fsize == old(fsize)
      ensures n != -2 ==> 0 <= n && bp.datasize == old(bp.datasize) + n && bp.datasize <= BUFSIZ
      ensures n >= 0 ==> fpos == old(fpos) + n
      ensures n > 0 ==> fsize == old(fsize)
      ensures n == 0 ==> old(fsize) == NULL_POSITION && fsize == fpos == |content|
      ensures kernel.answers(old(readCount)).Ready? ==>
        n == Got(kernel.answers(old(readCount)).count, BUFSIZ - old(bp.datasize), |content| - old(fpos))
    {
      hide Pool, Coherent, Kept, Entire;
      var answer := kernel.answers(readCount);
      readCount := readCount + 1;
      if answer.Interrupted? {
        sigs := true;
        return -2;
      }
      sigs := sigs || answer.signal;
      n := Got(answer.count, BUFSIZ - bp.datasize, |content| - fpos);
      Store(bp, n);
      if n == 0 {
        fsize := fpos;
      }
    }

    lemma BufferedIsRead(bp: Buf)
      requires Kept() && bp in chain
      ensures ispipe && bp.block >= intact && bp.datasize > 0 ==> bp.block * BUFSIZ + bp.datasize <= fpos
    {
    }

    lemma KeptIfRegular()
      requires !ispipe
      ensures Kept() && Entire()
    {
    }

    lemma PoolOwns()
      requires Pool()
      ensures this in repr && anchor in repr && forall b: Buf :: b in chain ==> b in repr && b.data in repr
    {
    }

    lemma ValidOwnsThis()
      requires Valid()
      ensures this in repr
    {
    }

    lemma BufferHolds(bp: Buf)
      requires Coherent() && bp in chain
      ensures bp.Holds(content)
    {
    }

    lemma TailIsLast()
      requires Pool() && nbufs >= 1
      ensures |chain| == nbufs && anchor.prev == chain[|chain| - 1]
    {
      RingAt(-1);
    }

    /** What is intact when a buffer has been given up. */
    ghost function Left(bp: Buf): int
      reads `intact, bp`block, bp`datasize
    {
      if bp.block >= 0 && bp.datasize > 0 then Max(intact, bp.block + 1) else intact
    }

    /** Putting an unread block in the place of another loses that other one, and nothing at or behind the new one. */
    twostate lemma KeptAfterTakeOver(bp: Buf)
      requires old(Kept()) && old(!Buffered(block)) && chain == old(chain) && bp in chain
      requires block == old(block) && offset == old(offset) && fpos == old(fpos) && autobuf == old(autobuf)
      requires old(Coherent()) && old(Position())
      requires forall b: Buf :: b in chain && b != bp ==> b.block == old(b.block) && b.datasize == old(b.datasize)
      requires ispipe && autobuf ==> old(bp.block) == -1
      requires intact == old(Left(bp)) && bp.block == block && bp.datasize == 0
      ensures Kept() && (old(Sure()) ==> Sure())
    {
      if ispipe {
        forall blk: int | intact <= blk && blk * BUFSIZ < fpos
          ensures Buffered(blk)
        {
          assert old(Buffered(blk));
          var b: Buf :| b in chain && old(b.block) == blk;
          assert b != bp;
          assert b.block == blk;
        }
        assert Buffered(block);
        assert old(bp.Holds(content));
      }
    }

    twostate lemma EntireAfterTakeOver(bp: Buf)
      requires old(Entire()) && old(Coherent()) && chain == old(chain) && bp in chain && fpos == old(fpos)
      requires forall b: Buf :: b in chain && b != bp ==> b.block == old(b.block) && b.datasize == old(b.datasize)
      requires intact == old(Left(bp)) && bp.block != old(bp.block) && bp.datasize == 0
      ensures Entire()
    {
      if ispipe {
        forall b: Buf | b in chain && b.datasize > 0
          ensures Full(Slot(b.block, b.datasize), fpos)
        {
          assert old(Full(Slot(b.block, b.datasize), fpos));
        }
        if old(bp.datasize) > 0 {
          assert old(Full(Slot(bp.block, bp.datasize), fpos));
        }
      }
    }

    /** The least recently used buffer is taken over for a block that is in none. */
    method TakeOver() returns (bp: Buf)
      requires Valid() && nbufs >= 1 && !Buffered(block)
      requires ispipe && autobuf ==> chain[|chain| - 1].block == -1
      modifies `intact, chain`block, chain`datasize
      ensures Valid() && bp in chain && bp.block == block && bp.datasize == 0
      ensures bp == chain[|chain| - 1]
      ensures forall b: Buf :: b in chain && b != bp ==> b.block == old(b.block) && b.datasize == old(b.datasize)
      ensures intact == old(Left(bp)) && (old(Sure()) ==> Sure())
    {
      hide Ring, Pool, Kept, Coherent, Sure, Entire, Buffered;
      TailIsLast();
      bp := anchor.prev;
      BufferHolds(bp);
      NoneHolds(block);
      intact := Left(bp);
      bp.block := block;
      bp.datasize := 0;
      CoherentStill(bp);
      KeptAfterTakeOver(bp);
      EntireAfterTakeOver(bp);
    }

    lemma NoneHolds(blk: int)
      requires !Buffered(blk)
      ensures forall b: Buf :: b in chain ==> b.block != blk
    {
    }

    /** New empty buffers do not disturb the cache. */
    twostate lemma GrownStill(new added: seq<Buf>)
      requires old(Coherent()) && old(Kept()) && chain == old(chain) + added
      requires block == old(block) && offset == old(offset) && fpos == old(fpos) && intact == old(intact)
      requires autobuf == old(autobuf)
      requires forall b: Buf :: b in old(chain) ==>
        b.block == old(b.block) && b.datasize == old(b.datasize) && b.data[..] == old(b.data[..])
      requires forall b: Buf :: b in added ==> b.block == -1 && b.datasize == 0 && b.data.Length == BUFSIZ
      ensures Coherent() && Kept() && (old(Sure()) ==> Sure()) && (old(Entire()) ==> Entire())
    {
      forall b: Buf | b in old(chain)
        ensures b.Holds(content)
      {
        assert old(b.Holds(content));
        assert forall k :: 0 <= k < b.data.Length ==>
          b.data[k] == b.data[..][k] == old(b.data[..])[k] == old(b.data[k]);
      }
      if ispipe {
        forall blk: int | old(Buffered(blk))
          ensures Buffered(blk)
        {
          var b: Buf :| b in old(chain) && old(b.block) == blk;
          assert b in chain && b.block == blk;
        }
      }
    }

    /** Allocate buffers for a session under way; true means failure. */
    method ChAddBuf(nnew: int) returns (failed: bool, ghost added: seq<Buf>)
      requires Valid() && nnew >= 1
      modifies `nbufs, `allocCount, `chain, `repr, anchor`next, anchor`prev, chain`next, chain`prev
      ensures Valid() && nbufs == old(nbufs) + |added|
      ensures allocCount == old(allocCount) + 1 && failed == !kernel.allocs(old(allocCount))
      ensures chain == old(chain) + added && |added| == (if failed then 0 else nnew)
      ensures fresh(repr - old(repr)) && repr >= old(repr)
      ensures forall b: Buf :: b in added ==> b.block == -1 && b.datasize == 0 && fresh(b)
      ensures old(Sure()) ==> Sure()
    {
      hide Ring, Coherent, Kept, Pool;
      failed, added := AddBuf(nnew);
      GrownStill(added);
      PoolOwns();
    }

    /** Giving up automatic allocation loses nothing yet. */
    method StopAllocating()
      requires Valid()
      modifies `autobuf
      ensures Valid() && !autobuf
    {
      hide Ring, Coherent, Pool;
      autobuf := false;
    }

    /** Allocate a buffer for a pipe; a failure turns automatic allocation off. */
    method AutoAllocate()
      requires Valid() && autobuf && nbufs >= 1
      modifies this, anchor`next, anchor`prev, chain`next, chain`prev
      ensures Valid() && nbufs >= 1 && fresh(repr - old(repr))
      ensures block == old(block) && offset == old(offset) && fpos == old(fpos) && fsize == old(fsize)
      ensures readCount == old(readCount) && sigs == old(sigs) && intact == old(intact) && (old(Sure()) ==> Sure())
      ensures allocCount == old(allocCount) + 1 && autobuf == kernel.allocs(old(allocCount))
      ensures autobuf ==>
        chain[nbufs - 1].block == -1 && fresh(chain[nbufs - 1]) && chain == old(chain) + [chain[nbufs - 1]]
      ensures forall b: Buf :: b in old(chain) ==> b.block == old(b.block)
      ensures !autobuf ==> chain == old(chain)
      ensures forall blk: int :: Buffered(blk) && blk >= 0 ==> old(Buffered(blk))
    {
      hide Ring, Coherent, Pool, Kept, Sure;
      var failed, added := ChAddBuf(1);
      if failed {
        StopAllocating();
      } else {
        TailIsLast();
        assert chain[nbufs - 1] == added[0];
      }
    }

    /** The buffers keep their order, but one may have come to the front and one may have been added. */
    twostate predicate Aged()
      reads `chain
    {
      Moved(old(chain), chain) || Extended(old(chain), chain)
    }

    /** Take a buffer for a block that is in none: the least recently used, or a new one for a pipe. */
    method Claim() returns (bp: Buf)
      requires Valid() && nbufs >= 1 && !Buffered(block)
      modifies repr
      ensures Valid() && bp in chain && bp.block == block && bp.datasize == 0
      ensures nbufs >= 1 && fresh(repr - old(repr))
      ensures block == old(block) && offset == old(offset) && fpos == old(fpos) && fsize == old(fsize)
      ensures readCount == old(readCount) && allocCount >= old(allocCount) && sigs == old(sigs)
      ensures autobuf == (old(autobuf) && forall k :: old(allocCount) <= k < allocCount ==> kernel.allocs(k))
      ensures Grown(old(chain), chain, bp)
      ensures forall b: Buf :: b in old(chain) && b != old(chain)[|old(chain)| - 1] ==> b.block == old(b.block)
      ensures intact >= old(intact) && (old(Sure()) ==> Sure())
      ensures !old(autobuf) ==> chain == old(chain) && bp == chain[|chain| - 1]
      ensures !old(autobuf) ==> forall b: Buf :: b in chain && b != bp ==> b.datasize == old(b.datasize)
    {
      hide Ring, Coherent, Pool, Kept, Sure, Entire;
      TailIsLast();
      if autobuf && ispipe && anchor.prev.block != -1 {
        AutoAllocate();
      }
      TailIsLast();
      bp := TakeOver();
    }

    /** Make a buffer the most recently used. */
    method Touch(bp: Buf)
      requires Valid() && bp in chain && bp.block >= 0
      modifies `chain, anchor`next, anchor`prev, chain`next, chain`prev
      ensures Valid() && bp in chain && bp == chain[0]
      ensures Raised(old(chain), chain, bp)
      ensures |chain| == |old(chain)| && forall b: Buf :: b in old(chain) ==> b in chain
      ensures Slots() == ToFront(old(Slots()), old(FindSlot(Slots(), bp.block)))
    {
      hide Ring, Coherent, Kept, Front, Sure, Entire, Slots, ToFront;
      SlotOfBuf(bp);
      ghost var k := FindSlot(Slots(), bp.block);
      FrontMembers(chain, k);
      ghost var front := Front(chain, k);
      assert forall b: Buf :: b in front ==> b in chain;
      ToHead(anchor, bp, chain, k);
      chain := front;
      FrontStill(k);
      SlotsFront(k);
    }

    /** The slots when a buffer has come to the front. */
    twostate lemma SlotsFront(k: int)
      requires 0 <= k < |old(chain)| && chain == Front(old(chain), k)
      requires forall b: Buf :: b in chain ==> b.block == old(b.block) && b.datasize == old(b.datasize)
      ensures Slots() == ToFront(old(Slots()), k)
    {
      hide Front, ToFront;
      FrontAt(old(Slots()), k, 0);
      FrontWas(old(chain), k, 0);
      forall i | 0 <= i < |chain|
        ensures Slots()[i] == ToFront(old(Slots()), k)[i]
      {
        FrontAt(old(Slots()), k, i);
        FrontWas(old(chain), k, i);
        assert chain[i] in chain;
      }
    }

    /** Reordering the buffers does not disturb the cache. */
    twostate lemma FrontStill(k: int)
      requires old(Coherent()) && old(Kept()) && 0 <= k < |old(chain)| && chain == Front(old(chain), k)
      requires block == old(block) && offset == old(offset) && fpos == old(fpos) && intact == old(intact)
      requires autobuf == old(autobuf)
      requires forall b: Buf :: b in chain ==>
        b.block == old(b.block) && b.datasize == old(b.datasize) && b.data[..] == old(b.data[..])
      ensures Coherent() && Kept() && (old(Sure()) ==> Sure()) && (old(Entire()) ==> Entire())
    {
      FrontMembers(old(chain), k);
      forall b: Buf | b in chain
        ensures b.Holds(content)
      {
        assert old(b.Holds(content));
        assert forall k :: 0 <= k < b.data.Length ==>
          b.data[k] == b.data[..][k] == old(b.data[..])[k] == old(b.data[k]);
      }
      if ispipe {
        forall blk: int | old(Buffered(blk))
          ensures Buffered(blk)
        {
          var b: Buf :| b in old(chain) && old(b.block) == blk;
          assert b in chain && b.block == blk;
        }
      }
    }

    /** Where nothing has been lost a pipe is never positioned elsewhere than where its data ends. */
    lemma NothingLost(bp: Buf)
      requires Valid() && ispipe && Sure() && bp in chain && bp.block == block && bp.datasize <= offset
      ensures block * BUFSIZ + bp.datasize == fpos
    {
    }

    lemma BlockIsBuffered(bp: Buf)
      requires bp in chain && bp.block == block
      ensures Buffered(block)
    {
    }

    /** Reading only goes on: what is lost stays lost, and a signal stays pending. */
    twostate predicate Onward()
      reads this
    {
      intact >= old(intact) && (ispipe ==> fpos >= old(fpos)) && (old(sigs) ==> sigs)
    }

    /** What any operation that reads characters keeps, and what it may use up. */
    twostate predicate Ran()
      reads this
    {
      && Onward() && readCount >= old(readCount) && allocCount >= old(allocCount)
      && (!sigs ==> Quiet(old(readCount), readCount))
      && autobuf == (old(autobuf) && forall k :: old(allocCount) <= k < allocCount ==> kernel.allocs(k))
    }

    lemma ReadableSeeks(pos: int)
      ensures Readable(pos) ==> CanSeek(pos)
      ensures CanSeek(pos) ==> pos >= 0
    {
    }

    /** What a read of the character at the read pointer leaves alone besides. */
    twostate predicate Stepped()
      reads this, chain`block
    {
      && Ran() && nbufs >= 1 && block == old(block) && offset == old(offset)
      && (old(Sure()) ==> Sure()) && (old(Buffered(block)) ==> intact == old(intact))
    }

    /**
     * What a read of the character at `pos` may return; `sure` says that nothing was lost there.
     * Only where something was lost a "?" stands for it.
     */
    ghost predicate Reads(c: int, pos: int, from: nat, sure: bool)
      reads `fpos, `readCount
    {
      && (sure && Quiet(from, readCount) ==> c == CharAt(content, pos))
      && (c == CharAt(content, pos) || c == EOI || (!sure && c == QUESTION as int))
      && (ispipe && sure && c != EOI ==> pos < fpos)
    }

    lemma SlotsAre()
      requires Valid()
      ensures |Slots()| == nbufs
      ensures forall i :: 0 <= i < nbufs ==> Slots()[i] == Slot(chain[i].block, chain[i].datasize)
    {
    }

    /** The slots of a pipe are whole. */
    lemma SlotsWhole()
      requires Valid() && ispipe && nbufs >= 1
      ensures Whole(Slots(), fpos, content)
    {
      hide Ring, Kept;
      PoolDistinct();
      forall i | 0 <= i < |chain| && Slots()[i].size > 0
        ensures Full(Slots()[i], fpos)
      {
        assert chain[i] in chain;
      }
      forall i, j | 0 <= i < j < |chain| && Slots()[i].block == Slots()[j].block
        ensures Slots()[i].block == -1
      {
        assert chain[i] in chain && chain[j] in chain;
      }
    }

    /** The slot of a buffer. */
    lemma SlotOfBuf(bp: Buf)
      requires Valid() && bp in chain && bp.block >= 0
      ensures var k := FindSlot(Slots(), bp.block);
        k < |chain| == |Slots()| && chain[k] == bp && (chain[0] == bp ==> k == 0)
      ensures PipeSlots.Buffered(Slots(), bp.block) && Size(Slots(), bp.block) == bp.datasize
    {
      hide Ring, Kept, Pool;
      var k := FindSlot(Slots(), bp.block);
      var i :| 0 <= i < |chain| && chain[i] == bp;
      assert Slots()[i].block == bp.block;
      assert k <= i && chain[k] in chain && chain[k].block == bp.block;
    }

    lemma NoSlot(blk: int)
      requires !Buffered(blk)
      ensures !PipeSlots.Buffered(Slots(), blk)
    {
      var k := FindSlot(Slots(), blk);
      if k < |chain| {
        NoneHolds(blk);
        assert false;
      }
    }

    /** The slots when the last buffer has been taken for a block. */
    twostate lemma SlotsTaken(bp: Buf)
      requires old(DistinctBufs(chain)) && chain == old(chain) && chain != [] && bp == chain[|chain| - 1]
      requires forall b: Buf :: b in chain && b != bp ==> b.block == old(b.block) && b.datasize == old(b.datasize)
      requires old(!PipeSlots.Buffered(Slots(), block)) && block == old(block) && bp.block == block && bp.datasize == 0
      ensures Slots() == Located(old(Slots()), block)
    {
      forall i | 0 <= i < |chain| - 1
        ensures Slots()[i] == old(Slots())[i]
      {
        assert chain[i] in chain && chain[i] != bp;
      }
    }

    /** The read pointer's character is decided by what is buffered. */
    ghost predicate Settled()
      reads `autobuf, `fsize, `fpos, `block, `offset, `chain, chain`block, chain`datasize
    {
      Bare() && offset >= 0 && Decided(Slots(), fpos, block, offset)
    }

    /** The read pointer is where the pipe is read on, and there is more to come. */
    ghost predicate Supply()
      reads `autobuf, `fsize, `fpos, `block, `offset, `readCount, `chain, chain`block, chain`datasize
    {
      && Bare() && AtEnd(Slots(), fpos, block) && offset == Size(Slots(), block)
      && fpos < |content| && kernel.answers(readCount).Ready?
    }

    ghost function Now(): Shot
      reads `fpos, `fsize, `readCount, `chain, chain`block, chain`datasize
    {
      Shot(Slots(), fpos, fsize, readCount)
    }

    /** The buffers gave the character, and the file was not read. */
    ghost predicate Answered(was: Shot, c: int, blk: int, off: int)
      reads `fpos, `fsize, `readCount, `chain, chain`block, chain`datasize
    {
      && off >= 0 && was.slots != [] && c == Given(was.slots, content, blk, off)
      && Now() == was.(slots := Fetched(was.slots, blk, off))
    }

    /** How many bytes the next read gives into a block. */
    ghost function Next(was: Shot, blk: int): int {
      var answer := kernel.answers(was.made);
      Got(if answer.Ready? then answer.count else 0, BUFSIZ - Size(was.slots, blk), |content| - was.fpos)
    }

    /** One read of the file gave the character, and perhaps some behind it. */
    ghost predicate Supplied(was: Shot, c: int, blk: int)
      reads `fpos, `fsize, `readCount, `chain, chain`block, chain`datasize
    {
      && was.slots != [] && 0 <= was.fpos < |content| && Next(was, blk) > 0 && c == content[was.fpos] as int
      && Now() == Shot(More(was.slots, blk, Next(was, blk)), was.fpos + Next(was, blk), was.fsize, was.made + 1)
    }

    /** Find or claim the buffer for the block of the read pointer. */
    method Locate() returns (bp: Buf)
      requires Valid() && nbufs >= 1
      modifies repr
      ensures Valid() && fresh(repr - old(repr)) && Stepped() && readCount == old(readCount)
      ensures bp in chain && bp.block == block && Grown(old(chain), chain, bp)
      ensures forall b: Buf :: b in old(chain) ==> b in chain
      ensures forall b: Buf :: b in old(chain) && (old(Buffered(block)) || b != old(chain)[|old(chain)| - 1]) ==>
        b.block == old(b.block)
      ensures fpos == old(fpos) && fsize == old(fsize)
      ensures !old(autobuf) ==> Now() == old(Now()).(slots := Located(old(Slots()), block))
    {
      hide Ring, Pool, Coherent, Kept, Sure, Entire, Slots, Located, DistinctBufs;
      TailIsLast();
      PoolOwns();
      PoolDistinct();
      ghost var k;
      bp, k := FindBuf(block);
      if bp == anchor {
        NoSlot(block);
        bp := Claim();
        if !old(autobuf) {
          SlotsTaken(bp);
        }
      } else {
        SlotOfBuf(bp);
        LocatedThere(Slots(), block);
      }
    }

    /** An answered read has put bytes behind those in the buffer. */
    twostate predicate Fed(bp: Buf, stop: bool)
      reads `fpos, `fsize, `readCount, bp`datasize
    {
      old(kernel.answers(readCount).Ready?) ==>
        var n := Got(kernel.answers(old(readCount)).count, BUFSIZ - old(bp.datasize), |content| - old(fpos));
        && !stop && n > 0 && bp.datasize == old(bp.datasize) + n && fpos == old(fpos) + n
        && fsize == old(fsize) && readCount == old(readCount) + 1
    }

    /** Get more data into the buffer, or find out that there is none to be had. */
    method ReadMore(bp: Buf) returns (stop: bool, c: int)
      requires Valid() && nbufs >= 1 && bp in chain && bp.block == block && bp.datasize <= offset
      modifies `fpos, `fsize, `readCount, `sigs, bp`datasize, bp.data
      ensures Valid() && Stepped()
      ensures stop ==> Reads(c, Tell(), old(readCount), old(Sure()))
      ensures stop ==> c == EOI || (c == QUESTION as int && !old(Sure()))
      ensures !stop ==> Quiet(old(readCount), readCount)
      ensures !stop ==> bp.datasize > old(bp.datasize) || (fsize != NULL_POSITION && old(fsize) == NULL_POSITION)
      ensures bp.datasize >= old(bp.datasize) && (old(fsize) != NULL_POSITION ==> fsize == old(fsize))
      ensures old(Bare()) && block * BUFSIZ + old(bp.datasize) != old(fpos) ==>
        && stop && c == QUESTION as int && bp.datasize == old(bp.datasize)
        && fpos == old(fpos) && fsize == old(fsize) && readCount == old(readCount)
      ensures old(Bare()) && block * BUFSIZ + old(bp.datasize) == old(fpos) < |content| ==> Fed(bp, stop)
      ensures ispipe && old(fsize) != NULL_POSITION && old(fsize) <= block * BUFSIZ ==> c == EOI && stop
    {
      hide Ring, Pool, Coherent, Kept, Entire;
      BlockIsBuffered(bp);
      ghost var sure := Sure();
      var pos := block * BUFSIZ + bp.datasize;
      if fsize != NULL_POSITION && pos >= fsize {
        return true, EOI;
      }
      BufferHolds(bp);
      if pos != fpos {
        if ispipe {
          if sure {
            NothingLost(bp);
          }
          return true, QUESTION as int;
        }
        fpos := pos;
        KeptIfRegular();
      }
      stop, c := ReadOn(bp);
    }

    /** Read on at the end of a buffer; stop on a signal, also on one that comes with the end of the file. */
    method ReadOn(bp: Buf) returns (stop: bool, c: int)
      requires Valid() && nbufs >= 1 && bp in chain && bp.block == block && bp.datasize <= offset
      requires fpos == block * BUFSIZ + bp.datasize && (fsize == NULL_POSITION || fpos < fsize)
      modifies `fpos, `fsize, `readCount, `sigs, bp`datasize, bp.data
      ensures Valid() && Stepped()
      ensures stop ==> Reads(c, Tell(), old(readCount), old(Sure())) && c == EOI
      ensures !stop ==> Quiet(old(readCount), readCount)
      ensures !stop ==> bp.datasize > old(bp.datasize) || (fsize != NULL_POSITION && old(fsize) == NULL_POSITION)
      ensures bp.datasize >= old(bp.datasize) && (old(fsize) != NULL_POSITION ==> fsize == old(fsize))
      ensures old(fpos) < |content| ==> Fed(bp, stop)
    {
      hide Ring, Pool, Coherent, Kept, Entire;
      BlockIsBuffered(bp);
      var n := ReadInto(bp);
      BlockIsBuffered(bp);
      assert n == -2 ==> !Quiet(old(readCount), readCount);
      assert n == 0 ==> CharAt(content, Tell()) == EOI;
      stop, c := n == -2 || (n == 0 && sigs), EOI;
    }

    /** The slots when bytes have been read into a buffer. */
    twostate lemma SlotsFed(bp: Buf)
      requires DistinctBufs(chain) && chain == old(chain)
      requires var k := FindSlot(old(Slots()), bp.block); k < |chain| && chain[k] == bp
      requires forall b: Buf :: b in chain ==> b.block == old(b.block) && (b != bp ==> b.datasize == old(b.datasize))
      ensures var k := FindSlot(old(Slots()), bp.block);
        k < |old(Slots())| && Slots() == old(Slots())[k := Slot(bp.block, bp.datasize)]
      ensures bp.datasize == old(bp.datasize) ==> Slots() == old(Slots())
    {
      var k := FindSlot(old(Slots()), bp.block);
      forall i | 0 <= i < |chain|
        ensures Slots()[i] == old(Slots())[k := Slot(bp.block, bp.datasize)][i]
      {
        assert chain[i] in chain;
      }
    }

    /** Make a buffer the most recently used, and take the character if it is there by now. */
    method TakeChar(bp: Buf) returns (done: bool, c: int)
      requires Valid() && nbufs >= 1 && bp in chain && bp.block == block
      modifies `chain, anchor`next, anchor`prev, chain`next, chain`prev
      ensures Valid() && done == (offset < bp.datasize) && bp.datasize <= BUFSIZ
      ensures done ==> c == CharAt(content, Tell()) && Tell() < |content| && (ispipe && Sure() ==> Tell() < fpos)
      ensures Sure() == old(Sure())
      ensures PipeSlots.Buffered(old(Slots()), block)
      ensures Now() == old(Now()).(slots := ToFront(old(Slots()), old(FindSlot(Slots(), block))))
      ensures Raised(old(chain), chain, bp) && (bp == old(chain)[0] ==> chain == old(chain))
      ensures |chain| == |old(chain)| && bp == chain[0] && bp in chain
      ensures forall b: Buf :: b in old(chain) ==> b in chain
    {
      hide Ring, Pool, Coherent, Kept, Raised, Entire, Slots, ToFront, SlotsOf;
      BlockIsBuffered(bp);
      TailIsLast();
      HeadIsFirst();
      SameOrder(chain, bp);
      SlotOfBuf(bp);
      if anchor.next != bp {
        Touch(bp);
      } else {
        FrontOfFirst(Slots());
      }
      BlockIsBuffered(bp);
      BufferHolds(bp);
      BufferedIsRead(bp);
      done := offset < bp.datasize;
      c := if done then bp.data[offset] else EOI;
    }

    /** A read has put the character, and perhaps some behind it, into the buffer that is to come to the front. */
    ghost predicate Poured(was: Shot, now: Shot, blk: int) {
      && was.slots != [] && 0 <= was.fpos < |content| && Next(was, blk) > 0 && PipeSlots.Buffered(now.slots, blk)
      && now.(slots := ToFront(now.slots, FindSlot(now.slots, blk))) ==
           Shot(More(was.slots, blk, Next(was, blk)), was.fpos + Next(was, blk), was.fsize, was.made + 1)
    }

    /** Get more data into the buffer, and what that means for a pipe that may lose data. */
    method Feed(bp: Buf) returns (stop: bool, c: int)
      requires Valid() && nbufs >= 1 && bp in chain && bp.block == block && bp.datasize <= offset
      modifies `fpos, `fsize, `readCount, `sigs, bp`datasize, bp.data
      ensures Valid() && Stepped()
      ensures stop ==> Reads(c, Tell(), old(readCount), old(Sure()))
      ensures stop ==> c == EOI || (c == QUESTION as int && !old(Sure()))
      ensures !stop ==> Quiet(old(readCount), readCount)
      ensures !stop ==> bp.datasize > old(bp.datasize) || (fsize != NULL_POSITION && old(fsize) == NULL_POSITION)
      ensures bp.datasize >= old(bp.datasize) && (old(fsize) != NULL_POSITION ==> fsize == old(fsize))
      ensures old(Settled()) ==> stop && Answered(old(Now()), c, block, offset)
      ensures old(Supply()) ==> !stop && Poured(old(Now()), Now(), block) && offset < bp.datasize && Tell() == old(fpos)
      ensures ispipe && old(fsize) != NULL_POSITION && old(fsize) <= block * BUFSIZ ==> c == EOI && stop
    {
      hide Ring, Pool, Coherent, Kept, Sure, Slots, SlotsOf, ToFront, Located, Entire, FileState.Buffered, Quiet,
        FindSlot, DistinctBufs, Reads;
      PoolDistinct();
      SlotOfBuf(bp);
      LocatedThere(Slots(), block);
      stop, c := ReadMore(bp);
      SlotsFed(bp);
      MoreThere(old(Slots()), block, bp.datasize - old(bp.datasize));
    }

    /** Read into the buffer if need be, make it the most recently used, and take the character. */
    method TryBuffer(bp: Buf) returns (done: bool, c: int)
      requires Valid() && nbufs >= 1 && bp in chain && bp.block == block
      modifies `fpos, `fsize, `readCount, `sigs, `chain, bp`datasize, bp.data,
        anchor`next, anchor`prev, chain`next, chain`prev
      ensures Valid() && Stepped()
      ensures done ==> Reads(c, Tell(), old(readCount), old(Sure()))
      ensures !done ==> Quiet(old(readCount), readCount) && bp in chain && bp.block == block
      ensures !done ==> bp.datasize > old(bp.datasize) || (fsize != NULL_POSITION && old(fsize) == NULL_POSITION)
      ensures !done ==> old(bp.datasize) <= bp.datasize <= BUFSIZ
      ensures old(fsize) != NULL_POSITION ==> fsize == old(fsize)
      ensures old(Settled()) ==> done && Answered(old(Now()), c, block, offset)
      ensures old(Supply()) ==> done && Supplied(old(Now()), c, block)
      ensures Raised(old(chain), chain, bp) && (bp == old(chain)[0] ==> chain == old(chain))
      ensures |chain| == |old(chain)| && (bp == chain[0] || chain == old(chain))
      ensures forall b: Buf :: b in old(chain) ==> b in chain
      ensures bp == chain[0] || (done && (c == EOI || (c == QUESTION as int && !old(Sure()))))
      ensures forall b: Buf :: b in old(chain) ==> b.block == old(b.block)
      ensures ispipe && old(fsize) != NULL_POSITION && old(fsize) <= block * BUFSIZ ==> c == EOI && done
    {
      hide Ring, Pool, Coherent, Kept, Raised, Sure, Slots, SlotsOf, ToFront, Located, Entire, FileState.Buffered,
        Quiet, FindSlot, DistinctBufs, Reads, More, Settled, Supply, Answered, Supplied, Poured, FileState.Valid,
        Size, Front, Got, CharAt, Bare;
      ValidBasics();
      SameOrder(chain, bp);
      QuietNow();
      ShortBuffer(bp);
      ghost var was := Now();
      if offset >= bp.datasize {
        done, c := Feed(bp);
        if done {
          return;
        }
      }
      ghost var now := Now();
      done, c := TakeChar(bp);
      Taken(c, old(readCount), old(Sure()));
      TakenAnswers(was, c);
      TakenSupplies(was, now, c);
    }

    /** Where the pipe is read on the buffer does not have the character yet. */
    lemma ShortBuffer(bp: Buf)
      requires Valid() && bp in chain && bp.block == block
      ensures Supply() ==> offset == bp.datasize && Tell() == fpos
      ensures offset < bp.datasize ==> offset < Size(Now().slots, block) && Now().slots != []
    {
      hide Ring, Pool, Coherent, Kept, Entire;
      SlotOfBuf(bp);
    }

    lemma TakenAnswers(was: Shot, c: int)
      requires Valid()
      ensures
        && was.slots != [] && offset < Size(was.slots, block) && Tell() < |content| && c == CharAt(content, Tell())
        && Now() == was.(slots := ToFront(was.slots, FindSlot(was.slots, block)))
        ==> Answered(was, c, block, offset)
    {
    }

    lemma ValidBasics()
      requires Valid()
      ensures Pool() && |chain| == nbufs && Position()
    {
    }

    lemma TakenSupplies(was: Shot, now: Shot, c: int)
      ensures
        && Poured(was, now, block) && c == CharAt(content, was.fpos)
        && Now() == now.(slots := ToFront(now.slots, FindSlot(now.slots, block)))
        ==> Supplied(was, c, block)
    {
    }

    lemma ReadsSince(c: int, pos: int, from: nat, mid: nat, sure: bool, was: bool)
      requires from <= mid <= readCount && (sure ==> was)
      ensures Reads(c, pos, mid, was) ==> Reads(c, pos, from, sure)
    {
    }

    /** The file's own character is right in any case. */
    lemma Taken(c: int, from: nat, sure: bool)
      ensures c == CharAt(content, Tell()) && (ispipe && sure ==> Tell() < fpos) ==> Reads(c, Tell(), from, sure)
    {
    }

    /** Finding a buffer changes nothing of what a read then gives. */
    lemma FoundSame(was: Shot, blk: int, off: int)
      requires Whole(was.slots, was.fpos, content) && blk >= 0 && off >= 0
      ensures var mid := was.(slots := Located(was.slots, blk));
        && AtEnd(mid.slots, mid.fpos, blk) == AtEnd(was.slots, was.fpos, blk)
        && Decided(mid.slots, mid.fpos, blk, off) == Decided(was.slots, was.fpos, blk, off)
        && Size(mid.slots, blk) == Size(was.slots, blk)
    {
      LocatedSame(was.slots, was.fpos, content, blk, off);
    }

    lemma FoundAnswers(was: Shot, blk: int, off: int, c: int)
      requires Whole(was.slots, was.fpos, content) && blk >= 0 && off >= 0
      ensures var mid := was.(slots := Located(was.slots, blk));
        && (Answered(mid, c, blk, off) ==> Answered(was, c, blk, off))
        && (Supplied(mid, c, blk) ==> Supplied(was, c, blk))
    {
      LocatedSame(was.slots, was.fpos, content, blk, off);
    }

    /**
     * The character at the read pointer, reading the file as needed.  Unless a read is
     * interrupted or data has been lost, it is exactly the file's character or EOI; the "?" for
     * lost pipe data is never given while automatic buffers are on.
     */
    method FchGet() returns (c: int)
      requires Valid() && nbufs >= 1
      modifies repr
      ensures Valid() && fresh(repr - old(repr)) && Stepped() && Reads(c, Tell(), old(readCount), old(Sure()))
      ensures old(fsize) != NULL_POSITION ==> fsize == old(fsize)
      ensures old(Settled()) ==> Answered(old(Now()), c, block, offset)
      ensures old(Supply()) ==> Supplied(old(Now()), c, block)
      ensures ispipe && old(fsize) != NULL_POSITION && old(fsize) <= block * BUFSIZ ==> c == EOI
      ensures Aged() && (chain[0].block == block || c == EOI || (c == QUESTION as int && !old(Sure())))
      ensures forall b: Buf :: b in old(chain) && (old(Buffered(block)) || b != old(chain)[|old(chain)| - 1]) ==>
        b.block == old(b.block)
    {
      hide Ring, Pool, Coherent, Kept, Grown, Raised, Moved, Extended, Sure, Lost, Entire, Slots, SlotsOf, Located,
        Decided, AtEnd, Size, Answered, Supplied, FileState.Buffered, Quiet, DistinctBufs, Reads;
      TailIsLast();
      QuietNow();
      ghost var settled, supply := Settled(), Supply();
      ghost var was := Now();
      if settled || supply {
        SlotsWhole();
        FoundSame(was, block, offset);
      }
      var bp := Locate();
      ghost var mid := Now();
      BlockIsBuffered(bp);
      ghost var chain1 := chain;
      PoolDistinct();
      SameOrder(chain, bp);
      var done := false;
      c := EOI;
      BufferHolds(bp);
      while !done
        invariant Valid() && fresh(repr - old(repr)) && Stepped()
        invariant done ==> Reads(c, Tell(), old(readCount), old(Sure()))
        invariant !done ==> Quiet(old(readCount), readCount) && bp in chain && bp.datasize <= BUFSIZ
        invariant Raised(chain1, chain, bp) && chain != [] && (chain == chain1 || bp == chain[0])
        invariant old(fsize) != NULL_POSITION ==> fsize == old(fsize)
        invariant !done && (settled || supply) ==> Now() == mid && Bare()
        invariant done && settled ==> Answered(mid, c, block, offset)
        invariant done && supply ==> Supplied(mid, c, block)
        invariant done && ispipe && old(fsize) != NULL_POSITION && old(fsize) <= block * BUFSIZ ==> c == EOI
        invariant done ==> bp == chain[0] || c == EOI || (c == QUESTION as int && !old(Sure()))
        invariant bp.block == block && forall b: Buf :: b in old(chain) ==> b in chain
        invariant forall b: Buf :: b in old(chain) && (old(Buffered(block)) || b != old(chain)[|old(chain)| - 1]) ==>
          b.block == old(b.block)
        decreases !done, BUFSIZ - bp.datasize, fsize == NULL_POSITION
      {
        PoolOwns();
        ghost var from, sure := readCount, Sure();
        done, c := TryBuffer(bp);
        QuietJoin(old(readCount), from);
        ReadsSince(c, Tell(), old(readCount), from, old(Sure()), sure);
      }
      GrownThenRaised(old(chain), chain1, chain, bp);
      if settled || supply {
        FoundAnswers(was, block, offset, c);
      }
    }

    lemma PoolDistinct()
      requires Pool()
      ensures DistinctBufs(chain)
    {
    }

    /** The macro `ch_get`: the head buffer is tried first. */
    method ChGet() returns (c: int)
      requires Valid() && nbufs >= 1
      modifies repr
      ensures Valid() && fresh(repr - old(repr)) && Stepped() && Reads(c, Tell(), old(readCount), old(Sure()))
      ensures old(fsize) != NULL_POSITION ==> fsize == old(fsize)
      ensures old(Settled()) ==> Answered(old(Now()), c, block, offset)
      ensures old(Supply()) ==> Supplied(old(Now()), c, block)
      ensures ispipe && old(fsize) != NULL_POSITION && old(fsize) <= block * BUFSIZ ==> c == EOI
    {
      hide Ring, Pool, Coherent, Kept, Entire, Slots, SlotsOf, ToFront, Located;
      TailIsLast();
      HeadIsFirst();
      var head := anchor.next;
      BufferHolds(head);
      BufferedIsRead(head);
      if block == head.block && offset < head.datasize {
        BlockIsBuffered(head);
        SlotOfBuf(head);
        FrontOfFirst(Slots());
        c := head.data[offset];
      } else {
        c := FchGet();
      }
    }

    lemma HeadIsFirst()
      requires Pool() && nbufs >= 1
      ensures |chain| == nbufs && anchor.next == chain[0] && anchor.next in chain
    {
      RingAt(-1);
    }

    /** Whether a block is in one of the buffers. */
    method IsBuffered(blk: int) returns (r: bool)
      requires Pool()
      ensures r == Buffered(blk)
    {
      var bp, k := FindBuf(blk);
      r := bp != anchor;
    }

    /** Whether the read pointer can be set to `pos`. */
    ghost predicate CanSeek(pos: int)
      reads `fpos, `fsize, `chain, chain`block
    {
      && 0 <= pos && (fsize != NULL_POSITION ==> pos <= fsize)
      && (ispipe ==> pos == fpos || Buffered(pos / BUFSIZ))
    }

    /** Reading from `pos` on is possible and nothing has been lost there. */
    ghost predicate Readable(pos: int)
      reads `intact, `fpos, `fsize, `chain, chain`block
    {
      CanSeek(pos) && (Lossless() || Reachable(pos))
    }

    /** What is buffered of a pipe, and the place to read it on, can be gone to. */
    lemma SeekSlot(pos: int)
      requires Valid() && Bare() && pos >= 0
      ensures pos == fpos || PipeSlots.Buffered(Slots(), pos / BUFSIZ) ==> CanSeek(pos)
    {
      hide Ring, Pool, Coherent, Kept, Entire;
      if !Buffered(pos / BUFSIZ) {
        NoSlot(pos / BUFSIZ);
      }
    }

    /** The read pointer is in the block of its position. */
    lemma AtPosition()
      requires Valid()
      ensures Tell() >= 0 && block == Tell() / 1024 && offset == Tell() % 1024
    {
    }

    /** Set the read pointer to a position that can be read. */
    method Point(pos: int)
      requires Valid() && CanSeek(pos)
      modifies `block, `offset
      ensures Valid() && Tell() == pos && (old(Readable(pos)) ==> Sure())
    {
      hide Ring, Pool, Coherent;
      block, offset := pos / BUFSIZ, pos % BUFSIZ;
    }

    /** Set the read pointer; true means it cannot be set there, and it is left alone. */
    method ChSeek(pos: int) returns (failed: bool)
      requires Valid()
      modifies `block, `offset
      ensures Valid() && failed == !CanSeek(pos) && (!failed ==> 0 <= pos)
      ensures if failed then block == old(block) && offset == old(offset) else Tell() == pos
      ensures old(Readable(pos)) ==> Sure()
    {
      hide Ring, Pool, Coherent, Kept, Position, Sure;
      if pos < 0 || (fsize != NULL_POSITION && pos > fsize) {
        return true;
      }
      if ispipe && pos != fpos {
        var there := IsBuffered(pos / BUFSIZ);
        if !there {
          return true;
        }
      }
      Point(pos);
      return false;
    }

    /** Whatever is reachable can be returned to; as long as nothing is lost, that is everything that has been read. */
    lemma SeekBack(pos: int)
      requires Valid()
      ensures Reachable(pos) ==> Readable(pos)
      ensures !ispipe ==> (CanSeek(pos) <==> 0 <= pos <= |content|)
      ensures CanSeek(pos) && fsize != NULL_POSITION ==> 0 <= pos <= |content|
      ensures CanSeek(pos) && ispipe ==> pos == fpos || exists b: Buf :: b in chain && b.block == pos / BUFSIZ
      ensures Lossless() ==> (Reachable(pos) <==> 0 <= pos && if ispipe then pos <= fpos else pos <= |content|)
    {
    }

    /** As long as nothing is lost, nothing is lost at the read pointer. */
    lemma ReachableInFile(pos: int)
      requires Valid() && Reachable(pos)
      ensures 0 <= pos <= |content|
    {
    }

    lemma StartIsReachable()
      requires Valid() && Lossless()
      ensures Reachable(0)
    {
    }

    /** While buffers are allocated automatically nothing gets lost. */
    lemma AutoIsLossless()
      requires Valid()
      ensures ispipe && autobuf ==> Lossless()
    {
    }

    lemma LosslessIsSure()
      requires Valid()
      ensures Lossless() ==> Sure()
      ensures ispipe ==> intact >= 0
    {
    }

    /** Step over a character that is not EOI. */
    method Advance(ghost sure: bool)
      requires Valid() && nbufs >= 1 && (Lossless() ==> sure)
      requires sure ==> Sure() && if ispipe then Tell() < fpos else Tell() < |content|
      modifies `block, `offset
      ensures Valid() && Tell() == old(Tell()) + 1
      ensures sure ==> Sure() && Reachable(Tell() - 1) && Reachable(Tell())
      ensures if old(offset) + 1 < BUFSIZ then block == old(block) && offset == old(offset) + 1
              else block == old(block) + 1 && offset == 0
    {
      hide Ring, Pool, Coherent, Entire;
      if offset < BUFSIZ - 1 {
        offset := offset + 1;
      } else {
        block := block + 1;
        offset := 0;
      }
    }

    /** Get the character at the read pointer and step over it. */
    method ChForwGet() returns (c: int)
      requires Valid() && nbufs >= 1
      modifies repr
      ensures Valid() && nbufs >= 1 && fresh(repr - old(repr)) && -1 <= c < 256
      ensures Reads(c, old(Tell()), old(readCount), old(Sure())) && Ran() && Onward()
      ensures Tell() == old(Tell()) + if c == EOI then 0 else 1
      ensures old(Sure()) ==> Sure() && (!sigs ==> c == CharAt(content, old(Tell())))
      ensures old(Sure()) && (c != EOI || old(Reachable(Tell()))) ==> Reachable(Tell())
      ensures old(Sure()) && c != EOI ==> Reachable(Tell() - 1)
      ensures old(Settled()) ==> Answered(old(Now()), c, old(block), old(offset))
      ensures old(Supply()) ==> Supplied(old(Now()), c, old(block))
      ensures old(SkipEndsAt(Tell())) && c != NEWLINE as int && c != EOI ==>
        SkipEndsAt(Tell()) && old(Tell()) < |content| + BUFSIZ
      ensures !old(SkipEndsAt(Tell())) ==>
        c != NEWLINE as int && c != EOI && !SkipEndsAt(Tell()) && fpos == old(fpos) && fsize == NULL_POSITION
      ensures old(Lost()) ==> c == QUESTION as int && Lost()
    {
      hide Ring, Pool, Coherent, Kept, Entire, Slots, SlotsOf, SkipEnds, Fetched, SkipEndsAt, Given, Size, AtEnd,
        Decided, DistinctBufs;
      LosslessIsSure();
      AutoIsLossless();
      ReadSkips();
      ghost var sure := Sure();
      c := ChGet();
      if c != EOI {
        Advance(sure);
      }
      SkipHere();
      SureSkips();
    }

    /**
     * Go to the end: at once where the size is known, else by reading on, which gives the rest of
     * the file, character by character.  A signal can stop it before the end.
     */
    method ChEndSeek() returns (failed: bool, ghost got: seq<byte>)
      requires Valid() && nbufs >= 1 && (fsize == NULL_POSITION ==> Sure() && Reachable(Tell()))
      modifies repr
      ensures Valid() && nbufs >= 1 && fresh(repr - old(repr)) && Onward()
      ensures old(fsize) != NULL_POSITION || !sigs ==> !failed && Tell() == |content|
      ensures old(fsize) == NULL_POSITION ==>
        old(Tell()) <= Tell() <= |content| && got == content[old(Tell())..Tell()] && Sure()
    {
      hide Ring, Pool, Coherent, Kept, Entire, Sure, SkipEndsAt, Settled, Supply, Answered, Supplied, Quiet;
      got, failed := [], false;
      if fsize != NULL_POSITION {
        failed := ChSeek(fsize);
        return;
      }
      ReachableInFile(Tell());
      PoolOwns();
      while true
        invariant Valid() && nbufs >= 1 && fresh(repr - old(repr)) && Onward() && Sure() && Reachable(Tell())
        invariant old(Tell()) <= Tell() <= |content| && got == content[old(Tell())..Tell()] && !failed
        decreases |content| - Tell()
      {
        ghost var pos := Tell();
        var c := ChForwGet();
        if c == EOI {
          return;
        }
        ReachableInFile(Tell());
        assert content[old(Tell())..pos + 1] == content[old(Tell())..pos] + [content[pos]];
        got := got + [c];
        if sigs {
          return true, got;
        }
      }
    }

    /** Whether looking for a newline from the read pointer ends. */
    lemma SkipHere()
      requires Valid() && nbufs >= 1
      ensures SkipEndsAt(Tell()) == (Bare() ==> SkipEnds(Slots(), fpos, content, block, offset))
    {
      hide SkipEnds, Ring, Kept, Entire, Coherent;
      TailIsLast();
    }

    /**
     * Looking for a newline ends exactly when the place to read the pipe on will still be there,
     * or a newline before it will.
     */
    lemma SkipEndsWhen(pos: int)
      requires Valid() && nbufs >= 1 && Bare() && pos >= 0
      ensures SkipEndsAt(pos) <==>
        || FrontierKept(Slots(), fpos, pos / BUFSIZ)
        || Meets(Slots(), fpos, content, pos / BUFSIZ, pos)
    {
      hide SkipEnds, Ring, Kept, Entire, Coherent, FrontierKept, Meets;
      TailIsLast();
      SlotsWhole();
      SkipEndsIff(Slots(), fpos, content, pos / BUFSIZ, pos % BUFSIZ);
    }

    /** Where nothing has been lost a newline or the end is found. */
    lemma SureSkips()
      requires Valid() && nbufs >= 1
      ensures Sure() ==> SkipEndsAt(Tell())
    {
      hide SkipEnds, Ring, Entire, Coherent, Whole;
      SkipHere();
      if Bare() && Sure() {
        SlotsWhole();
        SkipEndsIff(Slots(), fpos, content, block, offset);
        forall b: int | block <= b && b * BUFSIZ < fpos
          ensures PipeSlots.Buffered(Slots(), b) && Size(Slots(), b) > 0
        {
          assert Buffered(b);
          var bp: Buf :| bp in chain && bp.block == b;
          SlotOfBuf(bp);
        }
        assert FirstGap(Slots(), block, fpos / BUFSIZ) == fpos / BUFSIZ;
      }
    }

    /** What the character at the read pointer means for the search for a newline. */
    lemma ReadSkips()
      requires Valid() && nbufs >= 1
      ensures var v := Slots(); var c := Given(v, content, block, offset);
        && (Lost() ==> Settled() && c == QUESTION as int)
        && (!SkipEndsAt(Tell()) ==> Settled() && c != NEWLINE as int)
        && (Settled() && c != NEWLINE as int ==>
              SkipEndsAt(Tell()) == SkipEndsNext(Fetched(v, block, offset), fpos, content, block, offset))
        && (Bare() && !Settled() ==> Sure())
        && (ispipe && SkipEndsAt(Tell()) && fsize == NULL_POSITION ==> block * BUFSIZ <= |content|)
    {
      hide Ring, Coherent, Whole;
      SkipHere();
      if ispipe {
        SlotsWhole();
        if Settled() && Given(Slots(), content, block, offset) != NEWLINE as int {
          StepEnds(Slots(), fpos, content, block, offset);
        }
      }
    }

    /** Nothing has been lost and no signal is pending: what was read is exact. */
    ghost predicate Clean()
      reads `intact, `sigs
    {
      Lossless() && !sigs
    }

    /** Step back; false at the beginning, or where a pipe has lost what is before. */
    method Retreat() returns (ok: bool)
      requires Valid()
      modifies `block, `offset
      ensures Valid() && Tell() == old(Tell()) - (if ok then 1 else 0) && (ok ==> Tell() >= 0)
      ensures old(Lossless()) || old(Reachable(Tell()) && Reachable(Tell() - 1)) ==>
        ok == (old(Tell()) > 0) && (ok ==> Sure() && (ispipe ==> Buffered(block)))
    {
      hide Ring, Pool, Coherent;
      if offset == 0 {
        if block <= 0 {
          return false;
        }
        if ispipe {
          var there := IsBuffered(block - 1);
          if !there {
            return false;
          }
        }
      }
      StepDown();
      return true;
    }

    /** Decrement the read pointer. */
    method StepDown()
      requires Valid() && Tell() > 0 && (offset == 0 && ispipe ==> Buffered(block - 1))
      modifies `block, `offset
      ensures Valid() && Tell() == old(Tell()) - 1
      ensures block == old(block) - (if old(offset) == 0 then 1 else 0)
    {
      hide Ring, Pool, Coherent;
      if offset > 0 {
        offset := offset - 1;
      } else {
        block := block - 1;
        offset := BUFSIZ - 1;
      }
    }

    /**
     * Step back and get the character there; EOI, without a step, at the beginning.  What can
     * be reached again is read without giving up any buffer.
     */
    method ChBackGet() returns (c: int)
      requires Valid() && nbufs >= 1
      modifies repr
      ensures Valid() && nbufs >= 1 && fresh(repr - old(repr)) && Ran() && Onward() && -1 <= c < 256
      ensures 0 <= Tell() && (Tell() == old(Tell()) - 1 || (c == EOI && Tell() == old(Tell())))
      ensures Tell() == old(Tell()) - 1 ==> Reads(c, Tell(), old(readCount), false)
      ensures old(Lossless()) || old(Reachable(Tell()) && Reachable(Tell() - 1)) ==>
        && Tell() == Max(0, old(Tell()) - 1) && (ispipe ==> intact == old(intact))
        && (!sigs ==> c == CharAt(content, old(Tell()) - 1))
        && (c != EOI ==> Reachable(Tell()) && Reachable(Tell() + 1))
    {
      hide Ring, Pool, Coherent, Kept;
      TellAtLeastZero();
      PoolOwns();
      var ok := Retreat();
      if !ok {
        return EOI;
      }
      c := ChGet();
    }

    lemma TellAtLeastZero()
      requires Valid()
      ensures Tell() >= 0
    {
    }

    /** Have at least `want` buffers; `quit` when there are none at all. */
    method ChNbuf(want: int) returns (n: int, quit: bool)
      requires Valid()
      modifies repr
      ensures Valid() && fresh(repr - old(repr)) && Tell() == old(Tell()) && fpos == old(fpos) && intact == old(intact)
      ensures forall b: Buf :: b in old(chain) ==> b in chain && b.block == old(b.block)
      ensures n == nbufs >= old(nbufs) && (quit <==> n == 0 && want > 0)
      ensures n == Max(old(nbufs), if old(nbufs) < want && !kernel.allocs(old(allocCount)) then old(nbufs) else want)
      ensures |old(chain)| <= |chain| == nbufs && chain[..|old(chain)|] == old(chain)
      ensures forall i :: |old(chain)| <= i < |chain| ==> chain[i].block == -1 && chain[i].datasize == 0
      ensures autobuf == old(autobuf) && fsize == old(fsize) && readCount == old(readCount) && sigs == old(sigs)
    {
      hide Ring, Pool, Coherent, Kept, Entire;
      PoolOwns();
      TailOrNone();
      quit := false;
      if nbufs < want {
        var failed, added := ChAddBuf(want - nbufs);
        quit := failed && nbufs == 0;
      }
      n := nbufs;
      TailOrNone();
    }

    lemma TailOrNone()
      requires Pool()
      ensures |chain| == nbufs
    {
    }

    /** Mark every buffer as empty. */
    method ClearBlocks()
      requires Pool() && Coherent()
      modifies chain`block
      ensures Coherent() && forall b: Buf :: b in chain ==> b.block == -1
    {
      hide Ring;
      RingAt(-1);
      var bp := anchor.next;
      ghost var k := 0;
      while bp != anchor
        modifies chain`block
        invariant k <= |chain| && bp == At(anchor, chain, k) && (bp == anchor <==> k == |chain|)
        invariant forall i :: 0 <= i < k ==> chain[i].block == -1
        decreases |chain| - k
      {
        RingAt(k);
        bp.block := -1;
        bp, k := bp.next, k + 1;
      }
    }

    /** Forget the saved state of the file; the contents of a pipe are kept. */
    method ChFlush()
      requires Valid()
      modifies repr
      ensures Valid() && repr == old(repr) && nbufs == old(nbufs)
      ensures ispipe ==> fsize == NULL_POSITION && Tell() == old(Tell()) && fpos == old(fpos)
      ensures ispipe ==> forall blk: int :: Buffered(blk) == old(Buffered(blk))
      ensures ispipe ==> intact == old(intact) && autobuf == old(autobuf) && Slots() == old(Slots())
      ensures chain == old(chain) && readCount == old(readCount) && allocCount == old(allocCount) && sigs == old(sigs)
      ensures !ispipe ==> fpos == Tell() == 0 && forall b: Buf :: b in chain ==> b.block == -1
    {
      hide Ring, Pool, Coherent, Buffered, Slots;
      PoolOwns();
      if ispipe {
        fsize := NULL_POSITION;
        return;
      }
      ClearBlocks();
      fsize := |content|;
      fpos, block, offset := 0, 0, 0;
    }
  }
}
