/**
 * What reading on in a pipe can still reach: the buffers of archie/less/ch.c as a list of block
 * numbers and sizes, most recently used first, for a pipe without automatic buffers.
 *
 * Such a pipe loses the block that a buffer is taken from, and can be read on only behind the
 * last byte it gave.  `SkipEnds` follows the code from block to block looking for a newline;
 * `SkipEndsIff` says without following it when the code gets there.
 */
module PipeSlots {
  import opened Bytes

  const BUFSIZ := 1024
  const QUESTION: byte := 63

  /** A buffer: its block, -1 for none, and how much of it is there. */
  datatype Slot = Slot(block: int, size: nat)

  /** The first slot of a block, or the number of slots. */
  function FindSlot(v: seq<Slot>, blk: int): (i: nat)
    ensures i <= |v| && (i < |v| ==> v[i].block == blk)
    ensures forall j :: 0 <= j < i ==> v[j].block != blk
  {
    if v == [] || v[0].block == blk then 0 else 1 + FindSlot(v[1..], blk)
  }

  predicate Buffered(v: seq<Slot>, blk: int) {
    FindSlot(v, blk) < |v|
  }

  /** How much of a block is buffered. */
  function Size(v: seq<Slot>, blk: int): nat {
    if Buffered(v, blk) then v[FindSlot(v, blk)].size else 0
  }

  function ToFront(v: seq<Slot>, i: nat): seq<Slot>
    requires i < |v|
  {
    [v[i]] + v[..i] + v[i + 1..]
  }

  /** The slots after a block is asked for: the last one is taken for a block that has none. */
  function Located(v: seq<Slot>, blk: int): seq<Slot>
    requires v != []
  {
    if Buffered(v, blk) then v else v[|v| - 1 := Slot(blk, 0)]
  }

  lemma LocatedThere(v: seq<Slot>, blk: int)
    requires v != [] && Buffered(v, blk)
    ensures Located(v, blk) == v
  {
  }

  /** The slots after a character is asked for without reading the file: one that has it comes to the front. */
  function Fetched(v: seq<Slot>, blk: int, off: nat): (w: seq<Slot>)
    requires v != []
    ensures w != []
  {
    if off < Size(v, blk) then ToFront(v, FindSlot(v, blk)) else Located(v, blk)
  }

  /** The slots after `n` bytes have been read on into a block, which comes to the front. */
  function More(v: seq<Slot>, blk: int, n: nat): (w: seq<Slot>)
    requires v != []
    ensures w != []
  {
    var u := Located(v, blk);
    var i := FindSlot(u, blk);
    if i < |u| then ToFront(u[i := Slot(blk, u[i].size + n)], i) else u
  }

  lemma FrontOfFirst(v: seq<Slot>)
    requires v != []
    ensures ToFront(v, 0) == v
  {
  }

  lemma MoreThere(v: seq<Slot>, blk: int, n: nat)
    requires Buffered(v, blk)
    ensures var i := FindSlot(v, blk); var w := v[i := Slot(blk, v[i].size + n)];
      FindSlot(w, blk) == i && More(v, blk, n) == ToFront(w, i)
  {
    hide FindSlot;
    var i := FindSlot(v, blk);
    var w := v[i := Slot(blk, v[i].size + n)];
    assert w[i].block == blk && forall j :: 0 <= j < i ==> w[j].block == v[j].block != blk;
  }

  /**
   * A block that has the character asked for comes before all others, which keep their order.  For
   * one that has no buffer the last is taken, and the block in it is lost.
   */
  lemma RecentFirst(v: seq<Slot>, blk: int, off: nat)
    requires v != []
    ensures var w, i := Fetched(v, blk, off), FindSlot(v, blk);
      && (Buffered(v, blk) && off < v[i].size ==> w[0] == v[i] && w[1..] == v[..i] + v[i + 1..])
      && (Buffered(v, blk) && off >= v[i].size ==> w == v)
      && (!Buffered(v, blk) ==> w == v[..|v| - 1] + [Slot(blk, 0)])
  {
  }

  /** The slots after blocks have been read into, one after the other. */
  function Used(v: seq<Slot>, blks: seq<int>): (w: seq<Slot>)
    requires v != []
    ensures w != []
  {
    if blks == [] then v else More(Used(v, blks[..|blks| - 1]), blks[|blks| - 1], 1)
  }

  /** As many blocks as there are buffers stay, the last used first. */
  lemma {:induction false} LastUsedStay(v: seq<Slot>, blks: seq<int>)
    requires |blks| <= |v| && v != [] && forall i, j :: 0 <= i < j < |blks| ==> blks[i] != blks[j]
    ensures |Used(v, blks)| == |v|
    ensures forall k :: 0 <= k < |blks| ==> Used(v, blks)[k].block == blks[|blks| - 1 - k]
    decreases |blks|
  {
    hide More;
    if blks != [] {
      var m := |blks| - 1;
      LastUsedStay(v, blks[..m]);
      MoreComesFirst(Used(v, blks[..m]), blks[m], 1, m);
    }
  }

  /** Reading into a block that is not in the first `m` slots moves these back by one. */
  lemma MoreComesFirst(w: seq<Slot>, blk: int, n: nat, m: nat)
    requires m < |w| && forall k :: 0 <= k < m ==> w[k].block != blk
    ensures var x := More(w, blk, n);
      |x| == |w| && x[0].block == blk && forall k :: 0 < k <= m ==> x[k] == w[k - 1]
  {
    var u := Located(w, blk);
    assert !Buffered(w, blk) ==> u[|u| - 1].block == blk;
    var i := FindSlot(u, blk);
    assert m <= i < |u|;
    assert forall k :: 0 <= k < m ==> u[k] == w[k];
  }

  /** What a read gives when the file is not read. */
  function Given(v: seq<Slot>, t: seq<byte>, blk: int, off: nat): (c: int)
    ensures 0 <= c < 256
  {
    if off < Size(v, blk) && 0 <= blk * BUFSIZ + off < |t| then t[blk * BUFSIZ + off] else QUESTION
  }

  /** What is buffered of the block ends where the file is positioned: it can be read on. */
  predicate AtEnd(v: seq<Slot>, fpos: int, blk: int) {
    blk * BUFSIZ + Size(v, blk) == fpos
  }

  /** Every slot is empty or holds all that was read of its block, and no block is in two. */
  ghost predicate Whole(v: seq<Slot>, fpos: int, t: seq<byte>) {
    && v != [] && 0 <= fpos <= |t|
    && (forall i :: 0 <= i < |v| && v[i].size > 0 ==> Full(v[i], fpos))
    && (forall i, j :: 0 <= i < j < |v| && v[i].block == v[j].block ==> v[i].block == -1)
  }

  predicate Full(s: Slot, fpos: int) {
    s.block >= 0 && s.size == Min(BUFSIZ, fpos - s.block * BUFSIZ)
  }

  predicate NewlineIn(t: seq<byte>, lo: int, hi: int) {
    exists k :: 0 <= lo <= k < hi && k < |t| && t[k] == NEWLINE
  }

  /**
   * Reading on from character `off` of block `blk` comes to a newline that is buffered, or to
   * where the file can be read on.  Otherwise it passes the end of what the pipe gave.
   */
  predicate SkipEnds(v: seq<Slot>, fpos: int, t: seq<byte>, blk: int, off: nat)
    requires v != []
    decreases if fpos < blk * BUFSIZ then 0 else fpos - blk * BUFSIZ + 1
  {
    && blk * BUFSIZ <= fpos
    && (|| NewlineIn(t, blk * BUFSIZ + off, blk * BUFSIZ + Size(v, blk))
        || AtEnd(v, fpos, blk)
        || SkipEnds(Fetched(v, blk, off), fpos, t, blk + 1, 0))
  }

  // ---------------------------------------------------------------- slots

  /** No two slots have the same block. */
  ghost predicate Apart(v: seq<Slot>) {
    forall i, j :: 0 <= i < j < |v| && v[i].block == v[j].block ==> v[i].block == -1
  }

  lemma SlotIs(v: seq<Slot>, i: nat)
    requires Apart(v) && i < |v| && v[i].block >= 0
    ensures FindSlot(v, v[i].block) == i && Buffered(v, v[i].block) && Size(v, v[i].block) == v[i].size
  {
    hide FindSlot;
  }

  /** Where slot `m` of the list stood before slot `i` came to the front. */
  function Before(i: nat, m: int): int {
    if m == 0 then i else if 1 <= m <= i then m - 1 else m
  }

  lemma FrontAt(v: seq<Slot>, i: nat, m: nat)
    requires i < |v| && m < |v|
    ensures |ToFront(v, i)| == |v| && 0 <= Before(i, m) < |v| && ToFront(v, i)[m] == v[Before(i, m)]
  {
  }

  lemma FrontApart(v: seq<Slot>, i: nat)
    requires i < |v| && Apart(v)
    ensures Apart(ToFront(v, i))
  {
    var w := ToFront(v, i);
    forall m, n | 0 <= m < n < |w| && w[m].block == w[n].block
      ensures w[m].block == -1
    {
      FrontAt(v, i, m);
      FrontAt(v, i, n);
    }
  }

  /** Coming to the front changes neither what is buffered nor how much of it. */
  lemma FrontSame(v: seq<Slot>, i: nat, blk: int)
    requires i < |v| && Apart(v) && blk >= 0
    ensures Buffered(ToFront(v, i), blk) == Buffered(v, blk) && Size(ToFront(v, i), blk) == Size(v, blk)
    ensures Buffered(v, blk) ==> Before(i, FindSlot(ToFront(v, i), blk)) == FindSlot(v, blk)
  {
    hide FindSlot;
    var w := ToFront(v, i);
    FrontApart(v, i);
    if Buffered(v, blk) {
      var k := FindSlot(v, blk);
      var m := if k == i then 0 else if k < i then k + 1 else k;
      FrontAt(v, i, m);
      SlotIs(w, m);
    } else if Buffered(w, blk) {
      FrontAt(v, i, FindSlot(w, blk));
    }
  }

  /** Taking the last slot for a block loses the block it held, and no other. */
  lemma TakenSame(v: seq<Slot>, blk: int, b: int)
    requires v != [] && Apart(v) && !Buffered(v, blk) && b >= 0 && blk >= 0
    ensures var w := v[|v| - 1 := Slot(blk, 0)];
      && Apart(w)
      && Buffered(w, b) == (b == blk || (Buffered(v, b) && FindSlot(v, b) < |v| - 1))
      && (b != blk && Buffered(w, b) ==> FindSlot(w, b) == FindSlot(v, b) && Size(w, b) == Size(v, b))
      && Size(w, blk) == 0
  {
    hide FindSlot;
    var w := v[|v| - 1 := Slot(blk, 0)];
    SlotIs(w, |v| - 1);
    if Buffered(w, b) && b != blk {
      SlotIs(v, FindSlot(w, b));
    }
    if Buffered(v, b) && FindSlot(v, b) < |v| - 1 {
      SlotIs(w, FindSlot(v, b));
    }
  }

  lemma FetchedWhole(v: seq<Slot>, fpos: int, t: seq<byte>, blk: int, off: nat)
    requires Whole(v, fpos, t) && blk >= 0
    ensures Whole(Fetched(v, blk, off), fpos, t)
    ensures Size(Fetched(v, blk, off), blk) == Size(v, blk)
  {
    hide FindSlot;
    if off < Size(v, blk) {
      var i := FindSlot(v, blk);
      FrontApart(v, i);
      FrontSame(v, i, blk);
      var w := ToFront(v, i);
      forall m | 0 <= m < |w| && w[m].size > 0
        ensures Full(w[m], fpos)
      {
        FrontAt(v, i, m);
      }
    } else if !Buffered(v, blk) {
      TakenSame(v, blk, blk);
    }
  }

  // ---------------------------------------------------------------- one character

  /** The read is decided by what is buffered: the file is not read. */
  predicate Decided(v: seq<Slot>, fpos: int, blk: int, off: nat) {
    AtEnd(v, fpos, blk) ==> off < Size(v, blk)
  }

  lemma FetchedTwice(v: seq<Slot>, fpos: int, t: seq<byte>, blk: int, off: nat)
    requires Whole(v, fpos, t) && blk >= 0
    ensures Fetched(Fetched(v, blk, off), blk, off + 1) == Fetched(v, blk, off)
  {
    hide FindSlot;
    var w := Fetched(v, blk, off);
    FetchedWhole(v, fpos, t, blk, off);
    if off < Size(v, blk) {
      SlotIs(w, 0);
      assert ToFront(w, 0) == w;
    } else if !Buffered(v, blk) {
      SlotIs(w, |w| - 1);
    }
  }

  /** Having found a slot for the block changes nothing of what the read gives and leaves. */
  lemma LocatedSame(v: seq<Slot>, fpos: int, t: seq<byte>, blk: int, off: nat)
    requires Whole(v, fpos, t) && blk >= 0
    ensures var w := Located(v, blk);
      && Located(w, blk) == w && Size(w, blk) == Size(v, blk) && Given(w, t, blk, off) == Given(v, t, blk, off)
      && AtEnd(w, fpos, blk) == AtEnd(v, fpos, blk) && Decided(w, fpos, blk, off) == Decided(v, fpos, blk, off)
      && Fetched(w, blk, off) == Fetched(v, blk, off) && forall n: nat :: More(w, blk, n) == More(v, blk, n)
  {
    hide FindSlot;
    if !Buffered(v, blk) {
      TakenSame(v, blk, blk);
    }
  }

  /** Reading on from the character behind this one ends. */
  predicate SkipEndsNext(v: seq<Slot>, fpos: int, t: seq<byte>, blk: int, off: nat)
    requires v != []
  {
    if off + 1 < BUFSIZ then SkipEnds(v, fpos, t, blk, off + 1) else SkipEnds(v, fpos, t, blk + 1, 0)
  }

  /** One read that gives no newline keeps whether reading on ends. */
  lemma StepEnds(v: seq<Slot>, fpos: int, t: seq<byte>, blk: int, off: nat)
    requires Whole(v, fpos, t) && blk >= 0 && off < BUFSIZ && Decided(v, fpos, blk, off)
    requires Given(v, t, blk, off) != NEWLINE as int
    ensures SkipEnds(v, fpos, t, blk, off) == SkipEndsNext(Fetched(v, blk, off), fpos, t, blk, off)
  {
    hide FindSlot;
    var w := Fetched(v, blk, off);
    FetchedWhole(v, fpos, t, blk, off);
    var lo, hi := blk * BUFSIZ + off, blk * BUFSIZ + Size(v, blk);
    assert NewlineIn(t, lo, hi) == NewlineIn(t, lo + 1, hi);
    if off + 1 < BUFSIZ {
      FetchedTwice(v, fpos, t, blk, off);
    } else if blk * BUFSIZ <= fpos && AtEnd(v, fpos, blk) {
      assert Size(w, blk + 1) == 0;
    }
  }

  // ---------------------------------------------------------------- the closed form

  /** The first block from `lo` on that is not buffered, if there is one before `hi`. */
  function FirstGap(v: seq<Slot>, lo: int, hi: int): (g: int)
    requires lo <= hi
    ensures lo <= g <= hi && (g < hi ==> !Buffered(v, g))
    ensures forall b :: lo <= b < g ==> Buffered(v, b)
    decreases hi - lo
  {
    if lo == hi || !Buffered(v, lo) then lo else FirstGap(v, lo + 1, hi)
  }

  /** Reading blocks `lo` to `hi` brings this slot to the front. */
  predicate Touched(s: Slot, lo: int, hi: int) {
    s.size > 0 && lo <= s.block < hi
  }

  /**
   * What is buffered of block `b` is still there when block after block has been read from
   * `blk` on: no block before it is missing, or the first one that is takes another's slot.
   */
  predicate Stays(v: seq<Slot>, blk: int, b: int)
    requires blk <= b
  {
    && Size(v, b) > 0
    && var g := FirstGap(v, blk, b);
       g == b || Spare(v, FindSlot(v, b), blk, g)
  }

  /** Behind slot `i` is one that reading blocks `lo` to `hi` does not bring to the front. */
  predicate Spare(v: seq<Slot>, i: nat, lo: int, hi: int) {
    exists j :: i < j < |v| && !Touched(v[j], lo, hi)
  }

  /** The pipe can be read on when block after block has been read from `blk` on. */
  predicate FrontierKept(v: seq<Slot>, fpos: int, blk: int) {
    && 0 <= blk * BUFSIZ <= fpos
    && (fpos % BUFSIZ == 0 || Stays(v, blk, fpos / BUFSIZ))
  }

  /** A newline that will still be there. */
  ghost predicate NewlineStays(v: seq<Slot>, fpos: int, t: seq<byte>, blk: int, k: int) {
    blk <= k / BUFSIZ && 0 <= k < fpos && k < |t| && t[k] == NEWLINE && Stays(v, blk, k / BUFSIZ)
  }

  lemma {:induction false} GapSame(v: seq<Slot>, w: seq<Slot>, lo: int, hi: int)
    requires lo <= hi && forall b :: lo <= b < hi ==> Buffered(v, b) == Buffered(w, b)
    ensures FirstGap(v, lo, hi) == FirstGap(w, lo, hi)
    decreases hi - lo
  {
    if lo < hi {
      GapSame(v, w, lo + 1, hi);
    }
  }

  lemma SpareFront(v: seq<Slot>, blk: int, b: int, g: int)
    requires Apart(v) && 0 <= blk < g <= b && Size(v, blk) > 0 && Buffered(v, b)
    ensures var w := ToFront(v, FindSlot(v, blk));
      Spare(v, FindSlot(v, b), blk, g) == Spare(w, FindSlot(w, b), blk + 1, g)
  {
    hide ToFront, FindSlot;
    var p := FindSlot(v, blk);
    var w := ToFront(v, p);
    FrontSame(v, p, b);
    var i, i' := FindSlot(v, b), FindSlot(w, b);
    FrontAt(v, p, 0);
    FrontAt(v, p, i');
    if j :| i < j < |v| && !Touched(v[j], blk, g) {
      var m := if j < p then j + 1 else j;
      FrontAt(v, p, m);
    }
    if m :| i' < m < |w| && !Touched(w[m], blk + 1, g) {
      FrontAt(v, p, m);
      var j := Before(p, m);
      SlotIs(v, p);
    }
  }

  /** Reading a block that is buffered: the same blocks stay. */
  lemma StaysFront(v: seq<Slot>, blk: int, b: int)
    requires Apart(v) && 0 <= blk < b && Size(v, blk) > 0
    ensures Stays(v, blk, b) == Stays(ToFront(v, FindSlot(v, blk)), blk + 1, b)
  {
    hide FindSlot;
    var p := FindSlot(v, blk);
    var w := ToFront(v, p);
    forall c | blk < c <= b
      ensures Buffered(v, c) == Buffered(w, c) && Size(v, c) == Size(w, c)
    {
      FrontSame(v, p, c);
    }
    GapSame(v, w, blk + 1, b);
    assert FirstGap(v, blk, b) == FirstGap(w, blk + 1, b);
    if Size(v, b) > 0 {
      SpareFront(v, blk, b, FirstGap(v, blk, b));
    }
  }

  /** Reading a block whose buffer is empty. */
  lemma StaysEmpty(v: seq<Slot>, blk: int, b: int)
    requires Apart(v) && 0 <= blk < b && Buffered(v, blk) && Size(v, blk) == 0
    ensures Stays(v, blk, b) == Stays(v, blk + 1, b)
  {
    hide FindSlot;
    var g := FirstGap(v, blk, b);
    assert g == FirstGap(v, blk + 1, b);
    forall j | 0 <= j < |v|
      ensures Touched(v[j], blk, g) == Touched(v[j], blk + 1, g)
    {
      if v[j].block == blk {
        SlotIs(v, j);
      }
    }
  }

  /** Asking for a block that is missing: only what is in the last slot is lost, then and later. */
  lemma StaysTaken(v: seq<Slot>, blk: int, b: int)
    requires v != [] && Apart(v) && 0 <= blk < b && !Buffered(v, blk)
    ensures Stays(v, blk, b) == Stays(v[|v| - 1 := Slot(blk, 0)], blk + 1, b)
  {
    hide FindSlot;
    var w := v[|v| - 1 := Slot(blk, 0)];
    TakenSame(v, blk, b);
    assert FirstGap(v, blk, b) == blk;
    if Size(v, b) > 0 {
      var i, last := FindSlot(v, b), |v| - 1;
      if i < last {
        assert !Touched(v[last], blk, blk);
        assert !Touched(w[last], blk + 1, FirstGap(w, blk + 1, b));
      }
    }
  }

  lemma StaysStep(v: seq<Slot>, fpos: int, t: seq<byte>, blk: int, off: nat, b: int)
    requires Whole(v, fpos, t) && 0 <= blk < b && b * BUFSIZ <= fpos && off < BUFSIZ
    ensures Stays(v, blk, b) == Stays(Fetched(v, blk, off), blk + 1, b)
  {
    hide FindSlot;
    if Size(v, blk) > 0 {
      assert Full(v[FindSlot(v, blk)], fpos);
      StaysFront(v, blk, b);
    } else if Buffered(v, blk) {
      StaysEmpty(v, blk, b);
    } else {
      StaysTaken(v, blk, b);
    }
  }

  /** The newlines that are buffered of the block being read. */
  lemma NewlineHere(v: seq<Slot>, fpos: int, t: seq<byte>, blk: int, off: nat)
    requires Whole(v, fpos, t) && 0 <= blk * BUFSIZ <= fpos && off < BUFSIZ
    ensures NewlineIn(t, blk * BUFSIZ + off, blk * BUFSIZ + Size(v, blk)) <==>
      exists k :: blk * BUFSIZ + off <= k < (blk + 1) * BUFSIZ && NewlineStays(v, fpos, t, blk, k)
  {
    var lo, hi := blk * BUFSIZ + off, blk * BUFSIZ + Size(v, blk);
    if Size(v, blk) > 0 {
      assert Full(v[FindSlot(v, blk)], fpos);
    }
    if NewlineIn(t, lo, hi) {
      var k :| 0 <= lo <= k < hi && k < |t| && t[k] == NEWLINE;
      assert k / BUFSIZ == blk;
      assert NewlineStays(v, fpos, t, blk, k);
    }
    if k :| lo <= k < (blk + 1) * BUFSIZ && NewlineStays(v, fpos, t, blk, k) {
      assert k / BUFSIZ == blk;
    }
  }

  /** Where the last block is reached, its end is still there or not. */
  lemma EndHere(v: seq<Slot>, fpos: int, t: seq<byte>, blk: int)
    requires Whole(v, fpos, t) && 0 <= blk * BUFSIZ <= fpos
    ensures AtEnd(v, fpos, blk) ==> FrontierKept(v, fpos, blk)
    ensures blk == fpos / BUFSIZ && FrontierKept(v, fpos, blk) ==> AtEnd(v, fpos, blk)
  {
    hide FindSlot;
    if Size(v, blk) > 0 {
      assert Full(v[FindSlot(v, blk)], fpos);
    }
  }

  /** A newline from `lo` on will still be there. */
  ghost predicate Meets(v: seq<Slot>, fpos: int, t: seq<byte>, blk: int, lo: int) {
    exists k :: lo <= k && NewlineStays(v, fpos, t, blk, k)
  }

  /** It is in the block being read, or it is still met when that block has been read. */
  lemma MeetsStep(v: seq<Slot>, fpos: int, t: seq<byte>, blk: int, off: nat)
    requires Whole(v, fpos, t) && 0 <= blk < fpos / BUFSIZ && off < BUFSIZ
    ensures Meets(v, fpos, t, blk, blk * BUFSIZ + off) <==>
      || NewlineIn(t, blk * BUFSIZ + off, blk * BUFSIZ + Size(v, blk))
      || Meets(Fetched(v, blk, off), fpos, t, blk + 1, (blk + 1) * BUFSIZ)
  {
    hide FindSlot, Fetched, Stays, NewlineIn, Size;
    var w, next := Fetched(v, blk, off), blk + 1;
    NewlineHere(v, fpos, t, blk, off);
    if k :| blk * BUFSIZ + off <= k && NewlineStays(v, fpos, t, blk, k) {
      if k >= (blk + 1) * BUFSIZ {
        StaysStep(v, fpos, t, blk, off, k / BUFSIZ);
        assert NewlineStays(w, fpos, t, next, k);
      }
    }
    if k :| next * BUFSIZ <= k && NewlineStays(w, fpos, t, next, k) {
      StaysStep(v, fpos, t, blk, off, k / BUFSIZ);
      assert NewlineStays(v, fpos, t, blk, k);
    }
  }

  /**
   * Looking for a newline ends exactly when the place to read the pipe on will still be there,
   * or a newline before it will.
   */
  lemma {:induction false} SkipEndsIff(v: seq<Slot>, fpos: int, t: seq<byte>, blk: int, off: nat)
    requires Whole(v, fpos, t) && blk >= 0 && off < BUFSIZ
    ensures SkipEnds(v, fpos, t, blk, off) <==>
      FrontierKept(v, fpos, blk) || Meets(v, fpos, t, blk, blk * BUFSIZ + off)
    decreases if fpos < blk * BUFSIZ then 0 else fpos - blk * BUFSIZ + 1
  {
    hide FindSlot, Fetched, Stays, NewlineIn, Size, AtEnd;
    if blk * BUFSIZ <= fpos {
      EndHere(v, fpos, t, blk);
      if blk < fpos / BUFSIZ {
        var w := Fetched(v, blk, off);
        FetchedWhole(v, fpos, t, blk, off);
        SkipEndsIff(w, fpos, t, blk + 1, 0);
        StaysStep(v, fpos, t, blk, off, fpos / BUFSIZ);
        MeetsStep(v, fpos, t, blk, off);
      } else {
        NewlineHere(v, fpos, t, blk, off);
      }
    }
  }
}
