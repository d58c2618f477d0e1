/**
 * How a pipe without automatic buffers is lost: from the opening of the file to a state in which
 * looking for a newline never ends (archie/less/ch.c, and the loop of archie/less/input.c:80-84).
 */
module PipeLoss {
  import opened Bytes
  import opened PipeSlots
  import opened BlockFile

  /**
   * Where looking for a newline does not end, any number of reads gives neither a newline nor
   * the end of the file, and the pipe is never read on.
   */
  method SkipNeverEnds(ch: FileState, n: nat) returns (given: seq<int>)
    requires ch.Valid() && ch.nbufs >= 1 && !ch.SkipEndsAt(ch.Tell())
    modifies ch.repr
    ensures ch.Valid() && ch.nbufs >= 1 && fresh(ch.repr - old(ch.repr))
    ensures |given| == n && forall i :: 0 <= i < n ==> given[i] != NEWLINE as int && given[i] != EOI
    ensures !ch.SkipEndsAt(ch.Tell()) && ch.Tell() == old(ch.Tell()) + n && ch.fpos == old(ch.fpos)
    ensures ch.Tell() >= ch.fpos + BUFSIZ ==> ch.Lost()
  {
    hide FileState.Valid, FileState.Reads, FileState.Ran, FileState.Sure, FileState.SkipEndsAt, FileState.Answered,
      FileState.Supplied, FileState.Settled, FileState.Supply;
    ch.ValidOwnsThis();
    given := [];
    for i := 0 to n
      invariant ch.Valid() && ch.nbufs >= 1 && fresh(ch.repr - old(ch.repr))
      invariant |given| == i && forall j :: 0 <= j < i ==> given[j] != NEWLINE as int && given[j] != EOI
      invariant !ch.SkipEndsAt(ch.Tell()) && ch.Tell() == old(ch.Tell()) + i && ch.fpos == old(ch.fpos)
    {
      var c := ch.ChForwGet();
      given := given + [c];
    }
    FarIsLost(ch);
  }

  lemma FarIsLost(ch: FileState)
    requires ch.Valid() && !ch.SkipEndsAt(ch.Tell())
    ensures ch.Tell() >= ch.fpos + BUFSIZ ==> ch.Lost()
  {
  }

  /** Go to a place of a pipe that can be read, and read a character there. */
  method GetAt(ch: FileState, pos: int) returns (c: int)
    requires ch.Valid() && ch.nbufs >= 1 && ch.Bare() && pos >= 0
    requires pos == ch.fpos < |ch.content| || pos % BUFSIZ < Size(ch.Slots(), pos / BUFSIZ)
    requires pos == ch.fpos ==> pos % BUFSIZ == Size(ch.Slots(), pos / BUFSIZ) && ch.kernel.answers(ch.readCount).Ready?
    modifies ch.repr
    ensures ch.Valid() && ch.nbufs >= 1 && fresh(ch.repr - old(ch.repr)) && ch.Bare() && ch.Tell() == pos + 1
    ensures pos != old(ch.fpos) ==>
      && ch.Now() == old(ch.Now()).(slots := ToFront(old(ch.Slots()), old(FindSlot(ch.Slots(), pos / BUFSIZ))))
    ensures pos == old(ch.fpos) ==>
      && old(ch.Next(ch.Now(), pos / BUFSIZ)) > 0
      && var n := old(ch.Next(ch.Now(), pos / BUFSIZ));
        ch.Now() == Shot(More(old(ch.Slots()), pos / BUFSIZ, n), pos + n, NULL_POSITION, old(ch.readCount) + 1)
  {
    hide FileState.Valid, FileState.Reads, FileState.Sure, FileState.Slots, FileState.SkipEndsAt, FileState.Lost,
      Located, FindSlot, More;
    ch.SeekSlot(pos);
    ch.ValidOwnsThis();
    var failed := ch.ChSeek(pos);
    ch.AtPosition();
    c := ch.ChForwGet();
  }

  /** A slot that is taken for a block and filled comes to the front; what was in it is gone. */
  lemma TakenAndFilled(a: Slot, b: Slot, c: Slot, blk: int, n: nat)
    requires a.block != blk && b.block != blk && c.block != blk
    ensures More([a, b, c], blk, n) == [Slot(blk, n), a, b] && Size([a, b, c], blk) == 0
  {
    var v := [a, b, c];
    var u := v[2 := Slot(blk, 0)];
    assert !Buffered(v, blk);
    assert u[0].block != blk && u[1].block != blk && u[2].block == blk;
    assert u[2 := Slot(blk, n)][..2] == [a, b];
  }

  /** The last of three slots, asked for again, comes to the front. */
  lemma LastToFront(a: Slot, b: Slot, c: Slot)
    requires a.block != c.block && b.block != c.block
    ensures FindSlot([a, b, c], c.block) == 2 && Size([a, b, c], c.block) == c.size
    ensures ToFront([a, b, c], 2) == [c, a, b]
  {
    var v := [a, b, c];
    assert v[0].block != c.block && v[1].block != c.block && v[2] == c;
    assert v[..2] == [a, b];
  }

  /**
   * The blocks 0, 2 and 3 are buffered, 3 only in part and least recently used: reading on from
   * block 0, block 1 takes its buffer, and the pipe can never be read on.
   */
  lemma FrontierIsLost(t: seq<byte>, n: nat, off: nat)
    requires 0 < n < BUFSIZ && 3 * BUFSIZ + n <= |t| && off < BUFSIZ
    requires forall k :: 0 <= k < 3 * BUFSIZ + n ==> t[k] != NEWLINE
    ensures !SkipEnds([Slot(0, BUFSIZ), Slot(2, BUFSIZ), Slot(3, n)], 3 * BUFSIZ + n, t, 0, off)
  {
    var v, fpos := [Slot(0, BUFSIZ), Slot(2, BUFSIZ), Slot(3, n)], 3 * BUFSIZ + n;
    SkipEndsIff(v, fpos, t, 0, off);
    LastToFront(v[0], v[1], v[2]);
    assert !Buffered(v, 1);
    assert Buffered(v, 0);
    assert FirstGap(v, 0, 3) == 1;
    assert fpos / BUFSIZ == 3;
  }

  /** The kernel grants the buffers and answers every read of a session so far as counted. */
  predicate Grants(kernel: Kernel, counts: seq<int>) {
    && kernel.allocs(0)
    && forall i :: 0 <= i < |counts| ==> kernel.answers(i).Ready? && kernel.answers(i).count == counts[i]
  }

  /** Read the first `n` bytes of the next block into the last of three buffers. */
  method FillFrom(ch: FileState, blk: nat, a: Slot, b: Slot, c: Slot, n: nat)
    requires ch.Valid() && ch.Bare() && ch.Slots() == [a, b, c]
    requires a.block != blk && b.block != blk && c.block != blk
    requires 0 < n <= BUFSIZ && ch.fpos == blk * BUFSIZ && blk * BUFSIZ + n <= |ch.content|
    requires ch.kernel.answers(ch.readCount).Ready? && ch.kernel.answers(ch.readCount).count == n
    requires ch.nbufs == 3
    modifies ch.repr
    ensures ch.Valid() && ch.nbufs == 3 && fresh(ch.repr - old(ch.repr)) && ch.Bare()
    ensures ch.Slots() == [Slot(blk, n), a, b]
    ensures ch.fpos == blk * BUFSIZ + n && ch.readCount == old(ch.readCount) + 1
  {
    hide FileState.Valid, FileState.Slots, Size, FindSlot, More, ToFront;
    TakenAndFilled(a, b, c, blk, n);
    var given := GetAt(ch, blk * BUFSIZ);
    ch.SlotsAre();
  }

  /** Go back to the block of the last of three buffers. */
  method Revisit(ch: FileState, a: Slot, b: Slot, c: Slot)
    requires ch.Valid() && ch.Bare() && ch.Slots() == [a, b, c] && ch.nbufs == 3
    requires a.block != c.block && b.block != c.block && c.block >= 0 && c.size > 0
    requires ch.fpos != c.block * BUFSIZ
    modifies ch.repr
    ensures ch.Valid() && ch.nbufs == 3 && fresh(ch.repr - old(ch.repr)) && ch.Bare()
    ensures ch.Slots() == [c, a, b] && ch.fpos == old(ch.fpos) && ch.readCount == old(ch.readCount)
    ensures ch.Tell() == c.block * BUFSIZ + 1
  {
    hide FileState.Valid, FileState.Slots, Size, FindSlot, More, ToFront;
    LastToFront(a, b, c);
    var given := GetAt(ch, c.block * BUFSIZ);
    ch.SlotsAre();
  }

  /** Open a pipe with three empty buffers. */
  method OpenPipe(content: seq<byte>, kernel: Kernel) returns (ch: FileState)
    requires kernel.allocs(0)
    ensures fresh(ch) && fresh(ch.repr) && ch.Valid() && ch.nbufs == 3 && ch.content == content && ch.kernel == kernel
    ensures ch.Bare() && ch.Slots() == [Slot(-1, 0), Slot(-1, 0), Slot(-1, 0)] && ch.fpos == ch.readCount == 0
  {
    hide FileState.Valid, FileState.Slots;
    ch := new FileState(content, true, false, kernel);
    var want, quit := ch.ChNbuf(3);
    ch.SlotsAre();
  }

  /** Read blocks 0, 1 and 2. */
  method ReadThree(ch: FileState)
    requires ch.Valid() && ch.Bare() && ch.nbufs == 3 && ch.fpos == ch.readCount == 0 && 3 * BUFSIZ <= |ch.content|
    requires ch.Slots() == [Slot(-1, 0), Slot(-1, 0), Slot(-1, 0)]
    requires Grants(ch.kernel, [BUFSIZ, BUFSIZ, BUFSIZ])
    modifies ch.repr
    ensures ch.Valid() && ch.nbufs == 3 && fresh(ch.repr - old(ch.repr)) && ch.Bare()
    ensures ch.Slots() == [Slot(2, BUFSIZ), Slot(1, BUFSIZ), Slot(0, BUFSIZ)]
    ensures ch.fpos == 3 * BUFSIZ && ch.readCount == 3
  {
    hide FileState.Valid, FileState.Slots;
    FillFrom(ch, 0, Slot(-1, 0), Slot(-1, 0), Slot(-1, 0), BUFSIZ);
    FillFrom(ch, 1, Slot(0, BUFSIZ), Slot(-1, 0), Slot(-1, 0), BUFSIZ);
    FillFrom(ch, 2, Slot(1, BUFSIZ), Slot(0, BUFSIZ), Slot(-1, 0), BUFSIZ);
  }

  /** Back to block 0, on to a part of block 3, back to block 2 and to block 0. */
  method ToAndFro(ch: FileState, n: nat)
    requires ch.Valid() && ch.Bare() && ch.nbufs == 3 && ch.fpos == 3 * BUFSIZ && ch.readCount == 3
    requires ch.Slots() == [Slot(2, BUFSIZ), Slot(1, BUFSIZ), Slot(0, BUFSIZ)]
    requires 0 < n < BUFSIZ && 3 * BUFSIZ + n <= |ch.content| && Grants(ch.kernel, [BUFSIZ, BUFSIZ, BUFSIZ, n])
    modifies ch.repr
    ensures ch.Valid() && ch.nbufs == 3 && fresh(ch.repr - old(ch.repr)) && ch.Bare()
    ensures ch.Slots() == [Slot(0, BUFSIZ), Slot(2, BUFSIZ), Slot(3, n)]
    ensures ch.fpos == 3 * BUFSIZ + n && ch.Tell() == 1
  {
    hide FileState.Valid, FileState.Slots;
    Revisit(ch, Slot(2, BUFSIZ), Slot(1, BUFSIZ), Slot(0, BUFSIZ));
    FillFrom(ch, 3, Slot(0, BUFSIZ), Slot(2, BUFSIZ), Slot(1, BUFSIZ), n);
    Revisit(ch, Slot(3, n), Slot(0, BUFSIZ), Slot(2, BUFSIZ));
    Revisit(ch, Slot(2, BUFSIZ), Slot(3, n), Slot(0, BUFSIZ));
  }

  /**
   * A session on a pipe that gives 3 full blocks and then, for the time being, `n` more bytes:
   * read to block 2, back to 0, on to 3, back to 2 and to 0.  From there a newline is looked for in vain.
   */
  method LoseFrontier(content: seq<byte>, kernel: Kernel, n: nat) returns (ch: FileState)
    requires 0 < n < BUFSIZ && 3 * BUFSIZ + n <= |content|
    requires forall k :: 0 <= k < 3 * BUFSIZ + n ==> content[k] != NEWLINE
    requires Grants(kernel, [BUFSIZ, BUFSIZ, BUFSIZ, n])
    ensures fresh(ch) && fresh(ch.repr) && ch.Valid() && ch.nbufs == 3 && ch.content == content
    ensures ch.Tell() == 1 && ch.fpos == 3 * BUFSIZ + n && !ch.SkipEndsAt(ch.Tell())
  {
    hide FileState.Valid, FileState.SkipEndsAt, FileState.Slots, FileState.Lost, SkipEnds;
    ch := OpenPipe(content, kernel);
    ReadThree(ch);
    ToAndFro(ch, n);
    FrontierIsLost(content, n, 1);
    ch.SkipHere();
    ch.AtPosition();
  }

  /** Reading on from there passes the end of what the pipe gave: nothing but "?" is to be had any more. */
  method LoseForGood(content: seq<byte>, kernel: Kernel, n: nat) returns (ch: FileState)
    requires 0 < n < BUFSIZ && 3 * BUFSIZ + n <= |content|
    requires forall k :: 0 <= k < 3 * BUFSIZ + n ==> content[k] != NEWLINE
    requires Grants(kernel, [BUFSIZ, BUFSIZ, BUFSIZ, n])
    ensures fresh(ch) && ch.Valid() && ch.content == content && ch.Lost()
  {
    hide FileState.Valid, FileState.SkipEndsAt, FileState.Lost;
    ch := LoseFrontier(content, kernel, n);
    var given := SkipNeverEnds(ch, 5 * BUFSIZ);
  }
}
