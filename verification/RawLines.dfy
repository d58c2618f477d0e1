/**
 * Movement by raw lines, `forw_raw_line` and `back_raw_line` of archie/less/line.c: lines as
 * the newlines delimit them, except that both directions give up after 1023 characters.
 */
module RawLines {
  import opened Bytes
  import opened PipeSlots
  import opened BlockFile

  /** Characters that fit in the line buffer, besides its terminating NUL. */
  const ROOM := 1023

  // ---------------------------------------------------------------- lines of a text

  /** The end of the line that `p` is in: its newline, or the end of the text. */
  function LineEnd(t: seq<byte>, p: nat): (e: nat)
    requires p <= |t|
    ensures p <= e <= |t| && (e < |t| ==> t[e] == NEWLINE)
    ensures forall i :: p <= i < e ==> t[i] != NEWLINE
    decreases |t| - p
  {
    if p == |t| || t[p] == NEWLINE then p else LineEnd(t, p + 1)
  }

  /** The start of the line that `p` is in. */
  function LineStart(t: seq<byte>, p: nat): (s: nat)
    requires p <= |t|
    ensures s <= p && (s > 0 ==> t[s - 1] == NEWLINE)
    ensures forall i :: s <= i < p ==> t[i] != NEWLINE
  {
    if p == 0 || t[p - 1] == NEWLINE then p else LineStart(t, p - 1)
  }

  /** Where the line after the one at `p` starts; the end of the text counts as a start. */
  function NextStart(t: seq<byte>, p: nat): (q: nat)
    requires p < |t|
    ensures p < q <= |t|
  {
    Min(LineEnd(t, p) + 1, |t|)
  }

  // ---------------------------------------------------------------- the two movements

  function ForwRaw(t: seq<byte>, p: int): int {
    if p < 0 || p >= |t| then NULL_POSITION
    else if LineEnd(t, p) - p > ROOM then p + ROOM
    else NextStart(t, p)
  }

  function BackRaw(t: seq<byte>, q: int): int {
    if q <= 0 || q - 1 > |t| then NULL_POSITION
    else Max(LineStart(t, q - 1), q - 1 - ROOM)
  }

  lemma {:induction false} LineEndFrom(t: seq<byte>, p: nat, e: nat)
    requires p <= e <= |t| && forall i :: p <= i < e ==> t[i] != NEWLINE
    ensures LineEnd(t, p) == LineEnd(t, e)
    decreases e - p
  {
    if p < e {
      LineEndFrom(t, p + 1, e);
    }
  }

  lemma {:induction false} LineStartFrom(t: seq<byte>, s: nat, p: nat)
    requires s <= p <= |t| && forall i :: s <= i < p ==> t[i] != NEWLINE
    ensures LineStart(t, p) == LineStart(t, s)
    decreases p
  {
    if s < p {
      LineStartFrom(t, s, p - 1);
    }
  }

  /** A step forward from a line start is undone by a step back, however long the line is. */
  lemma RawRoundTrip(t: seq<byte>, p: nat)
    requires p < |t| && LineStart(t, p) == p
    ensures ForwRaw(t, p) > p && BackRaw(t, ForwRaw(t, p)) == p
  {
    var q := ForwRaw(t, p);
    LineStartFrom(t, p, q - 1);
  }

  /** A step back from a later line start is undone by a step forward exactly when the line fits the buffer. */
  lemma BackForw(t: seq<byte>, q: nat)
    requires 0 < q <= |t| && t[q - 1] == NEWLINE
    ensures ForwRaw(t, BackRaw(t, q)) == q
    ensures BackRaw(t, q) == if q - 1 - LineStart(t, q - 1) <= 1023 then LineStart(t, q - 1) else q - 1 - 1023
  {
    var s := BackRaw(t, q);
    LineEndFrom(t, s, q - 1);
  }

  /** A step forward reaches the next line exactly if the line fits the buffer, else it stops behind 1023 characters. */
  lemma ForwReachesNextStart(t: seq<byte>, p: nat)
    requires p < |t|
    ensures ForwRaw(t, p) == NextStart(t, p) <==> LineEnd(t, p) - p <= 1023
    ensures LineEnd(t, p) - p > 1023 ==> ForwRaw(t, p) == p + 1023
  {
  }

  /** There is no raw line at or behind the end of the text, and none before its beginning. */
  lemma NoRawLineThere(t: seq<byte>, p: int)
    ensures ForwRaw(t, p) == -1 <==> p < 0 || p >= |t|
    ensures BackRaw(t, p) == -1 <==> p <= 0 || p > |t| + 1
  {
  }

  // ---------------------------------------------------------------- the code

  /**
   * Get the next character; `sure` says that nothing has been lost here, `ends` that a newline
   * or the end will be found.
   */
  method ForwChar(ch: FileState, ghost sure: bool, ghost ends: bool) returns (c: int)
    requires ch.Valid() && ch.nbufs >= 1 && (sure ==> ch.Sure()) && (ends ==> ch.SkipEndsAt(ch.Tell()))
    modifies ch.repr
    ensures ch.Valid() && ch.nbufs >= 1 && fresh(ch.repr - old(ch.repr)) && ch.Onward() && -1 <= c < 256
    ensures ch.Tell() == old(ch.Tell()) + if c == EOI then 0 else 1
    ensures c == CharAt(ch.content, old(ch.Tell())) || c == EOI || c == QUESTION as int
    ensures sure ==>
      && ch.Sure() && (!ch.sigs ==> c == CharAt(ch.content, old(ch.Tell())))
      && (c != EOI ==> ch.Reachable(ch.Tell()) && ch.Reachable(ch.Tell() - 1) && old(ch.Tell()) < |ch.content|)
      && (old(ch.Reachable(ch.Tell())) ==> ch.Reachable(ch.Tell()))
    ensures ends && c != NEWLINE as int && c != EOI ==>
      ch.SkipEndsAt(ch.Tell()) && old(ch.Tell()) < |ch.content| + BUFSIZ
  {
    hide FileState.Valid, FileState.Ran, FileState.Sure, FileState.SkipEndsAt, FileState.Reachable,
      FileState.Answered, FileState.Supplied, FileState.Settled, FileState.Supply, FileState.Lost;
    ch.ValidOwnsThis();
    c := ch.ChForwGet();
    if c != EOI && sure {
      ch.ReachableInFile(ch.Tell());
    }
  }

  /** Where the forward scan stands at `e`, seeing `c` there, it goes on or has arrived. */
  lemma ForwStep(t: seq<byte>, s: nat, e: int, c: int)
    requires s < |t| && s <= e <= LineEnd(t, s) && e - s <= ROOM && c == CharAt(t, e)
    ensures c == NEWLINE || c == EOI || e - s == ROOM ==>
      ForwRaw(t, s) == (if c == NEWLINE then e + 1 else e) && Min(LineEnd(t, s) - s, ROOM) == e - s
    ensures c != NEWLINE && c != EOI ==> e + 1 <= LineEnd(t, s)
  {
  }

  lemma ForwRefused(t: seq<byte>, p: int)
    ensures p < 0 || p >= |t| ==> ForwRaw(t, p) == NULL_POSITION
    ensures 0 <= p <= |t| ==> p <= LineEnd(t, p)
  {
  }

  /**
   * Move to the next raw line; the line passed over is left, NUL-terminated, in `linebuf`.  From
   * a position that can be read the result is exact, unless a signal comes.
   */
  method ForwRawLine(ch: FileState, linebuf: array<byte>, currPos: int) returns (newPos: int)
    requires ch.Valid() && ch.nbufs >= 1
    requires linebuf.Length == ROOM + 1 && linebuf !in ch.repr
    modifies ch.repr, linebuf
    ensures ch.Valid() && ch.nbufs >= 1 && fresh(ch.repr - old(ch.repr)) && ch.Onward()
    ensures newPos == NULL_POSITION || 0 <= currPos < newPos
    ensures !old(ch.CanSeek(currPos)) ==> newPos == NULL_POSITION
    ensures old(ch.Readable(currPos)) && !ch.sigs ==> newPos == ForwRaw(ch.content, currPos)
    ensures old(ch.Readable(currPos)) && !ch.sigs && newPos != NULL_POSITION ==>
      var n := Min(LineEnd(ch.content, currPos) - currPos, ROOM);
      linebuf[..n] == ch.content[currPos..currPos + n] && linebuf[n] == NUL
    ensures old(ch.Readable(currPos)) && newPos != NULL_POSITION ==> ch.Reachable(newPos)
  {
    hide FileState.Valid, FileState.Reads, FileState.Ran, FileState.Readable, FileState.CanSeek,
      FileState.Sure, FileState.Reachable, LineEnd, ForwRaw;
    ForwRefused(ch.content, currPos);
    ch.ValidOwnsThis();
    ch.ReadableSeeks(currPos);
    ghost var sure := ch.Readable(currPos);
    if currPos == NULL_POSITION {
      return NULL_POSITION;
    }
    var failed := ch.ChSeek(currPos);
    if failed {
      return NULL_POSITION;
    }
    var c := ch.ChForwGet();
    if c == EOI {
      return NULL_POSITION;
    }
    newPos := FillLine(ch, linebuf, currPos, c, sure);
  }

  /** Copy the line to the buffer, from its first character `c0` on, up to a newline, the end or the buffer's end. */
  method FillLine(ch: FileState, linebuf: array<byte>, currPos: int, c0: int, ghost sure: bool) returns (newPos: int)
    requires ch.Valid() && ch.nbufs >= 1
    requires linebuf.Length == ROOM + 1 && linebuf !in ch.repr
    requires 0 <= currPos && 0 <= c0 < 256 && ch.Tell() == currPos + 1
    requires sure ==> ch.Sure() && ch.Reachable(currPos) && ch.Reachable(currPos + 1)
    requires sure && !ch.sigs ==> c0 == CharAt(ch.content, currPos)
    modifies ch.repr, linebuf
    ensures ch.Valid() && ch.nbufs >= 1 && fresh(ch.repr - old(ch.repr)) && ch.Onward()
    ensures currPos < newPos && (sure ==> ch.Reachable(newPos))
    ensures sure && !ch.sigs ==>
      var n := Min(LineEnd(ch.content, currPos) - currPos, ROOM);
      newPos == ForwRaw(ch.content, currPos) && linebuf[..n] == ch.content[currPos..currPos + n] && linebuf[n] == NUL
  {
    hide FileState.Valid, FileState.Reads, FileState.Ran, FileState.Sure, FileState.Reachable, LineEnd, ForwRaw;
    ForwRefused(ch.content, currPos);
    ch.ValidOwnsThis();
    ghost var t := ch.content;
    var c, p := c0, 0;
    while true
      invariant ch.Valid() && ch.nbufs >= 1 && fresh(ch.repr - old(ch.repr)) && linebuf !in ch.repr && ch.Onward()
      invariant 0 <= p <= ROOM && -1 <= c < 256 && (c == EOI ==> p > 0)
      invariant ch.Tell() == currPos + p + if c == EOI then 0 else 1
      invariant sure ==> ch.Sure() && ch.Reachable(ch.Tell()) && (c != EOI ==> ch.Reachable(ch.Tell() - 1))
      invariant sure && !ch.sigs ==> currPos < |t| && currPos + p <= LineEnd(t, currPos) && c == CharAt(t, currPos + p)
      invariant sure && !ch.sigs ==> linebuf[..p] == t[currPos..currPos + p]
      decreases ROOM - p
    {
      if sure && !ch.sigs {
        ForwStep(t, currPos, currPos + p, c);
      }
      if c == NEWLINE || c == EOI {
        newPos := ch.Tell();
        break;
      }
      if p >= ROOM {
        newPos := ch.Tell() - 1;
        break;
      }
      ghost var got := linebuf[..p];
      linebuf[p] := c;
      p := p + 1;
      assert linebuf[..p] == got + [c];
      assert sure && !ch.sigs ==> linebuf[..p] == t[currPos..currPos + p];
      c := ForwChar(ch, sure, false);
    }
    linebuf[p] := NUL;
  }

  lemma LineStartBefore(t: seq<byte>, q: nat)
    ensures q <= |t| ==> LineStart(t, q) <= q
  {
  }

  lemma BackRefused(t: seq<byte>, q: int)
    ensures q <= 0 ==> BackRaw(t, q) == NULL_POSITION
    ensures 0 < q <= |t| + 1 ==> BackRaw(t, q) != NULL_POSITION
  {
  }

  /** Where the backward scan stands at `e`, seeing `c` before it, it goes on or has arrived. */
  lemma BackStep(t: seq<byte>, q: nat, e: int, c: int)
    requires q <= |t| && LineStart(t, q) <= e <= q && q - ROOM <= e && c == CharAt(t, e - 1)
    ensures c == NEWLINE || c == EOI || e == q - ROOM ==> BackRaw(t, q + 1) == e && (c == EOI ==> e == 0)
    ensures c != NEWLINE && c != EOI ==> LineStart(t, q) <= e - 1
  {
  }

  /** From the character before `s` up to `q` everything can be read again, or nothing at all has been lost. */
  ghost predicate ReadsBack(ch: FileState, s: int, q: int)
    reads ch`intact, ch`fpos
  {
    ch.Lossless() || (0 < s && ch.Reachable(s - 1) && ch.Reachable(q))
  }

  /** So can the raw line before `q` and the newline before it. */
  ghost predicate Recoverable(ch: FileState, q: int)
    reads ch`intact, ch`fpos
  {
    ch.Lossless() || (0 < q <= |ch.content| && ReadsBack(ch, LineStart(ch.content, q - 1), q - 1))
  }

  lemma ReachableBetween(ch: FileState, lo: int, p: int, hi: int)
    requires lo <= p <= hi && ch.Reachable(lo) && ch.Reachable(hi)
    ensures ch.Reachable(p)
  {
  }

  /** Step back and get the character there, within what `sure` says can be read. */
  method BackChar(ch: FileState, ghost s: int, ghost q: int, ghost sure: bool) returns (c: int)
    requires ch.Valid() && ch.nbufs >= 1
    requires sure ==> ReadsBack(ch, s, q) && (ch.Lossless() || s <= ch.Tell() <= q)
    modifies ch.repr
    ensures ch.Valid() && ch.nbufs >= 1 && fresh(ch.repr - old(ch.repr)) && ch.Onward() && -1 <= c < 256
    ensures 0 <= ch.Tell() && (ch.Tell() == old(ch.Tell()) - 1 || (c == EOI && ch.Tell() == old(ch.Tell())))
    ensures old(ch.Lossless()) ==> ch.Lossless()
    ensures sure ==> ReadsBack(ch, s, q) && (ch.ispipe ==> ch.intact == old(ch.intact))
    ensures sure && c != EOI ==> ch.Reachable(ch.Tell()) && ch.Reachable(ch.Tell() + 1)
    ensures sure && !ch.sigs ==>
      ch.Tell() == Max(0, old(ch.Tell()) - 1) && c == CharAt(ch.content, old(ch.Tell()) - 1)
  {
    hide FileState.Valid, FileState.Ran, FileState.Reads;
    if sure && !ch.Lossless() {
      ReachableBetween(ch, s - 1, ch.Tell(), q);
      ReachableBetween(ch, s - 1, ch.Tell() - 1, q);
    }
    c := ch.ChBackGet();
  }

  /**
   * Move to the previous raw line; its text is left at the end of `linebuf`, from index `start`.
   * Where that line and the newline before it can be read again the result is exact, unless a
   * signal comes, and nothing gets lost.
   */
  method BackRawLine(ch: FileState, linebuf: array<byte>, currPos: int) returns (newPos: int, start: int)
    requires ch.Valid() && ch.nbufs >= 1
    requires linebuf.Length == ROOM + 1 && linebuf !in ch.repr
    modifies ch.repr, linebuf
    ensures ch.Valid() && ch.nbufs >= 1 && fresh(ch.repr - old(ch.repr)) && ch.Onward()
    ensures newPos == NULL_POSITION || 0 <= newPos < currPos
    ensures currPos <= 0 || !old(ch.CanSeek(currPos - 1)) ==> newPos == NULL_POSITION
    ensures old(ch.Lossless()) ==> ch.Lossless()
    ensures old(Recoverable(ch, currPos)) && !ch.sigs && ch.ispipe ==> ch.intact == old(ch.intact)
    ensures 0 < currPos && old(Recoverable(ch, currPos) && ch.CanSeek(currPos - 1)) && !ch.sigs &&
            currPos - 1 <= |ch.content| ==>
      && newPos == BackRaw(ch.content, currPos) != NULL_POSITION && ch.Reachable(newPos)
      && start == ROOM - (currPos - 1 - newPos) && linebuf[ROOM] == NUL
      && 0 <= start && linebuf[start..ROOM] == ch.content[newPos..currPos - 1]
  {
    hide FileState.Valid, FileState.CanSeek, BackRaw;
    BackRefused(ch.content, currPos);
    ch.ValidOwnsThis();
    start := ROOM;
    if currPos == NULL_POSITION || currPos <= 0 {
      return NULL_POSITION, start;
    }
    ghost var exact := Recoverable(ch, currPos);
    var failed := ch.ChSeek(currPos - 1);
    if failed {
      return NULL_POSITION, start;
    }
    newPos, start := FillBack(ch, linebuf, currPos - 1, exact);
  }

  /** Copy the line before `q` to the end of the buffer, back to a newline, the beginning or the buffer's. */
  method FillBack(ch: FileState, linebuf: array<byte>, q: int, ghost exact: bool) returns (newPos: int, start: int)
    requires ch.Valid() && ch.nbufs >= 1
    requires linebuf.Length == ROOM + 1 && linebuf !in ch.repr
    requires 0 <= q == ch.Tell() && (exact ==> Recoverable(ch, q + 1))
    modifies ch.repr, linebuf
    ensures ch.Valid() && ch.nbufs >= 1 && fresh(ch.repr - old(ch.repr)) && ch.Onward()
    ensures 0 <= newPos <= q && (old(ch.Lossless()) ==> ch.Lossless())
    ensures exact && !ch.sigs && ch.ispipe ==> ch.intact == old(ch.intact)
    ensures exact && !ch.sigs && q <= |ch.content| ==>
      && newPos == BackRaw(ch.content, q + 1) && start == ROOM - (q - newPos) && linebuf[ROOM] == NUL
      && ch.Reachable(newPos)
      && 0 <= start && linebuf[start..ROOM] == ch.content[newPos..q]
  {
    hide FileState.Valid, FileState.Reads, FileState.Ran, FileState.Reachable, LineStart, BackRaw;
    ch.ValidOwnsThis();
    ghost var t := ch.content;
    ghost var all, s := ch.Lossless(), if q <= |t| then LineStart(t, q) else 0;
    LineStartBefore(t, q);
    var p := ROOM;
    linebuf[p] := NUL;
    while true
      invariant ch.Valid() && ch.nbufs >= 1 && fresh(ch.repr - old(ch.repr)) && linebuf !in ch.repr && ch.Onward()
      invariant 0 <= p <= ROOM && ch.Tell() == q - (ROOM - p) >= 0 && (all ==> ch.Lossless())
      invariant exact && !ch.sigs && ch.ispipe ==> ch.intact == old(ch.intact)
      invariant exact && !ch.sigs ==> ReadsBack(ch, s, q)
      invariant exact && !ch.sigs && q <= |t| ==>
        LineStart(t, q) <= q - (ROOM - p) && linebuf[p..ROOM] == t[q - (ROOM - p)..q] && linebuf[ROOM] == NUL
      decreases p
    {
      var c := BackChar(ch, s, q, exact && !ch.sigs);
      if exact && !ch.sigs && q <= |t| {
        BackStep(t, q, q - (ROOM - p), c);
      }
      if c == NEWLINE {
        newPos := ch.Tell() + 1;
        break;
      }
      if c == EOI {
        newPos := 0;
        if ch.Lossless() {
          ch.StartIsReachable();
        }
        break;
      }
      if p <= 0 {
        newPos := ch.Tell() + 1;
        break;
      }
      p := p - 1;
      linebuf[p] := c;
    }
    start := p;
  }

  /** The two movements after each other: from a line start that can be read, back to it, if nothing gets lost. */
  method ThereAndBack(ch: FileState, linebuf: array<byte>, p: int) returns (newPos: int, back: int)
    requires ch.Valid() && ch.nbufs >= 1
    requires linebuf.Length == ROOM + 1 && linebuf !in ch.repr
    requires ch.CanSeek(p) && 0 <= p < |ch.content| && LineStart(ch.content, p) == p
    modifies ch.repr, linebuf
    ensures ch.Valid() && ch.nbufs >= 1 && (ch.Clean() ==> newPos > p && back == p)
  {
    hide FileState.Valid, FileState.CanSeek;
    RawRoundTrip(ch.content, p);
    ch.LosslessIsSure();
    newPos := ForwRawLine(ch, linebuf, p);
    ch.LosslessIsSure();
    ch.SeekBack(newPos - 1);
    var start;
    back, start := BackRawLine(ch, linebuf, newPos);
  }
}
