/**
 * Line numbers from positions and positions from line numbers: `find_linenum` and `find_pos`
 * of archie/less/linenum.c, which walk from the nearest remembered line and remember more.
 */
module LineNumbers {
  import opened Bytes
  import opened BlockFile
  import opened RawLines
  import opened LineCache

  // ---------------------------------------------------------------- what a line number is

  /** A line starts at `p`; the end of the text counts as the last start. */
  predicate IsStart(t: seq<byte>, p: int) {
    0 <= p <= |t| && (p == 0 || t[p - 1] == NEWLINE || p == |t|)
  }

  /** The number of the line that holds position `p`: how many lines start at or before it. */
  function LineNo(t: seq<byte>, p: nat): (n: nat)
    requires p <= |t|
    ensures n >= 1
  {
    if p == 0 then 1 else LineNo(t, p - 1) + if IsStart(t, p) then 1 else 0
  }

  /** No line is longer than the line buffer. */
  ghost predicate ShortLines(t: seq<byte>) {
    forall p: nat :: p < |t| && IsStart(t, p) ==> LineEnd(t, p) - p <= ROOM
  }

  lemma {:induction false} LineNoGrows(t: seq<byte>, p: nat, q: nat)
    requires p <= q <= |t|
    ensures LineNo(t, p) <= LineNo(t, q)
    ensures p < q && IsStart(t, q) ==> LineNo(t, p) < LineNo(t, q)
    ensures (forall x :: p < x <= q ==> !IsStart(t, x)) ==> LineNo(t, p) == LineNo(t, q)
  {
    if p < q {
      LineNoGrows(t, p, q - 1);
    }
  }

  /** A line number is one more than the newlines before it; the end of a text is a line of its own. */
  lemma {:induction false} LineNoCounts(t: seq<byte>, p: nat)
    requires p <= |t|
    ensures p < |t| || p == 0 ==> LineNo(t, p) == 1 + multiset(t[..p])[10]
    ensures p == |t| > 0 ==> LineNo(t, p) == 2 + multiset(t[..p - 1])[10]
    decreases p
  {
    if p > 0 {
      LineNoCounts(t, p - 1);
      assert t[..p] == t[..p - 1] + [t[p - 1]];
    }
  }

  /** The start with a given number is unique. */
  lemma StartUnique(t: seq<byte>, p: nat, q: nat)
    requires IsStart(t, p) && IsStart(t, q) && LineNo(t, p) == LineNo(t, q)
    ensures p == q
  {
    if p < q {
      LineNoGrows(t, p, q);
    } else if q < p {
      LineNoGrows(t, q, p);
    }
  }

  /** One line on: the next start has the next number, and between the two the number stays. */
  lemma NextLineNo(t: seq<byte>, p: nat)
    requires p < |t| && IsStart(t, p)
    ensures IsStart(t, NextStart(t, p)) && LineNo(t, NextStart(t, p)) == LineNo(t, p) + 1
    ensures forall x :: p <= x < NextStart(t, p) ==> LineNo(t, x) == LineNo(t, p)
  {
    var q := NextStart(t, p);
    assert forall x :: p < x < q ==> !IsStart(t, x);
    forall x | p <= x < q
      ensures LineNo(t, x) == LineNo(t, p)
    {
      LineNoGrows(t, p, x);
    }
  }

  /** One line back. */
  lemma PrevLineNo(t: seq<byte>, q: nat)
    requires 0 < q <= |t| && IsStart(t, q)
    ensures var p := LineStart(t, q - 1);
            p < q && IsStart(t, p) && NextStart(t, p) == q && LineNo(t, p) == LineNo(t, q) - 1
  {
    var p := LineStart(t, q - 1);
    LineEndFrom(t, p, q - 1);
    NextLineNo(t, p);
  }

  /** With short lines the raw movements go from start to start. */
  lemma ForwOneLine(t: seq<byte>, p: nat)
    requires ShortLines(t) && p < |t| && IsStart(t, p)
    ensures ForwRaw(t, p) == NextStart(t, p)
  {
    ForwReachesNextStart(t, p);
  }

  lemma BackOneLine(t: seq<byte>, q: nat)
    requires ShortLines(t) && 0 < q <= |t| && IsStart(t, q)
    ensures BackRaw(t, q) == LineStart(t, q - 1)
  {
    PrevLineNo(t, q);
    var p := LineStart(t, q - 1);
    assert LineEnd(t, p) - p <= ROOM;
  }

  // ---------------------------------------------------------------- the remembered lines

  /** Every remembered line is true: a start, under its number. */
  ghost predicate TrueEntries(t: seq<byte>, es: seq<Entry>) {
    forall i :: 0 <= i < |es| ==> IsStart(t, es[i].pos) && es[i].line == LineNo(t, es[i].pos)
  }

  lemma TrueAfterAdd(t: seq<byte>, es: seq<Entry>, e: Entry)
    requires TrueEntries(t, es) && IsStart(t, e.pos) && e.line == LineNo(t, e.pos)
    ensures TrueEntries(t, WithEntry(es, e))
    ensures forall v :: 0 <= v < |es| ==> TrueEntries(t, WithoutEntry(WithEntry(es, e), v))
  {
  }

  // ---------------------------------------------------------------- the code

  /** A file with its buffers, a line buffer and a line cache, none overlapping another. */
  ghost predicate Session(lines: Lines, ch: FileState, linebuf: array<byte>)
    reads lines, lines.anchor, lines.pool, lines.list, lines.free, ch, ch.repr
  {
    && lines.Valid() && ch.Valid() && ch.nbufs >= 1
    && linebuf.Length == ROOM + 1 && linebuf !in ch.repr
    && lines !in ch.repr && lines.anchor !in ch.repr && forall x: LineNum :: x in lines.pool ==> x !in ch.repr
  }

  /** The remembered lines are true of the file, and have been read. */
  ghost predicate TrueLines(lines: Lines, ch: FileState)
    reads lines`list, lines.list`pos, lines.list`line, ch`fpos
  {
    TrueUpTo(ch.content, ch.ispipe, Entries(lines.list), ch.fpos)
  }

  /** True entries, none beyond `read` in a pipe. */
  ghost predicate TrueUpTo(t: seq<byte>, ispipe: bool, es: seq<Entry>, read: int) {
    TrueEntries(t, es) && (ispipe ==> forall i :: 0 <= i < |es| ==> es[i].pos <= read)
  }

  /** Entries stay true while the file is read on. */
  lemma TrueFurther(t: seq<byte>, ispipe: bool, es: seq<Entry>, read: int, read': int)
    requires TrueUpTo(t, ispipe, es, read) && (ispipe ==> read <= read')
    ensures TrueUpTo(t, ispipe, es, read')
  {
  }

  /** From the newline before remembered line `i` on, all that was read can be read again. */
  ghost predicate Grounded(lines: Lines, ch: FileState, i: int)
    requires 0 <= i < |lines.list|
    reads lines`list, lines.list`pos, ch`fpos, ch`intact
  {
    lines.list[i].pos > 0 && ch.Reachable(lines.list[i].pos - 1)
  }

  /**
   * True lines of a file of which nothing has been lost, or at least nothing behind one that is
   * remembered at or before `pos`: then the search for its number is exact.
   */
  ghost predicate Firm(lines: Lines, ch: FileState, pos: int)
    reads lines`list, lines.list`pos, lines.list`line, ch`fpos, ch`intact
  {
    && TrueLines(lines, ch)
    && (ch.Lossless() ||
        exists i :: 0 <= i < |lines.list| && Grounded(lines, ch, i) && lines.list[i].pos <= pos)
  }

  /** The same for the search for line `lno`. */
  ghost predicate FirmLine(lines: Lines, ch: FileState, lno: int)
    reads lines`list, lines.list`pos, lines.list`line, ch`fpos, ch`intact
  {
    && TrueLines(lines, ch)
    && (ch.Lossless() ||
        exists i :: 0 <= i < |lines.list| && Grounded(lines, ch, i) && lines.list[i].line <= lno)
  }

  /**
   * One raw line forward; `abort` on a signal or at the end of the file.  From a start that can
   * be read (`sure`) the step is exact.
   */
  method StepForward(ch: FileState, linebuf: array<byte>, cpos: int, ghost sure: bool) returns (q: int, abort: bool)
    requires ch.Valid() && ch.nbufs >= 1 && linebuf.Length == ROOM + 1 && linebuf !in ch.repr
    requires ShortLines(ch.content) && (sure ==> IsStart(ch.content, cpos) && ch.Readable(cpos))
    modifies ch.repr, linebuf
    ensures ch.Valid() && ch.nbufs >= 1 && fresh(ch.repr - old(ch.repr)) && ch.Onward()
    ensures !abort ==> !ch.sigs && 0 <= cpos < q
    ensures sure && abort && !ch.sigs ==> cpos == |ch.content|
    ensures sure && !abort ==> cpos < |ch.content| && q == NextStart(ch.content, cpos) && ch.Reachable(q)
  {
    hide FileState.Valid, FileState.Readable, FileState.Reachable, ShortLines;
    q := ForwRawLine(ch, linebuf, cpos);
    abort := ch.sigs || q == NULL_POSITION;
    if sure && cpos < |ch.content| {
      ForwOneLine(ch.content, cpos);
    }
  }

  /** No line start lies between a position and the start of its line. */
  lemma StartsBefore(t: seq<byte>, s: nat, p: nat)
    requires s <= p < |t| && IsStart(t, s)
    ensures s <= LineStart(t, p)
  {
  }

  /** Where everything from the line at `s` on can be read back, so can the line before `q`. */
  lemma LineRecovers(ch: FileState, s: int, q: int)
    requires ReadsBack(ch, s, q) && ch.Reachable(q) && 0 <= s < q <= |ch.content| && IsStart(ch.content, s)
    ensures Recoverable(ch, q)
  {
    if !ch.Lossless() {
      StartsBefore(ch.content, s, q - 1);
      ReachableBetween(ch, s - 1, q - 1, q);
      ReachableBetween(ch, s - 1, LineStart(ch.content, q - 1) - 1, q);
    }
  }

  /**
   * One raw line back; `abort` on a signal, or where there is nothing to be read.  From a start
   * behind one, at `s`, from which on everything can be read back (`sure`) the step is exact.
   */
  method StepBack(ch: FileState, linebuf: array<byte>, cpos: int, ghost s: int, ghost sure: bool)
    returns (q: int, abort: bool)
    requires ch.Valid() && ch.nbufs >= 1 && linebuf.Length == ROOM + 1 && linebuf !in ch.repr
    requires ShortLines(ch.content)
    requires sure ==>
      && ReadsBack(ch, s, cpos) && ch.Reachable(cpos) && IsStart(ch.content, cpos)
      && 0 <= s < cpos && IsStart(ch.content, s)
    modifies ch.repr, linebuf
    ensures ch.Valid() && ch.nbufs >= 1 && fresh(ch.repr - old(ch.repr)) && ch.Onward()
    ensures !abort ==> !ch.sigs && 0 <= q < cpos
    ensures old(ch.Lossless()) ==> ch.Lossless()
    ensures sure && abort ==> ch.sigs
    ensures sure && !abort ==>
      && q == LineStart(ch.content, cpos - 1) && s <= q && ch.Reachable(q) && ReadsBack(ch, s, q)
  {
    hide FileState.Valid, FileState.CanSeek, ShortLines;
    if sure {
      ch.ReachableInFile(cpos);
      LineRecovers(ch, s, cpos);
      StartsBefore(ch.content, s, cpos - 1);
      BackOneLine(ch.content, cpos);
      ch.SeekBack(cpos);
      BeforeSeeks(ch, s, cpos);
    }
    var start;
    q, start := BackRawLine(ch, linebuf, cpos);
    abort := ch.sigs || q == NULL_POSITION;
  }

  lemma BeforeSeeks(ch: FileState, s: int, cpos: int)
    requires ch.Valid() && ReadsBack(ch, s, cpos) && ch.Reachable(cpos) && 0 <= s < cpos
    ensures ch.CanSeek(cpos - 1)
  {
    hide FileState.Valid, FileState.CanSeek;
    ch.SeekBack(cpos);
    if !ch.Lossless() {
      ReachableBetween(ch, s - 1, cpos - 1, cpos);
    }
    ch.SeekBack(cpos - 1);
    ch.ReadableSeeks(cpos - 1);
  }

  /**
   * From a start before `pos`, the first start at or after it, and its number; not `ok` on a
   * signal or past the end.
   */
  method WalkForward(ch: FileState, linebuf: array<byte>, from: int, line: int, pos: int, ghost sure: bool)
    returns (ok: bool, lno: int, cpos: int)
    requires ch.Valid() && ch.nbufs >= 1 && linebuf.Length == ROOM + 1 && linebuf !in ch.repr
    requires ShortLines(ch.content) && from < pos
    requires sure ==> ch.Readable(from) && IsStart(ch.content, from) && line == LineNo(ch.content, from)
    modifies ch.repr, linebuf
    ensures ch.Valid() && ch.nbufs >= 1 && fresh(ch.repr - old(ch.repr)) && ch.Onward()
    ensures ok ==> pos <= cpos
    ensures sure && !ok ==> ch.sigs || pos > |ch.content|
    ensures sure && ok ==>
      && cpos <= |ch.content| && IsStart(ch.content, cpos) && lno == LineNo(ch.content, cpos) && ch.Reachable(cpos)
      && LineNo(ch.content, pos) == if cpos > pos then lno - 1 else lno
  {
    hide FileState.Valid, FileState.Readable, FileState.Reachable, ShortLines, LineNo, IsStart, NextStart;
    ok, lno, cpos := true, line, from;
    ghost var t := ch.content;
    if sure {
      StartInRange(t, cpos);
    }
    while cpos < pos
      invariant ch.Valid() && ch.nbufs >= 1 && fresh(ch.repr - old(ch.repr)) && linebuf !in ch.repr && ch.Onward()
      invariant sure ==> 0 <= cpos <= |t| && IsStart(t, cpos) && lno == LineNo(t, cpos) && ch.Readable(cpos)
      invariant sure && cpos > from ==> ch.Reachable(cpos)
      invariant sure && cpos >= pos ==> pos <= |t| && LineNo(t, pos) == if cpos > pos then lno - 1 else lno
      decreases pos - cpos
    {
      var q, abort := StepForward(ch, linebuf, cpos, sure);
      if abort {
        return false, lno, cpos;
      }
      if sure {
        NextLineNo(t, cpos);
        StartInRange(t, q);
        ch.SeekBack(q);
      }
      cpos, lno := q, lno + 1;
    }
  }

  lemma StartInRange(t: seq<byte>, p: int)
    requires IsStart(t, p)
    ensures 0 <= p <= |t| && LineNo(t, p) >= 1
  {
  }

  /**
   * From a start after `pos`, the last start at or before it, and its number; not `ok` on a
   * signal.  The walk is exact where everything can be read back from a start `s` before `pos` on.
   */
  method WalkBack(ch: FileState, linebuf: array<byte>, from: int, line: int, pos: int, ghost s: int, ghost sure: bool)
    returns (ok: bool, lno: int, cpos: int)
    requires ch.Valid() && ch.nbufs >= 1 && linebuf.Length == ROOM + 1 && linebuf !in ch.repr
    requires ShortLines(ch.content) && 0 < pos < from
    requires sure ==>
      && ReadsBack(ch, s, from) && ch.Reachable(from) && IsStart(ch.content, from) && line == LineNo(ch.content, from)
      && 0 <= s <= pos && IsStart(ch.content, s)
    modifies ch.repr, linebuf
    ensures ch.Valid() && ch.nbufs >= 1 && fresh(ch.repr - old(ch.repr)) && ch.Onward()
    ensures ok ==> 0 <= cpos <= pos
    ensures old(ch.Lossless()) ==> ch.Lossless()
    ensures sure && !ok ==> ch.sigs
    ensures sure && ok ==>
      && IsStart(ch.content, cpos) && lno == LineNo(ch.content, cpos) == LineNo(ch.content, pos)
      && ch.Reachable(cpos)
  {
    hide FileState.Valid, FileState.Reachable, ShortLines, LineNo, IsStart, NextStart, ReadsBack;
    ok, lno, cpos := true, line, from;
    ghost var t := ch.content;
    if sure {
      StartInRange(t, cpos);
    }
    while cpos > pos
      invariant ch.Valid() && ch.nbufs >= 1 && fresh(ch.repr - old(ch.repr)) && linebuf !in ch.repr && ch.Onward()
      invariant 0 <= cpos && (old(ch.Lossless()) ==> ch.Lossless())
      invariant sure ==> ch.Reachable(cpos) && (cpos > pos ==> ReadsBack(ch, s, cpos))
      invariant sure ==> cpos <= |t| && IsStart(t, cpos) && lno == LineNo(t, cpos) && pos <= |t|
      invariant sure && cpos <= pos ==> LineNo(t, pos) == lno
      decreases cpos
    {
      var q, abort := StepBack(ch, linebuf, cpos, s, sure);
      if abort {
        return false, lno, cpos;
      }
      if sure {
        PrevLineNo(t, cpos);
        NextLineNo(t, q);
      }
      cpos, lno := q, lno - 1;
    }
  }

  /** A remembered line, or the anchor, which stands for line 1, is true. */
  lemma EntryIsTrue(lines: Lines, ch: FileState, i: int)
    requires lines.Valid() && TrueLines(lines, ch) && -1 <= i < |lines.list|
    ensures var p := LineCache.At(lines.anchor, lines.list, i);
      && IsStart(ch.content, p.pos) && p.line == LineNo(ch.content, p.pos) && p.pos >= 0
      && (ch.ispipe && i >= 0 ==> p.pos <= ch.fpos)
  {
    if i >= 0 {
      assert Entries(lines.list)[i] == Entry(lines.list[i].pos, lines.list[i].line);
    }
  }

  /** Remembered lines are in the order of their positions and of their numbers. */
  lemma EntriesOrdered(lines: Lines, ch: FileState, i: int, j: int)
    requires lines.Valid() && TrueLines(lines, ch) && 0 <= i <= j < |lines.list|
    ensures lines.list[i].pos <= lines.list[j].pos && lines.list[i].line <= lines.list[j].line
  {
    var es := Entries(lines.list);
    assert es[i] == Entry(lines.list[i].pos, lines.list[i].line);
    assert es[j] == Entry(lines.list[j].pos, lines.list[j].line);
    EntryIsTrue(lines, ch, i);
    EntryIsTrue(lines, ch, j);
    LineNoGrows(ch.content, es[i].pos, es[j].pos);
  }

  /** Behind a grounded line every remembered one can be read again, and read back from. */
  lemma GroundHolds(lines: Lines, ch: FileState, i: int, j: int)
    requires lines.Valid() && ch.Valid() && TrueLines(lines, ch) && -1 <= j < |lines.list|
    requires ch.Lossless() || (0 <= i <= j && Grounded(lines, ch, i))
    ensures var s, p := if ch.Lossless() then 0 else lines.list[i].pos, LineCache.At(lines.anchor, lines.list, j);
      ch.Reachable(p.pos) && ch.Readable(p.pos) && ReadsBack(ch, s, p.pos)
  {
    hide FileState.Valid, FileState.Readable;
    EntryIsTrue(lines, ch, j);
    PositionInRange(ch);
    if !ch.Lossless() {
      EntriesOrdered(lines, ch, i, j);
    }
    ch.SeekBack(LineCache.At(lines.anchor, lines.list, j).pos);
  }

  lemma PositionInRange(ch: FileState)
    requires ch.Valid()
    ensures ch.fpos >= 0
  {
  }

  /** Nothing of the line cache belongs to the file. */
  lemma LinesApart(lines: Lines, ch: FileState, linebuf: array<byte>)
    requires Session(lines, ch, linebuf)
    ensures forall x: LineNum :: x in lines.list ==> x !in ch.repr
    ensures forall x: LineNum :: x in lines.free ==> x !in ch.repr
  {
  }

  /** Remember a line found by walking. */
  method Remember(lines: Lines, ch: FileState, linebuf: array<byte>, lno: int, cpos: int, ghost exact: bool)
    requires Session(lines, ch, linebuf) && cpos >= 0
    requires exact ==>
      && TrueLines(lines, ch) && ch.Reachable(cpos)
      && IsStart(ch.content, cpos) && lno == LineNo(ch.content, cpos)
    modifies lines, lines.anchor, lines.pool
    ensures Session(lines, ch, linebuf) && (exact ==> TrueLines(lines, ch))
    ensures Changed(old(Entries(lines.list)), Entries(lines.list), Entry(cpos, lno))
    ensures exact ==> Added(old(Entries(lines.list)), Entries(lines.list), Entry(cpos, lno))
  {
    hide Lines.Valid, FileState.Valid, Entries, WithEntry, WithoutEntry, TrueEntries, Known, Added;
    ghost var es, e := Entries(lines.list), Entry(cpos, lno);
    if exact {
      TrueAfterAdd(ch.content, es, e);
      NotKnown(ch.content, es, e);
    }
    ghost var mid, v := lines.AddLnum(lno, cpos);
    if exact {
      TrueAdded(ch.content, ch.ispipe, es, Entries(lines.list), e, ch.fpos);
    }
  }

  /** Nothing has been remembered but, perhaps, this line. */
  ghost predicate Changed(es: seq<Entry>, es': seq<Entry>, e: Entry) { es' == es || Added(es, es', e) }

  lemma TrueAdded(t: seq<byte>, ispipe: bool, es: seq<Entry>, es': seq<Entry>, e: Entry, read: int)
    requires TrueUpTo(t, ispipe, es, read) && IsStart(t, e.pos) && e.line == LineNo(t, e.pos)
    requires Added(es, es', e) && (ispipe ==> e.pos <= read)
    ensures TrueUpTo(t, ispipe, es', read)
  {
    TrueAfterAdd(t, es, e);
  }

  /** Among true lines, a line does not turn up before its place. */
  lemma NotKnown(t: seq<byte>, es: seq<Entry>, e: Entry)
    requires TrueEntries(t, es) && IsStart(t, e.pos) && e.line == LineNo(t, e.pos)
    ensures !Known(es, e.line, e.pos)
  {
    forall i | 0 <= i < Slot(es, e.pos)
      ensures es[i].line != e.line
    {
      if es[i].line == e.line {
        StartUnique(t, es[i].pos, e.pos);
      }
    }
  }

  /**
   * The number of the line that holds `pos`; 0 if it cannot be found out.  Where nothing of the
   * file has been lost behind some line remembered before `pos`, and unless a signal interrupts
   * the search, the number is the line's place counted from the start of the file.
   */
  method FindLinenum(lines: Lines, ch: FileState, linebuf: array<byte>, linenums: bool, pos: int)
    returns (lno: int, ghost e: Entry)
    requires Session(lines, ch, linebuf) && ShortLines(ch.content)
    modifies ch.repr, linebuf, lines, lines.anchor, lines.pool
    ensures Session(lines, ch, linebuf) && fresh(ch.repr - old(ch.repr)) && ch.Onward()
    ensures old(Firm(lines, ch, pos)) ==> TrueLines(lines, ch)
    ensures Changed(old(Entries(lines.list)), Entries(lines.list), e)
    ensures !linenums || pos == NULL_POSITION ==> lno == 0
    ensures linenums && pos != NULL_POSITION && pos <= 0 ==> lno == 1
    ensures linenums && pos > 0 && old(Firm(lines, ch, pos)) ==>
      && (lno != 0 ==> pos <= |ch.content| && lno == LineNo(ch.content, pos))
      && (lno == 0 ==> ch.sigs || pos > |ch.content|)
      && (lno != 0 && (forall i :: 0 <= i < |old(lines.list)| ==> old(Entries(lines.list))[i].pos != pos) ==>
            && IsStart(ch.content, e.pos) && e.line == LineNo(ch.content, e.pos) && lno <= e.line <= lno + 1
            && Added(old(Entries(lines.list)), Entries(lines.list), e))
  {
    hide Lines.Valid, FileState.Valid, FileState.Reachable, FileState.Readable, Entries, ShortLines, Added,
      Firm, TrueUpTo, IsStart, LineNo, ReadsBack, Grounded;
    e := Entry(0, 0);
    ghost var exact := Firm(lines, ch, pos);
    FirmIsTrue(lines, ch, pos);
    if !linenums || pos == NULL_POSITION {
      return 0, e;
    }
    if pos <= 0 {
      return 1, e;
    }
    var p, k := lines.NearestPos(pos);
    AnchorIsOrigin(lines);
    LinesApart(lines, ch, linebuf);
    if p.pos == pos {
      if exact {
        EntryIsTrue(lines, ch, k);
        StartInRange(ch.content, pos);
      }
      return p.line, e;
    }
    ghost var s := 0;
    if exact {
      s := GroundFor(lines, ch, pos, k);
    }
    if p == lines.anchor || pos - p.prev.pos < p.pos - pos {
      lno, e := NumberForward(lines, ch, linebuf, p.prev, pos, exact);
    } else {
      lno, e := NumberBack(lines, ch, linebuf, p, pos, s, exact);
    }
  }

  lemma FirmIsTrue(lines: Lines, ch: FileState, pos: int)
    ensures Firm(lines, ch, pos) ==> TrueLines(lines, ch)
  {
  }

  /** The lines on both sides of `pos`, where it is not itself remembered, can be walked from. */
  lemma GroundFor(lines: Lines, ch: FileState, pos: int, k: nat) returns (s: int)
    requires lines.Valid() && ch.Valid() && Firm(lines, ch, pos) && pos > 0 && k <= |lines.list|
    requires forall i :: 0 <= i < k ==> lines.list[i].pos < pos
    requires k < |lines.list| ==> lines.list[k].pos > pos
    ensures 0 <= s <= pos && IsStart(ch.content, s)
    ensures Walkable(lines, ch, k - 1, s) && (k < |lines.list| ==> Walkable(lines, ch, k, s))
  {
    hide FileState.Valid, FileState.Readable, FileState.Reachable, Lines.Valid, ReadsBack, Entries, Grounded;
    var i := -1;
    if ch.Lossless() {
      s := 0;
    } else {
      i :| 0 <= i < |lines.list| && Grounded(lines, ch, i) && lines.list[i].pos <= pos;
      if i >= k {
        EntriesOrdered(lines, ch, k, i);
      }
      s := lines.list[i].pos;
      EntryIsTrue(lines, ch, i);
    }
    EntryIsTrue(lines, ch, k - 1);
    GroundHolds(lines, ch, i, k - 1);
    if k < |lines.list| {
      EntryIsTrue(lines, ch, k);
      GroundHolds(lines, ch, i, k);
    }
  }

  /** The walks from this remembered line are exact, back as far as `s`. */
  ghost predicate Walkable(lines: Lines, ch: FileState, i: int, s: int)
    requires -1 <= i < |lines.list|
    reads lines, lines.anchor`pos, lines.anchor`line, lines.list`pos, lines.list`line, ch, ch.chain`block
  {
    var p := LineCache.At(lines.anchor, lines.list, i);
    && IsStart(ch.content, p.pos) && p.line == LineNo(ch.content, p.pos)
    && ch.Reachable(p.pos) && ch.Readable(p.pos) && ReadsBack(ch, s, p.pos)
  }

  /** Walk forward from the line `p` to the one that holds `pos`, and remember where the walk ended. */
  method NumberForward(lines: Lines, ch: FileState, linebuf: array<byte>, p: LineNum, pos: int, ghost exact: bool)
    returns (lno: int, ghost e: Entry)
    requires Session(lines, ch, linebuf) && ShortLines(ch.content) && p.pos < pos && pos > 0 && p !in ch.repr
    requires exact ==> TrueLines(lines, ch) && ch.Readable(p.pos)
    requires exact ==> IsStart(ch.content, p.pos) && p.line == LineNo(ch.content, p.pos)
    modifies ch.repr, linebuf, lines, lines.anchor, lines.pool
    ensures Session(lines, ch, linebuf) && fresh(ch.repr - old(ch.repr)) && ch.Onward()
    ensures exact ==> TrueLines(lines, ch)
    ensures Changed(old(Entries(lines.list)), Entries(lines.list), e)
    ensures exact && lno == 0 ==> ch.sigs || pos > |ch.content|
    ensures exact && lno != 0 ==>
      && pos <= |ch.content| && lno == LineNo(ch.content, pos) && lno <= e.line <= lno + 1
      && IsStart(ch.content, e.pos) && e.line == LineNo(ch.content, e.pos)
      && Added(old(Entries(lines.list)), Entries(lines.list), e)
  {
    hide Lines.Valid, FileState.Valid, FileState.Reachable, FileState.Readable, Entries, ShortLines, Added,
      TrueUpTo, IsStart, LineNo;
    LinesApart(lines, ch, linebuf);
    e := Entry(0, 0);
    ch.ReadableSeeks(p.pos);
    ch.ValidOwnsThis();
    ghost var es, read := Entries(lines.list), ch.fpos;
    var failed := ch.ChSeek(p.pos);
    if failed {
      return 0, e;
    }
    var ok, cpos;
    ok, lno, cpos := WalkForward(ch, linebuf, p.pos, p.line, pos, exact);
    if exact {
      TrueFurther(ch.content, ch.ispipe, es, read, ch.fpos);
    }
    if !ok {
      return 0, e;
    }
    e := Entry(cpos, lno);
    Remember(lines, ch, linebuf, lno, cpos, exact);
    if cpos > pos {
      lno := lno - 1;
    }
  }

  /** Walk back from the line `p` to the one that holds `pos`, and remember it. */
  method NumberBack(lines: Lines, ch: FileState, linebuf: array<byte>, p: LineNum, pos: int,
                    ghost s: int, ghost exact: bool)
    returns (lno: int, ghost e: Entry)
    requires Session(lines, ch, linebuf) && ShortLines(ch.content) && 0 < pos < p.pos && p !in ch.repr
    requires exact ==>
      && TrueLines(lines, ch) && ReadsBack(ch, s, p.pos) && ch.Reachable(p.pos) && ch.Readable(p.pos)
      && 0 <= s <= pos && IsStart(ch.content, s)
    requires exact ==> IsStart(ch.content, p.pos) && p.line == LineNo(ch.content, p.pos)
    modifies ch.repr, linebuf, lines, lines.anchor, lines.pool
    ensures Session(lines, ch, linebuf) && fresh(ch.repr - old(ch.repr)) && ch.Onward()
    ensures exact ==> TrueLines(lines, ch)
    ensures Changed(old(Entries(lines.list)), Entries(lines.list), e)
    ensures exact && lno == 0 ==> ch.sigs
    ensures exact && lno != 0 ==>
      && pos <= |ch.content| && lno == LineNo(ch.content, pos) == e.line
      && IsStart(ch.content, e.pos) && e.line == LineNo(ch.content, e.pos)
      && Added(old(Entries(lines.list)), Entries(lines.list), e)
  {
    hide Lines.Valid, FileState.Valid, FileState.Reachable, FileState.Readable, Entries, ShortLines, Added,
      TrueUpTo, IsStart, LineNo;
    LinesApart(lines, ch, linebuf);
    if exact {
      StartInRange(ch.content, p.pos);
    }
    e := Entry(0, 0);
    ch.ReadableSeeks(p.pos);
    ch.ValidOwnsThis();
    ghost var es, read := Entries(lines.list), ch.fpos;
    var failed := ch.ChSeek(p.pos);
    if failed {
      return 0, e;
    }
    var ok, cpos;
    ok, lno, cpos := WalkBack(ch, linebuf, p.pos, p.line, pos, s, exact);
    if exact {
      TrueFurther(ch.content, ch.ispipe, es, read, ch.fpos);
    }
    if !ok {
      return 0, e;
    }
    e := Entry(cpos, lno);
    Remember(lines, ch, linebuf, lno, cpos, exact);
  }

  lemma AnchorIsOrigin(lines: Lines)
    requires lines.Valid()
    ensures lines.anchor.pos == 0 && lines.anchor.line == 1
  {
  }

  /** From a start, lines forward; NULL_POSITION on a signal or past the end. */
  method WalkToLine(ch: FileState, linebuf: array<byte>, from: int, line: int, lno: int, ghost sure: bool)
    returns (cpos: int)
    requires ch.Valid() && ch.nbufs >= 1 && linebuf.Length == ROOM + 1 && linebuf !in ch.repr
    requires ShortLines(ch.content) && line < lno
    requires sure ==> ch.Readable(from) && IsStart(ch.content, from) && line == LineNo(ch.content, from)
    modifies ch.repr, linebuf
    ensures ch.Valid() && ch.nbufs >= 1 && fresh(ch.repr - old(ch.repr)) && ch.Onward()
    ensures cpos == NULL_POSITION || cpos >= 0
    ensures sure && cpos == NULL_POSITION ==> ch.sigs || lno > LineNo(ch.content, |ch.content|)
    ensures sure && cpos != NULL_POSITION ==>
      IsStart(ch.content, cpos) && LineNo(ch.content, cpos) == lno && ch.Reachable(cpos)
  {
    hide FileState.Valid, FileState.Readable, FileState.Reachable, ShortLines, LineNo, IsStart, NextStart;
    cpos := from;
    var clno := line;
    ghost var t := ch.content;
    if sure {
      StartInRange(t, cpos);
    }
    while clno < lno
      invariant ch.Valid() && ch.nbufs >= 1 && fresh(ch.repr - old(ch.repr)) && linebuf !in ch.repr && ch.Onward()
      invariant line <= clno <= lno && (clno > line ==> cpos >= 0)
      invariant sure ==> 0 <= cpos <= |t| && IsStart(t, cpos) && clno == LineNo(t, cpos) && ch.Readable(cpos)
      invariant sure && clno > line ==> ch.Reachable(cpos)
      decreases lno - clno
    {
      var q, abort := StepForward(ch, linebuf, cpos, sure);
      if abort {
        return NULL_POSITION;
      }
      if sure {
        NextLineNo(t, cpos);
        StartInRange(t, q);
        ch.SeekBack(q);
      }
      cpos, clno := q, clno + 1;
    }
  }

  /** From a start, lines back; NULL_POSITION on a signal. */
  method WalkBackToLine(ch: FileState, linebuf: array<byte>, from: int, line: int, lno: int,
                        ghost s: int, ghost sure: bool)
    returns (cpos: int)
    requires ch.Valid() && ch.nbufs >= 1 && linebuf.Length == ROOM + 1 && linebuf !in ch.repr
    requires ShortLines(ch.content) && 1 <= lno < line
    requires sure ==>
      && ReadsBack(ch, s, from) && ch.Reachable(from) && IsStart(ch.content, from) && line == LineNo(ch.content, from)
      && 0 <= s <= |ch.content| && IsStart(ch.content, s) && LineNo(ch.content, s) <= lno
    modifies ch.repr, linebuf
    ensures ch.Valid() && ch.nbufs >= 1 && fresh(ch.repr - old(ch.repr)) && ch.Onward()
    ensures cpos == NULL_POSITION || cpos >= 0
    ensures old(ch.Lossless()) ==> ch.Lossless()
    ensures sure && cpos == NULL_POSITION ==> ch.sigs
    ensures sure && cpos != NULL_POSITION ==>
      IsStart(ch.content, cpos) && LineNo(ch.content, cpos) == lno && ch.Reachable(cpos)
  {
    hide FileState.Valid, FileState.Reachable, ShortLines, LineNo, IsStart, NextStart, ReadsBack;
    cpos := from;
    var clno := line;
    ghost var t := ch.content;
    if sure {
      StartInRange(t, cpos);
    }
    while clno > lno
      invariant ch.Valid() && ch.nbufs >= 1 && fresh(ch.repr - old(ch.repr)) && linebuf !in ch.repr && ch.Onward()
      invariant lno <= clno <= line && (clno < line ==> cpos >= 0) && (old(ch.Lossless()) ==> ch.Lossless())
      invariant sure ==> 0 <= cpos <= |t| && IsStart(t, cpos) && clno == LineNo(t, cpos)
      invariant sure ==> ch.Reachable(cpos) && (clno > lno ==> ReadsBack(ch, s, cpos))
      decreases clno - lno
    {
      if sure {
        LaterLine(t, s, cpos);
      }
      var q, abort := StepBack(ch, linebuf, cpos, s, sure);
      if abort {
        return NULL_POSITION;
      }
      if sure {
        PrevLineNo(t, cpos);
      }
      cpos, clno := q, clno - 1;
    }
  }

  lemma LaterLine(t: seq<byte>, s: nat, p: nat)
    requires s <= |t| && p <= |t| && LineNo(t, s) < LineNo(t, p)
    ensures s < p
  {
    if p <= s {
      LineNoGrows(t, p, s);
    }
  }

  lemma FirstLine(t: seq<byte>, p: nat)
    requires p <= |t| && LineNo(t, p) > 1
    ensures p > 0
  {
  }

  /**
   * The position of a line number; NULL_POSITION if it cannot be found out.  Where nothing of the
   * file has been lost behind some remembered line with at most that number, and unless a signal
   * interrupts the search, it is the start with that number, or NULL_POSITION when there is none.
   */
  method FindPos(lines: Lines, ch: FileState, linebuf: array<byte>, lno: int) returns (pos: int)
    requires Session(lines, ch, linebuf) && ShortLines(ch.content)
    modifies ch.repr, linebuf, lines, lines.anchor, lines.pool
    ensures Session(lines, ch, linebuf) && fresh(ch.repr - old(ch.repr)) && ch.Onward()
    ensures old(FirmLine(lines, ch, lno)) ==> TrueLines(lines, ch)
    ensures Changed(old(Entries(lines.list)), Entries(lines.list), Entry(pos, lno))
    ensures lno <= 1 ==> pos == 0
    ensures lno > 1 && old(FirmLine(lines, ch, lno)) && pos != NULL_POSITION ==>
      IsStart(ch.content, pos) && LineNo(ch.content, pos) == lno
    ensures lno > 1 && old(FirmLine(lines, ch, lno)) && pos == NULL_POSITION ==>
      ch.sigs || lno > LineNo(ch.content, |ch.content|)
    ensures lno > 1 && old(FirmLine(lines, ch, lno)) && pos != NULL_POSITION &&
            (forall i :: 0 <= i < |old(lines.list)| ==> old(Entries(lines.list))[i].line != lno) ==>
      Added(old(Entries(lines.list)), Entries(lines.list), Entry(pos, lno))
  {
    hide Lines.Valid, FileState.Valid, FileState.Reachable, FileState.Readable, Entries, ShortLines, Added,
      FirmLine, TrueUpTo, IsStart, LineNo, ReadsBack, Grounded;
    ghost var exact := FirmLine(lines, ch, lno);
    FirmLineIsTrue(lines, ch, lno);
    if lno <= 1 {
      return 0;
    }
    var p, k := lines.NearestLine(lno);
    AnchorIsOrigin(lines);
    LinesApart(lines, ch, linebuf);
    if p.line == lno {
      if exact {
        EntryIsTrue(lines, ch, k);
        StartInRange(ch.content, p.pos);
      }
      return p.pos;
    }
    ghost var s := 0;
    if exact {
      s := GroundForLine(lines, ch, lno, k);
    }
    if p == lines.anchor || lno - p.prev.line < p.line - lno {
      pos := PosFrom(lines, ch, linebuf, p.prev, lno, s, exact);
    } else {
      pos := PosFrom(lines, ch, linebuf, p, lno, s, exact);
    }
  }

  lemma FirmLineIsTrue(lines: Lines, ch: FileState, lno: int)
    ensures FirmLine(lines, ch, lno) ==> TrueLines(lines, ch)
  {
  }

  /** The lines on both sides of a number that is not itself remembered can be walked from. */
  lemma GroundForLine(lines: Lines, ch: FileState, lno: int, k: nat) returns (s: int)
    requires lines.Valid() && ch.Valid() && FirmLine(lines, ch, lno) && lno > 1 && k <= |lines.list|
    requires forall i :: 0 <= i < k ==> lines.list[i].line < lno
    requires k < |lines.list| ==> lines.list[k].line > lno
    ensures 0 <= s <= |ch.content| && IsStart(ch.content, s) && LineNo(ch.content, s) <= lno
    ensures Walkable(lines, ch, k - 1, s) && (k < |lines.list| ==> Walkable(lines, ch, k, s))
  {
    hide FileState.Valid, FileState.Readable, FileState.Reachable, Lines.Valid, ReadsBack, Entries, Grounded;
    var i := -1;
    if ch.Lossless() {
      s := 0;
    } else {
      i :| 0 <= i < |lines.list| && Grounded(lines, ch, i) && lines.list[i].line <= lno;
      if i >= k {
        EntriesOrdered(lines, ch, k, i);
      }
      s := lines.list[i].pos;
      EntryIsTrue(lines, ch, i);
    }
    EntryIsTrue(lines, ch, k - 1);
    GroundHolds(lines, ch, i, k - 1);
    if k < |lines.list| {
      EntryIsTrue(lines, ch, k);
      GroundHolds(lines, ch, i, k);
    }
  }

  /** Walk from the line `p`, forward or back, to the one with the number, and remember it. */
  method PosFrom(lines: Lines, ch: FileState, linebuf: array<byte>, p: LineNum, lno: int,
                 ghost s: int, ghost exact: bool)
    returns (pos: int)
    requires Session(lines, ch, linebuf) && ShortLines(ch.content) && p.line != lno && lno > 1 && p !in ch.repr
    requires exact ==>
      && TrueLines(lines, ch) && ReadsBack(ch, s, p.pos) && ch.Reachable(p.pos) && ch.Readable(p.pos)
      && 0 <= s <= |ch.content| && IsStart(ch.content, s) && LineNo(ch.content, s) <= lno
    requires exact ==> IsStart(ch.content, p.pos) && p.line == LineNo(ch.content, p.pos)
    modifies ch.repr, linebuf, lines, lines.anchor, lines.pool
    ensures Session(lines, ch, linebuf) && fresh(ch.repr - old(ch.repr)) && ch.Onward()
    ensures exact ==> TrueLines(lines, ch)
    ensures Changed(old(Entries(lines.list)), Entries(lines.list), Entry(pos, lno))
    ensures exact && pos == NULL_POSITION ==> ch.sigs || lno > LineNo(ch.content, |ch.content|)
    ensures exact && pos != NULL_POSITION ==>
      && IsStart(ch.content, pos) && LineNo(ch.content, pos) == lno
      && Added(old(Entries(lines.list)), Entries(lines.list), Entry(pos, lno))
  {
    hide Lines.Valid, FileState.Valid, FileState.Reachable, FileState.Readable, Entries, ShortLines, Added,
      TrueUpTo, IsStart, LineNo;
    LinesApart(lines, ch, linebuf);
    if exact {
      StartInRange(ch.content, p.pos);
    }
    ch.ReadableSeeks(p.pos);
    ch.ValidOwnsThis();
    ghost var es, read := Entries(lines.list), ch.fpos;
    var failed := ch.ChSeek(p.pos);
    if failed {
      return NULL_POSITION;
    }
    if p.line < lno {
      pos := WalkToLine(ch, linebuf, p.pos, p.line, lno, exact);
    } else {
      pos := WalkBackToLine(ch, linebuf, p.pos, p.line, lno, s, exact);
    }
    if exact {
      TrueFurther(ch.content, ch.ispipe, es, read, ch.fpos);
    }
    if pos != NULL_POSITION {
      Remember(lines, ch, linebuf, lno, pos, exact);
    }
  }

  /** Every number up to the last is the number of a start: `find_pos` fails only past the end. */
  lemma {:induction false} StartExists(t: seq<byte>, p: nat, n: nat) returns (q: nat)
    requires p <= |t| && 1 <= n <= LineNo(t, p)
    ensures q <= p && IsStart(t, q) && LineNo(t, q) == n
  {
    if IsStart(t, p) && LineNo(t, p) == n {
      q := p;
    } else {
      q := StartExists(t, p - 1, n);
    }
  }

  /**
   * `find_pos` and `find_linenum` are inverse to each other: from any true state of the cache,
   * a number whose line exists is found, and its position has that number again.
   */
  method FindPosThenLinenum(lines: Lines, ch: FileState, linebuf: array<byte>, n: int) returns (pos: int, lno: int)
    requires Session(lines, ch, linebuf) && TrueLines(lines, ch) && ShortLines(ch.content)
    modifies ch.repr, linebuf, lines, lines.anchor, lines.pool
    ensures Session(lines, ch, linebuf) && (ch.Clean() ==> TrueLines(lines, ch))
    ensures ch.Clean() && 1 <= n <= LineNo(ch.content, |ch.content|) ==> pos != NULL_POSITION && lno == n
    ensures ch.Clean() && n > LineNo(ch.content, |ch.content|) ==> pos == NULL_POSITION && lno == 0
  {
    hide Lines.Valid, FileState.Valid, Entries, TrueLines, ShortLines, Added, Changed;
    ch.LosslessIsSure();
    pos := FindPos(lines, ch, linebuf, n);
    ch.LosslessIsSure();
    if ch.Lossless() && pos != NULL_POSITION && n > 1 {
      FirstLine(ch.content, pos);
      LineNoGrows(ch.content, pos, |ch.content|);
    }
    ghost var e;
    lno, e := FindLinenum(lines, ch, linebuf, true, pos);
  }
}
