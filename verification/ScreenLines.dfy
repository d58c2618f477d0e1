/**
 * Movement by screen lines: `forw_line` and `back_line` of archie/less/input.c, with squeeze
 * mode off.  Going back means finding the newline before and folding forward again; the main
 * theorem is that this lands where going forward had started from.
 */
module ScreenLines {
  import opened Bytes
  import opened Wrappers
  import opened PipeSlots
  import opened BlockFile
  import opened RawLines
  import opened LineBuffer

  // ---------------------------------------------------------------- the movements as functions

  /** The next screen line's start, from character `i` of the line that began before it. */
  function ForwFrom(d: Display, t: seq<byte>, i: nat, l: Line): (q: nat)
    requires d.tabstop > 0 && i <= |t|
    ensures i <= q <= |t|
    decreases |t| - i
  {
    if i == |t| then i
    else if t[i] == NEWLINE then i + 1
    else
      var (l', full) := PAppend(d, l, t[i]);
      if !full then ForwFrom(d, t, i + 1, l')
      else if d.chopline then Min(LineEnd(t, i + 1) + 1, |t|)
      else i
  }

  /** Where the screen line after the one at `p` starts. */
  function Fold(d: Display, t: seq<byte>, p: nat): (q: nat)
    requires d.tabstop > 0 && p <= |t|
    ensures p <= q <= |t|
  {
    ForwFrom(d, t, p, Fresh(d, p))
  }

  function ForwLine(d: Display, t: seq<byte>, p: int): int
    requires d.tabstop > 0
  {
    if p < 0 || p >= |t| then NULL_POSITION else Fold(d, t, p)
  }

  /** Going back either lands on a position or folds one place for ever. */
  datatype Landing = At(pos: int) | Stuck

  /**
   * Folding forward from the screen line that began at `begin`, having reached character `i`
   * of it, to the last screen line that starts before `q`.
   */
  function BackFrom(d: Display, t: seq<byte>, q: nat, begin: nat, i: nat, l: Line): Landing
    requires d.tabstop > 0 && begin <= i < q <= |t|
    decreases q - begin, q - i
  {
    if t[i] == NEWLINE then At(begin)
    else
      var (l', full) := PAppend(d, l, t[i]);
      if full then
        if d.chopline then At(begin)
        else if i == begin then Stuck
        else BackFrom(d, t, q, i, i, Fresh(d, i))
      else if i + 1 < q then BackFrom(d, t, q, begin, i + 1, l')
      else At(begin)
  }

  function BackLine(d: Display, t: seq<byte>, q: int): Landing
    requires d.tabstop > 0
  {
    if q <= 0 || q > |t| then At(NULL_POSITION)
    else
      var s := LineStart(t, q - 1);
      BackFrom(d, t, q, s, s, Fresh(d, s))
  }

  /** There is no line at or behind the end of the text, and none before its beginning. */
  lemma NoLineThere(d: Display, t: seq<byte>, p: int)
    requires d.tabstop > 0
    ensures ForwLine(d, t, p) == -1 <==> p < 0 || p >= |t|
    ensures BackLine(d, t, p) == At(-1) <==> p <= 0 || p > |t|
  {
    if 0 < p <= |t| {
      BackNotBefore(d, t, p, LineStart(t, p - 1), LineStart(t, p - 1), Fresh(d, LineStart(t, p - 1)));
    }
  }

  lemma {:induction false} BackNotBefore(d: Display, t: seq<byte>, q: nat, begin: nat, i: nat, l: Line)
    requires d.tabstop > 0 && begin <= i < q <= |t|
    ensures BackFrom(d, t, q, begin, i, l).At? ==> begin <= BackFrom(d, t, q, begin, i, l).pos < q
    decreases q - begin, q - i
  {
    hide PAppend;
    var (l', full) := PAppend(d, l, t[i]);
    if t[i] != NEWLINE {
      if full && !d.chopline && i != begin {
        BackNotBefore(d, t, q, i, i, Fresh(d, i));
      } else if !full && i + 1 < q {
        BackNotBefore(d, t, q, begin, i + 1, l');
      }
    }
  }

  // ---------------------------------------------------------------- where a line is folded

  /** The line that results from appending a text, or none if some character of it does not fit. */
  function AppendAll(d: Display, l: Line, s: seq<byte>): Option<Line>
    requires d.tabstop > 0
    decreases |s|
  {
    if s == [] then Some(l)
    else
      var (l', full) := PAppend(d, l, s[0]);
      if full then None else AppendAll(d, l', s[1..])
  }

  /**
   * A raw line that fits the screen ends behind its newline, or at the end of the text.  Any
   * other is folded at the first character that does not fit, or chopped.
   */
  lemma {:induction false} FoldedWhere(d: Display, t: seq<byte>, i: nat, l: Line)
    requires d.tabstop > 0 && i <= |t|
    ensures var e, q := LineEnd(t, i), ForwFrom(d, t, i, l);
      && (AppendAll(d, l, t[i..e]).Some? ==> q == if e < |t| then e + 1 else |t|)
      && (AppendAll(d, l, t[i..e]).None? && d.chopline ==> q == if e < |t| then e + 1 else |t|)
      && (AppendAll(d, l, t[i..e]).None? && !d.chopline ==>
            i <= q < e && AppendAll(d, l, t[i..q]).Some? && AppendAll(d, l, t[i..q + 1]).None?)
    decreases |t| - i
  {
    hide PAppend, AppendAll;
    var e := LineEnd(t, i);
    AppendNone(d, l, t[i..i]);
    if i < |t| && t[i] != NEWLINE {
      LineEndFrom(t, i, i + 1);
      var (l', full) := PAppend(d, l, t[i]);
      AppendFirst(d, l, t, i, e);
      AppendFirst(d, l, t, i, i + 1);
      AppendNone(d, l', t[i + 1..i + 1]);
      if !full {
        FoldedWhere(d, t, i + 1, l');
        var q := ForwFrom(d, t, i + 1, l');
        if q < e {
          AppendFirst(d, l, t, i, q);
          AppendFirst(d, l, t, i, q + 1);
        }
      }
    }
  }

  lemma AppendNone(d: Display, l: Line, s: seq<byte>)
    requires d.tabstop > 0 && s == []
    ensures AppendAll(d, l, s) == Some(l)
  {
  }

  lemma AppendFirst(d: Display, l: Line, t: seq<byte>, i: nat, k: nat)
    requires d.tabstop > 0 && i < k <= |t|
    ensures var (l', full) := PAppend(d, l, t[i]);
      AppendAll(d, l, t[i..k]) == if full then None else AppendAll(d, l', t[i + 1..k])
  {
    hide PAppend;
    assert t[i..k][1..] == t[i + 1..k];
  }

  /** The characters an ordinary line has room for: the columns of the screen and the places of the buffer. */
  function Room(d: Display, used: int): int {
    Max(0, Min(1022, if d.ctldisp > 0 then d.width else 1022) - used)
  }

  /** A line of characters printed as they are is folded behind as many of them as there is room for. */
  lemma {:induction false} PlainFrom(d: Display, t: seq<byte>, i: nat, l: Line)
    requires d.tabstop > 0 && i <= |t| && l.over.None? && l.pendc == NUL && l.column == |l.cells|
    requires forall k :: i <= k < LineEnd(t, i) ==> Printing(d, t[k])
    ensures var e, room := LineEnd(t, i), Room(d, l.column);
      ForwFrom(d, t, i, l) == if e - i <= room || d.chopline then Min(e + 1, |t|) else i + room
    decreases |t| - i
  {
    hide DoAppend;
    if i < |t| && t[i] != NEWLINE {
      LineEndFrom(t, i, i + 1);
      assert l.(pendc := NUL) == l;
      PlainIs(d, l, t[i]);
      var (l', full) := PAppend(d, l, t[i]);
      if !full {
        PlainFrom(d, t, i + 1, l');
      } else {
        LineEndFrom(t, i, i + 1);
      }
    }
  }

  /** The same for whole screen lines, of which the line number takes a part. */
  lemma PlainFold(d: Display, t: seq<byte>, p: nat)
    requires d.tabstop > 0 && p < |t|
    requires forall k :: p <= k < LineEnd(t, p) ==> Printing(d, t[k])
    ensures var room := Room(d, |d.prefix(p)|);
      Fold(d, t, p) == if LineEnd(t, p) - p <= room || d.chopline then Min(LineEnd(t, p) + 1, |t|) else p + room
  {
    PlainFrom(d, t, p, Fresh(d, p));
  }

  // ---------------------------------------------------------------- screen lines

  /** Folding from `b` on reaches `p`. */
  ghost predicate Reaches(d: Display, t: seq<byte>, b: nat, p: nat)
    requires d.tabstop > 0 && b <= p <= |t|
    decreases p - b
  {
    b == p || (var f := Fold(d, t, b); b < f <= p && Reaches(d, t, f, p))
  }

  /** A screen line starts at `p`: folding from the start of its raw line reaches it. */
  ghost predicate ScreenStart(d: Display, t: seq<byte>, p: nat)
    requires d.tabstop > 0
  {
    p <= |t| && Reaches(d, t, LineStart(t, p), p)
  }

  /** Where a screen line that ends before the newline does ends at a character that did not fit. */
  lemma {:induction false} BackFollows(d: Display, t: seq<byte>, q: nat, begin: nat, i: nat, l: Line)
    requires d.tabstop > 0 && begin <= i < q <= |t|
    requires forall k :: i <= k < ForwFrom(d, t, i, l) ==> t[k] != NEWLINE
    requires begin < ForwFrom(d, t, i, l) < q && ForwFrom(d, t, i, l) < |t|
    ensures var f := ForwFrom(d, t, i, l); BackFrom(d, t, q, begin, i, l) == BackFrom(d, t, q, f, f, Fresh(d, f))
    decreases q - i
  {
    var (l', full) := PAppend(d, l, t[i]);
    if t[i] != NEWLINE && !full {
      BackFollows(d, t, q, begin, i + 1, l');
    }
  }

  /** A screen line that runs from `begin` to `q` is where going back from `q` lands. */
  lemma {:induction false} BackStops(d: Display, t: seq<byte>, q: nat, begin: nat, i: nat, l: Line)
    requires d.tabstop > 0 && begin <= i < q <= |t| && ForwFrom(d, t, i, l) == q
    ensures BackFrom(d, t, q, begin, i, l) == At(begin)
    decreases q - i
  {
    var (l', full) := PAppend(d, l, t[i]);
    if t[i] != NEWLINE && !full && i + 1 < q {
      BackStops(d, t, q, begin, i + 1, l');
    }
  }

  /** Folding passes no newline except as the last character of a screen line. */
  lemma {:induction false} NoNewlineInside(d: Display, t: seq<byte>, i: nat, l: Line, k: nat)
    requires d.tabstop > 0 && i <= k < |t| && k + 1 < ForwFrom(d, t, i, l)
    ensures t[k] != NEWLINE
    decreases |t| - i
  {
    var (l', full) := PAppend(d, l, t[i]);
    if t[i] != NEWLINE {
      if !full && i < k {
        NoNewlineInside(d, t, i + 1, l', k);
      }
    }
  }

  /** Going back from beyond `p` follows the folds from `b` to `p`. */
  lemma {:induction false} BackReaches(d: Display, t: seq<byte>, q: nat, b: nat, p: nat)
    requires d.tabstop > 0 && b <= p < q <= |t| && p < |t|
    requires Reaches(d, t, b, p) && forall k :: b <= k < p ==> t[k] != NEWLINE
    ensures BackFrom(d, t, q, b, b, Fresh(d, b)) == BackFrom(d, t, q, p, p, Fresh(d, p))
    decreases p - b
  {
    if b < p {
      var f := Fold(d, t, b);
      BackFollows(d, t, q, b, b, Fresh(d, b));
      BackReaches(d, t, q, f, p);
    }
  }

  /**
   * Going back undoes going forward: from every screen line that makes progress, with folding
   * or chopping, whether it ends at a character that did not fit, a newline or the end.
   */
  lemma BackUndoesForw(d: Display, t: seq<byte>, p: nat)
    requires d.tabstop > 0 && p < |t| && ScreenStart(d, t, p) && Fold(d, t, p) > p
    ensures BackLine(d, t, ForwLine(d, t, p)) == At(p)
  {
    var q := Fold(d, t, p);
    var s := LineStart(t, p);
    forall k | p <= k < q - 1
      ensures t[k] != NEWLINE
    {
      NoNewlineInside(d, t, p, Fresh(d, p), k);
    }
    LineStartFrom(t, s, q - 1);
    BackReaches(d, t, q, s, p);
    BackStops(d, t, q, p, p, Fresh(d, p));
  }

  // ---------------------------------------------------------------- progress

  /** An empty screen line at `p` takes at least the first character. */
  predicate Accepts(d: Display, t: seq<byte>, p: nat)
    requires d.tabstop > 0 && p < |t|
  {
    t[p] == NEWLINE || d.chopline || !PAppend(d, Fresh(d, p), t[p]).1
  }

  /** A screen line makes progress exactly when it accepts a character. */
  lemma ProgressIffAccepts(d: Display, t: seq<byte>, p: nat)
    requires d.tabstop > 0 && p < |t|
    ensures Fold(d, t, p) > p <==> Accepts(d, t, p)
  {
  }

  /** On a roomy display every line makes progress. */
  lemma RoomyProgress(d: Display, t: seq<byte>, p: nat)
    requires Roomy(d) && !d.control(SPACE) && p < |t|
    ensures Fold(d, t, p) > p
  {
    RoomyAccepts(d, p, t[p]);
  }

  /** A screen line that does not accept its first character and starts before `q` traps `back_line`. */
  lemma {:induction false} StuckThere(d: Display, t: seq<byte>, q: nat, b: nat, p: nat)
    requires d.tabstop > 0 && b <= p < q <= |t|
    requires Reaches(d, t, b, p) && (forall k :: b <= k < p ==> t[k] != NEWLINE) && !Accepts(d, t, p)
    ensures BackFrom(d, t, q, b, b, Fresh(d, b)) == Stuck
  {
    BackReaches(d, t, q, b, p);
  }

  /** Going back gets stuck only at a screen line that does not accept its first character. */
  lemma {:induction false} StuckWhere(d: Display, t: seq<byte>, q: nat, begin: nat, i: nat, l: Line) returns (p: nat)
    requires d.tabstop > 0 && begin <= i < q <= |t| && BackFrom(d, t, q, begin, i, l) == Stuck
    requires i == begin ==> l == Fresh(d, begin)
    requires ForwFrom(d, t, i, l) == Fold(d, t, begin)
    ensures begin <= p < q && Reaches(d, t, begin, p) && !Accepts(d, t, p)
    decreases q - begin, q - i
  {
    var (l', full) := PAppend(d, l, t[i]);
    if full {
      if i == begin {
        p := begin;
      } else {
        p := StuckWhere(d, t, q, i, i, Fresh(d, i));
      }
    } else {
      p := StuckWhere(d, t, q, begin, i + 1, l');
    }
  }

  /**
   * `back_line` ends exactly when every screen line of the raw line before `q` that starts
   * before `q` accepts a character.
   */
  lemma BackEndsIffAccepts(d: Display, t: seq<byte>, q: nat)
    requires d.tabstop > 0 && 0 < q <= |t|
    ensures BackLine(d, t, q) == Stuck <==>
      exists p: nat :: LineStart(t, q - 1) <= p < q && Reaches(d, t, LineStart(t, q - 1), p) && !Accepts(d, t, p)
  {
    var s := LineStart(t, q - 1);
    if p: nat :| s <= p < q && Reaches(d, t, s, p) && !Accepts(d, t, p) {
      StuckThere(d, t, q, s, p);
    } else if BackLine(d, t, q) == Stuck {
      var p := StuckWhere(d, t, q, s, s, Fresh(d, s));
    }
  }

  /** A screen one column wide, on which control characters are shown as a caret and a letter. */
  function Narrow(): Display {
    Display(1, 8, BsSpecial, 1, Normal, (c: byte) => c < 32, (c: byte) => [94, 65], (p: nat) => [], false)
  }

  /** Going back over a line that holds only such a character never ends there. */
  lemma NarrowIsStuck()
    ensures PlainPrefix(Narrow()) && BackLine(Narrow(), [1], 1) == Stuck
  {
    var d, t: seq<byte> := Narrow(), [1];
    assert LineStart(t, 0) == 0;
    assert |d.prchar(1)| == 2;
    assert PAppend(d, Fresh(d, 0), 1).1;
  }

  /** With progress, folding from `b` reaches the next raw line. */
  lemma {:induction false} ReachesNext(d: Display, t: seq<byte>, b: nat)
    requires d.tabstop > 0 && b < |t|
    requires forall p: nat :: b <= p < |t| ==> Fold(d, t, p) > p
    ensures Reaches(d, t, b, NextStart(t, b))
    decreases |t| - b
  {
    var f, q := Fold(d, t, b), NextStart(t, b);
    FoldWithinLine(d, t, b, Fresh(d, b));
    if f < q {
      LineEndFrom(t, b, f);
      ReachesNext(d, t, f);
    }
  }

  lemma {:induction false} FoldWithinLine(d: Display, t: seq<byte>, i: nat, l: Line)
    requires d.tabstop > 0 && i < |t|
    ensures ForwFrom(d, t, i, l) <= NextStart(t, i)
    ensures ForwFrom(d, t, i, l) < NextStart(t, i) ==> ForwFrom(d, t, i, l) <= LineEnd(t, i)
    decreases |t| - i
  {
    if t[i] != NEWLINE {
      LineEndFrom(t, i, i + 1);
      var (l', full) := PAppend(d, l, t[i]);
      if !full && i + 1 < |t| {
        FoldWithinLine(d, t, i + 1, l');
      }
    }
  }

  /** The screen line before the one at `q`, among those reached from `b`. */
  lemma {:induction false} Predecessor(d: Display, t: seq<byte>, b: nat, q: nat) returns (p: nat)
    requires d.tabstop > 0 && b < q <= |t| && Reaches(d, t, b, q)
    ensures b <= p < q && Reaches(d, t, b, p) && Fold(d, t, p) == q
    decreases q - b
  {
    var f := Fold(d, t, b);
    if f == q {
      p := b;
    } else {
      p := Predecessor(d, t, f, q);
    }
  }

  /** The other way round: with progress, going forward undoes going back from any screen line. */
  lemma ForwUndoesBack(d: Display, t: seq<byte>, q: nat)
    requires d.tabstop > 0 && 0 < q && ScreenStart(d, t, q)
    requires forall p: nat :: p < |t| ==> Fold(d, t, p) > p
    ensures BackLine(d, t, q).At? && 0 <= BackLine(d, t, q).pos < q
    ensures ScreenStart(d, t, BackLine(d, t, q).pos) && ForwLine(d, t, BackLine(d, t, q).pos) == q
  {
    var s := LineStart(t, q);
    if s == q {
      s := LineStart(t, q - 1);
      LineEndFrom(t, s, q - 1);
      ReachesNext(d, t, s);
    } else {
      LineStartFrom(t, s, q - 1);
    }
    var p := Predecessor(d, t, s, q);
    LineStartFrom(t, s, p);
    BackUndoesForw(d, t, p);
  }

  // ---------------------------------------------------------------- the code

  /** A file and a line buffer, in different storage. */
  ghost predicate Ready(ch: FileState, lb: LineBuf)
    reads ch, ch.repr, lb
  {
    && ch.Valid() && ch.nbufs >= 1 && lb.Valid()
    && lb !in ch.repr && lb.linebuf !in ch.repr && lb.attr !in ch.repr
  }

  /**
   * Read on while the character is on the line: to the newline or the end.  Where a pipe has
   * lost data this ends exactly where it is required to here (`PipeSlots.SkipEndsIff`;
   * `PipeLoss.SkipNeverEnds` for every other state).
   */
  method SkipToNewline(ch: FileState, lb: LineBuf) returns (newPos: int)
    requires Ready(ch, lb) && ch.SkipEndsAt(ch.Tell())
    modifies ch.repr
    ensures Ready(ch, lb) && fresh(ch.repr - old(ch.repr)) && ch.Onward() && newPos == ch.Tell()
    ensures old(ch.Sure() && ch.Reachable(ch.Tell())) ==>
      ch.Reachable(newPos) && (!ch.sigs ==> newPos == Min(LineEnd(ch.content, old(ch.Tell())) + 1, |ch.content|))
  {
    hide FileState.Valid, FileState.Reads, FileState.Ran, FileState.Reachable, FileState.Sure, FileState.SkipEndsAt,
      FileState.Answered, FileState.Supplied, FileState.Settled, FileState.Supply, FileState.Lost;
    ghost var t := ch.content;
    ghost var sure := ch.Sure() && ch.Reachable(ch.Tell());
    if sure {
      ch.ReachableInFile(ch.Tell());
    }
    ch.ValidOwnsThis();
    ghost var p := ch.Tell();
    var c := 0;
    while c != NEWLINE && c != EOI
      invariant Ready(ch, lb) && fresh(ch.repr - old(ch.repr)) && ch.Onward()
      invariant c != NEWLINE && c != EOI ==> ch.SkipEndsAt(ch.Tell())
      invariant sure ==> ch.Sure() && ch.Reachable(ch.Tell()) && 0 <= ch.Tell() <= |t|
      invariant sure && !ch.sigs && c != NEWLINE && c != EOI ==> p <= ch.Tell() <= LineEnd(t, p)
      invariant sure && !ch.sigs && c == NEWLINE ==> LineEnd(t, p) < |t| && ch.Tell() == LineEnd(t, p) + 1
      invariant sure && !ch.sigs && c == EOI ==> ch.Tell() == LineEnd(t, p) == |t|
      decreases c != NEWLINE && c != EOI, |t| + BUFSIZ - ch.Tell()
    {
      c := ch.ChForwGet();
      if sure {
        ch.ReachableInFile(ch.Tell());
      }
    }
    newPos := ch.Tell();
  }

  /** A question mark, which stands for lost characters, makes a line longer. */
  predicate QuestionShows(d: Display) {
    Shows(d, QUESTION)
  }

  /** Filling and skipping a screen line from here ends, whatever has been lost. */
  ghost predicate LineEnds(ch: FileState, d: Display, pos: int)
    reads ch, ch.chain`block, ch.chain`datasize
  {
    ch.SkipEndsAt(pos) || (!d.chopline && QuestionShows(d))
  }

  /**
   * Move to the next screen line.  From a position where nothing has been lost the result is
   * exact unless a signal comes, also when a buffer cannot be allocated on the way.
   */
  method ForwScreenLine(ch: FileState, lb: LineBuf, d: Display, currPos: int) returns (newPos: int)
    requires Ready(ch, lb) && d.tabstop > 0 && PlainPrefix(d)
    requires ch.CanSeek(currPos) ==> ch.Readable(currPos) || LineEnds(ch, d, currPos)
    modifies ch.repr, lb, lb.linebuf, lb.attr
    ensures Ready(ch, lb) && fresh(ch.repr - old(ch.repr)) && ch.Onward()
    ensures !old(ch.CanSeek(currPos)) ==> newPos == NULL_POSITION
    ensures old(ch.Readable(currPos)) ==>
      && (newPos != NULL_POSITION ==> ch.Reachable(newPos))
      && (!ch.sigs ==> newPos == ForwLine(d, ch.content, currPos))
  {
    hide FileState.Valid, FileState.Reads, FileState.Ran, FileState.Reachable, FileState.Sure, FileState.CanSeek,
      FileState.Readable, FileState.SkipEndsAt, PAppend, Fresh, LineBuf.View, PlainPrefix, Fold;
    ch.ValidOwnsThis();
    ch.ReadableSeeks(currPos);
    if currPos == NULL_POSITION {
      lb.NullLine();
      return NULL_POSITION;
    }
    var failed := ch.ChSeek(currPos);
    if failed {
      lb.NullLine();
      return NULL_POSITION;
    }
    newPos := StartLine(ch, lb, d, currPos);
  }

  /** Start a new line at `currPos` and fill it. */
  method StartLine(ch: FileState, lb: LineBuf, d: Display, currPos: int) returns (newPos: int)
    requires Ready(ch, lb) && d.tabstop > 0 && PlainPrefix(d) && ch.CanSeek(currPos)
    requires ch.Readable(currPos) || LineEnds(ch, d, currPos)
    modifies ch.repr, lb, lb.linebuf, lb.attr
    ensures Ready(ch, lb) && fresh(ch.repr - old(ch.repr)) && ch.Onward()
    ensures old(ch.Readable(currPos)) ==>
      && (newPos != NULL_POSITION ==> ch.Reachable(newPos))
      && (!ch.sigs ==> newPos == ForwLine(d, ch.content, currPos))
  {
    hide FileState.Valid, FileState.Reads, FileState.Ran, FileState.Reachable, FileState.Sure, FileState.CanSeek,
      FileState.Readable, FileState.SkipEndsAt, FileState.Answered, FileState.Supplied, FileState.Settled,
      FileState.Supply, FileState.Lost, PAppend, Fresh, LineBuf.View, PlainPrefix, Fold;
    ch.ValidOwnsThis();
    ch.ReadableSeeks(currPos);
    ghost var sure := ch.Readable(currPos);
    lb.Prewind();
    lb.Plinenum(d, currPos);
    var failed := ch.ChSeek(currPos);
    ch.SureSkips();
    var c := ForwChar(ch, sure, sure || ch.SkipEndsAt(ch.Tell()));
    if c == EOI {
      lb.NullLine();
      return NULL_POSITION;
    }
    newPos := FoldForward(ch, lb, d, currPos, c, sure);
  }

  lemma FreshHolds(d: Display, pos: nat)
    ensures Fresh(d, pos).pendc == NUL
  {
  }

  lemma ViewFits(lb: LineBuf)
    requires lb.Valid()
    ensures |lb.View().cells| <= MAX_CELLS
  {
  }

  /**
   * Fill the line from its first character `c0` on, to a newline, the end or a character that
   * does not fit; `sure` says that nothing has been lost here.
   */
  method FoldForward(ch: FileState, lb: LineBuf, d: Display, currPos: int, c0: int, ghost sure: bool)
    returns (newPos: int)
    requires Ready(ch, lb) && d.tabstop > 0 && 0 <= c0 < 256 && 0 <= currPos && ch.Tell() == currPos + 1
    requires c0 == QUESTION as int || (currPos < |ch.content| && c0 == ch.content[currPos] as int)
    requires c0 == NEWLINE as int || LineEnds(ch, d, ch.Tell())
    requires sure ==> ch.Sure() && ch.Reachable(currPos) && ch.Reachable(currPos + 1) && currPos < |ch.content|
    requires lb.View() == Fresh(d, currPos) && (sure && !ch.sigs ==> c0 == ch.content[currPos] as int)
    modifies ch.repr, lb, lb.linebuf, lb.attr
    ensures Ready(ch, lb) && fresh(ch.repr - old(ch.repr)) && ch.Onward()
    ensures sure ==>
      && (newPos != NULL_POSITION ==> ch.Reachable(newPos)) && currPos < |ch.content|
      && (!ch.sigs ==> newPos == Fold(d, ch.content, currPos))
  {
    hide FileState.Valid, FileState.Reads, FileState.Ran, FileState.Reachable, FileState.Sure, FileState.SkipEndsAt,
      FileState.Answered, FileState.Supplied, FileState.Settled, FileState.Supply, FileState.Lost,
      PAppend, Fresh, LineBuf.View;
    ghost var t := ch.content;
    ch.ValidOwnsThis();
    FreshHolds(d, currPos);
    ViewFits(lb);
    var c := c0;
    ghost var i := currPos;
    ghost var ends := c0 == NEWLINE as int || ch.SkipEndsAt(ch.Tell());
    while true
      invariant Ready(ch, lb) && fresh(ch.repr - old(ch.repr)) && ch.Onward()
      invariant -1 <= c < 256 && ch.Tell() == i + if c == EOI then 0 else 1
      invariant 0 <= currPos <= i && (c == EOI || c == QUESTION as int || c == CharAt(t, i))
      invariant c != NEWLINE as int && c != EOI ==> if ends then ch.SkipEndsAt(ch.Tell()) else LineEnds(ch, d, -1)
      invariant sure ==> i <= |t| && ch.Tell() <= |t| && ch.Sure() && ch.Reachable(ch.Tell())
      invariant sure && c != EOI ==> ch.Reachable(ch.Tell() - 1)
      invariant sure && !ch.sigs ==> c == CharAt(t, i) && ForwFrom(d, t, i, lb.View()) == Fold(d, t, currPos)
      invariant lb.View().pendc == NUL || lb.View().pendc == RETURN
      decreases c != EOI && c != NEWLINE as int, if ends then |t| + BUFSIZ - i else Max(0, |t| - i),
        MAX_CELLS - |lb.View().cells|
    {
      if ch.sigs {
        lb.NullLine();
        return NULL_POSITION;
      }
      if c == NEWLINE as int || c == EOI {
        newPos := ch.Tell();
        break;
      }
      ShownAdds(d, lb.View(), c);
      ViewFits(lb);
      var full := lb.Pappend(d, c);
      if full {
        if d.chopline {
          newPos := SkipToNewline(ch, lb);
        } else {
          newPos := ch.Tell() - 1;
        }
        break;
      }
      c := ForwChar(ch, sure, ends);
      i := i + 1;
    }
  }

  /** Scan backward to the start of the raw line; a signal makes the scan give up. */
  method ScanBack(ch: FileState, lb: LineBuf, ghost sure: bool) returns (newPos: int, abort: bool)
    requires Ready(ch, lb) && 0 <= ch.Tell()
    requires sure ==> ch.Tell() <= |ch.content| && Recoverable(ch, ch.Tell() + 1)
    modifies ch.repr
    ensures Ready(ch, lb) && fresh(ch.repr - old(ch.repr)) && ch.Onward()
    ensures abort ==> ch.sigs
    ensures !abort ==> 0 <= newPos <= old(ch.Tell())
    ensures !abort && sure && !ch.sigs ==> newPos == LineStart(ch.content, old(ch.Tell())) && ch.Reachable(newPos)
  {
    hide FileState.Valid, FileState.Reads, FileState.Ran;
    ghost var t := ch.content;
    ch.ValidOwnsThis();
    ch.LosslessIsSure();
    ghost var q := ch.Tell();
    ghost var s := if q <= |t| then LineStart(t, q) else 0;
    abort := false;
    while true
      invariant Ready(ch, lb) && fresh(ch.repr - old(ch.repr)) && ch.Onward() && 0 <= ch.Tell() <= q
      invariant sure ==> q <= |t| && ReadsBack(ch, s, q) && (!ch.sigs ==> s <= ch.Tell())
      decreases ch.Tell()
    {
      if ch.sigs {
        return NULL_POSITION, true;
      }
      var c := BackChar(ch, s, q, sure);
      if c == NEWLINE as int {
        newPos := ch.Tell() + 1;
        break;
      }
      if c == EOI {
        newPos := ch.Tell();
        if ch.Lossless() {
          ch.StartIsReachable();
        }
        break;
      }
    }
  }

  /** Every character fits an empty screen line. */
  ghost predicate AcceptsEvery(d: Display)
    requires d.tabstop > 0
  {
    forall p: nat, c: byte :: !PAppend(d, Fresh(d, p), c).1
  }

  lemma RoomyAcceptsEvery(d: Display)
    requires Roomy(d) && !d.control(SPACE)
    ensures AcceptsEvery(d)
  {
    forall p: nat, c: byte
      ensures !PAppend(d, Fresh(d, p), c).1
    {
      RoomyAccepts(d, p, c);
    }
  }

  /** How folding one screen line on the way forward to `q` ends. */
  datatype Folding = Aborted | Landed | FoldedAt(pos: int)

  /** Fold the screen line that starts at `begin`, on the way forward to `q`. */
  method FoldOne(ch: FileState, lb: LineBuf, d: Display, begin: int, q: int, ghost sure: bool) returns (r: Folding)
    requires Ready(ch, lb) && d.tabstop > 0 && PlainPrefix(d) && 0 <= begin < q && lb.View() == Fresh(d, begin)
    requires sure ==> ch.Sure() && q <= |ch.content| && ch.Tell() == begin
    modifies ch.repr, lb, lb.linebuf, lb.attr
    ensures Ready(ch, lb) && fresh(ch.repr - old(ch.repr)) && ch.Onward()
    ensures if r.Aborted? then sure ==> ch.sigs else !old(ch.sigs)
    ensures r.FoldedAt? ==>
      begin <= r.pos < q && !d.chopline && (AcceptsEvery(d) ==> begin < r.pos)
    ensures sure && r.Landed? ==> BackFrom(d, ch.content, q, begin, begin, Fresh(d, begin)) == Landing.At(begin)
    ensures sure && r.FoldedAt? ==>
      && ch.Reachable(r.pos)
      && BackFrom(d, ch.content, q, begin, begin, Fresh(d, begin)) ==
           if r.pos == begin then Stuck else BackFrom(d, ch.content, q, r.pos, r.pos, Fresh(d, r.pos))
  {
    hide FileState.Valid, FileState.Reads, FileState.Ran, FileState.Sure, FileState.SkipEndsAt, FileState.Lost,
      FileState.Answered, FileState.Supplied, FileState.Settled, FileState.Supply,
      PAppend, Fresh, LineBuf.View, PlainPrefix;
    ghost var t := ch.content;
    ch.ValidOwnsThis();
    var newPos := begin;
    while true
      invariant Ready(ch, lb) && fresh(ch.repr - old(ch.repr)) && ch.Onward()
      invariant begin <= newPos < q && (newPos > begin ==> !old(ch.sigs))
      invariant newPos == begin ==> lb.View() == Fresh(d, begin)
      invariant sure ==> ch.Sure() && ch.Tell() == newPos
      invariant sure ==> BackFrom(d, t, q, begin, newPos, lb.View()) == BackFrom(d, t, q, begin, begin, Fresh(d, begin))
      decreases q - newPos
    {
      var c := ch.ChForwGet();
      if c == EOI || ch.sigs {
        return Aborted;
      }
      newPos := newPos + 1;
      if c == NEWLINE as int {
        return Landed;
      }
      var full := lb.Pappend(d, c);
      if full {
        if d.chopline {
          return Landed;
        }
        var c' := ch.ChBackGet();
        return FoldedAt(newPos - 1);
      }
      if newPos >= q {
        return Landed;
      }
    }
  }

  /**
   * Move to the previous screen line: back to the start of the raw line, then forward by folds.
   * Where that raw line and the newline before it can be read again the result is exact unless a
   * signal comes; elsewhere the movement still ends, on a display that folds no line in its place.
   */
  method BackScreenLine(ch: FileState, lb: LineBuf, d: Display, currPos: int) returns (newPos: int)
    requires Ready(ch, lb) && d.tabstop > 0 && PlainPrefix(d)
    requires Recoverable(ch, currPos) ==> currPos <= |ch.content| && BackLine(d, ch.content, currPos) != Stuck
    requires !Recoverable(ch, currPos) ==> d.chopline || AcceptsEvery(d)
    modifies ch.repr, lb, lb.linebuf, lb.attr
    ensures Ready(ch, lb) && fresh(ch.repr - old(ch.repr)) && ch.Onward()
    ensures !old(ch.CanSeek(currPos - 1)) ==> newPos == NULL_POSITION
    ensures old(Recoverable(ch, currPos) && ch.CanSeek(currPos - 1)) && !ch.sigs ==>
      BackLine(d, ch.content, currPos) == Landing.At(newPos)
  {
    hide FileState.Valid, FileState.Reads, FileState.Ran, FileState.CanSeek, FileState.Reachable, FileState.Readable,
      FileState.Sure, PAppend, Fresh, LineBuf.View, PlainPrefix, BackFrom, AcceptsEvery;
    ghost var t := ch.content;
    ch.ValidOwnsThis();
    ch.ReadableSeeks(currPos - 1);
    if currPos == NULL_POSITION || currPos <= 0 {
      lb.NullLine();
      return NULL_POSITION;
    }
    ghost var sure := Recoverable(ch, currPos);
    var failed := ch.ChSeek(currPos - 1);
    if failed {
      lb.NullLine();
      return NULL_POSITION;
    }
    var abort;
    newPos, abort := ScanBack(ch, lb, sure);
    if abort {
      lb.NullLine();
      return NULL_POSITION;
    }
    if sure && !ch.sigs {
      ch.SeekBack(newPos);
    }
    ch.ReadableSeeks(newPos);
    failed := ch.ChSeek(newPos);
    if failed {
      lb.NullLine();
      return NULL_POSITION;
    }
    newPos := FoldOn(ch, lb, d, newPos, currPos, sure && !ch.sigs);
  }

  /** From the start of a raw line, the last screen line that starts before `q`. */
  method FoldOn(ch: FileState, lb: LineBuf, d: Display, start: int, q: int, ghost sure: bool) returns (newPos: int)
    requires Ready(ch, lb) && d.tabstop > 0 && PlainPrefix(d) && 0 <= start < q
    requires sure ==> q <= |ch.content| && ch.Readable(start)
    requires sure ==> BackFrom(d, ch.content, q, start, start, Fresh(d, start)) != Stuck
    requires !sure ==> ch.sigs || d.chopline || AcceptsEvery(d)
    modifies ch.repr, lb, lb.linebuf, lb.attr
    ensures Ready(ch, lb) && fresh(ch.repr - old(ch.repr)) && ch.Onward()
    ensures sure && !ch.sigs ==> BackFrom(d, ch.content, q, start, start, Fresh(d, start)) == Landing.At(newPos)
  {
    hide FileState.Valid, FileState.Reads, FileState.Ran, FileState.CanSeek, FileState.Reachable, FileState.Readable,
      FileState.Sure, PAppend, Fresh, LineBuf.View, PlainPrefix, BackFrom, AcceptsEvery;
    ghost var t := ch.content;
    ch.ValidOwnsThis();
    newPos := start;
    var beginNewPos;
    while true
      invariant Ready(ch, lb) && fresh(ch.repr - old(ch.repr)) && ch.Onward() && 0 <= newPos < q
      invariant sure ==>
        && ch.Readable(newPos)
        && BackFrom(d, t, q, newPos, newPos, Fresh(d, newPos)) == BackFrom(d, t, q, start, start, Fresh(d, start))
      invariant !sure ==> ch.sigs || d.chopline || AcceptsEvery(d)
      decreases q - newPos
    {
      beginNewPos := newPos;
      lb.Prewind();
      lb.Plinenum(d, newPos);
      ch.ReadableSeeks(newPos);
      var failed := ch.ChSeek(newPos);
      var r := FoldOne(ch, lb, d, beginNewPos, q, sure);
      match r {
        case Aborted =>
          lb.NullLine();
          return NULL_POSITION;
        case Landed =>
          return beginNewPos;
        case FoldedAt(pos) =>
          if sure {
            ch.SeekBack(pos);
          }
          newPos := pos;
      }
    }
  }

  /**
   * The two movements after each other: from a screen line that accepts a character, back to
   * where it began, if nothing was lost on the way and no signal came.  Going back after a loss
   * is tried only on a `tame` display, where it ends.
   */
  method ThereAndBack(ch: FileState, lb: LineBuf, d: Display, p: int, tame: bool) returns (newPos: int, back: int)
    requires Ready(ch, lb) && d.tabstop > 0 && PlainPrefix(d) && ch.CanSeek(p) && ch.Readable(p)
    requires 0 <= p < |ch.content| && ScreenStart(d, ch.content, p) && Accepts(d, ch.content, p)
    requires tame ==> d.chopline || AcceptsEvery(d)
    modifies ch.repr, lb, lb.linebuf, lb.attr
    ensures Ready(ch, lb) && (ch.Clean() && (tame || (ch.ispipe ==> ch.autobuf)) ==> newPos > p && back == p)
  {
    hide FileState.Valid, FileState.CanSeek, FileState.Reachable, FileState.Readable, PAppend, Fresh, LineBuf.View,
      PlainPrefix, BackFrom, Fold, ScreenStart, Accepts, AcceptsEvery;
    ProgressIffAccepts(d, ch.content, p);
    BackUndoesForw(d, ch.content, p);
    newPos := ForwScreenLine(ch, lb, d, p);
    back := NULL_POSITION;
    ch.AutoIsLossless();
    ch.LosslessIsSure();
    if newPos == ForwLine(d, ch.content, p) && (tame || !ch.ispipe || ch.autobuf) {
      ch.ReachableInFile(newPos);
      ch.SeekBack(newPos);
      ch.SeekBack(newPos - 1);
      ch.ReadableSeeks(newPos - 1);
      back := BackScreenLine(ch, lb, d, newPos);
    }
  }
}
