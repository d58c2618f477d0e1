/**
 * Building one screen line: the line buffer of archie/less/line.c, for terminals whose
 * attribute sequences take no room on the screen.
 *
 * `Line` is the buffer as a value; `PAppend` on it decides where a long line is folded.
 */
module LineBuffer {
  import opened Bytes
  import opened Wrappers

  const BACKSPACE: byte := 8
  const TAB: byte := 9
  const RETURN: byte := 13
  const SPACE: byte := 32
  const UNDERSCORE: byte := 95

  /** The size of `linebuf`, and the most characters a line holds before it is terminated. */
  const LINEBUF_SIZE := 1024
  const MAX_CELLS := 1022

  datatype Attr = Normal | Underline | Bold | Blink

  datatype BsMode = BsSpecial | BsNormal | BsControl

  /**
   * The options and tables that decide how characters are displayed.  `prefix` is the line
   * number, with its padding, shown before the line at a position (nothing by default).
   */
  datatype Display = Display(
    width: int,
    tabstop: nat,
    bsMode: BsMode,
    ctldisp: int,
    binattr: Attr,
    control: byte -> bool,
    prchar: byte -> seq<byte>,
    prefix: nat -> seq<byte>,
    chopline: bool)

  datatype Cell = Cell(ch: byte, attr: Attr)

  /**
   * A line under construction.  `over` is the character a backspace has stepped back onto;
   * `pendc` a carriage return not yet dealt with, or NUL.
   */
  datatype Line = Line(cells: seq<Cell>, column: int, over: Option<byte>, pendc: byte)

  // ---------------------------------------------------------------- the line as a value

  /** The width of a character on the screen. */
  function PWidth(d: Display, c: byte): (w: int)
    ensures -1 <= w <= 1
  {
    if c == BACKSPACE then -1 else if d.control(c) then 0 else 1
  }

  function WidthOf(d: Display, cells: seq<Cell>): int {
    if cells == [] then 0 else WidthOf(d, cells[..|cells| - 1]) + PWidth(d, cells[|cells| - 1].ch)
  }

  /** Line numbers fit the buffer and are made of characters that take one column. */
  ghost predicate PlainPrefix(d: Display) {
    forall p: nat :: |d.prefix(p)| <= MAX_CELLS && forall c :: c in d.prefix(p) ==> PWidth(d, c) == 1
  }

  function Shown(s: seq<byte>, a: Attr): (cells: seq<Cell>)
    ensures |cells| == |s| && forall i :: 0 <= i < |s| ==> cells[i] == Cell(s[i], a)
  {
    seq(|s|, i requires 0 <= i < |s| => Cell(s[i], a))
  }

  /** A new line, holding only the line number. */
  function Fresh(d: Display, pos: nat): Line {
    Line(Shown(d.prefix(pos), Normal), |d.prefix(pos)|, None, NUL)
  }

  /** Store one character if it fits. */
  function StoreC(d: Display, l: Line, c: byte, a: Attr): Option<Line> {
    if d.ctldisp > 0 && l.column + PWidth(d, c) > d.width then None
    else if |l.cells| >= MAX_CELLS then None
    else Some(l.(cells := l.cells + [Cell(c, a)], column := l.column + PWidth(d, c)))
  }

  /** Store a run of characters; `true` when one does not fit. */
  function StoreAll(d: Display, l: Line, s: seq<byte>, a: Attr): (Line, bool)
    decreases |s|
  {
    if s == [] then (l, false)
    else
      match StoreC(d, l, s[0], a)
      case None => (l, true)
      case Some(l') => StoreAll(d, l', s[1..], a)
  }

  /** Expand a tab into spaces. */
  function StoreTab(d: Display, l: Line): (Line, bool)
    requires d.tabstop > 0
    decreases Max(0, MAX_CELLS - |l.cells|)
  {
    match StoreC(d, l, SPACE, Normal)
    case None => (l, true)
    case Some(l') => if l'.column % d.tabstop != 0 then StoreTab(d, l') else (l', false)
  }

  function StoreControl(d: Display, l: Line, c: byte): (Line, bool) {
    if d.ctldisp == 0 then StoreAll(d, l, [c], Normal)
    else if l.column + |d.prchar(c)| > d.width then (l, true)
    else StoreAll(d, l, d.prchar(c), d.binattr)
  }

  /** Step back over the last character. */
  function BackC(d: Display, l: Line): Line
    requires l.cells != []
  {
    var n := |l.cells| - 1;
    Line(l.cells[..n], l.column - PWidth(d, l.cells[n].ch), Some(l.cells[n].ch), l.pendc)
  }

  function DoAppend(d: Display, l0: Line, c: byte): (Line, bool)
    requires d.tabstop > 0
  {
    if l0.over.Some? then
      var l, u := l0.(over := None), l0.over.value;
      if c == u then StoreAll(d, l, [u], Bold)
      else if c == UNDERSCORE then StoreAll(d, l, [u], Underline)
      else if u == UNDERSCORE then StoreAll(d, l, [c], Underline)
      else if d.control(c) then StoreControl(d, l, c)
      else StoreAll(d, l, [c], Normal)
    else if c == BACKSPACE then
      match d.bsMode
      case BsNormal => StoreAll(d, l0, [c], Normal)
      case BsControl => StoreControl(d, l0, c)
      case BsSpecial => if l0.cells == [] then (l0, false) else (BackC(d, l0), false)
    else if c == TAB then StoreTab(d, l0)
    else if d.control(c) then StoreControl(d, l0, c)
    else StoreAll(d, l0, [c], Normal)
  }

  /** Append a character; `true` when the line is full and the character does not fit. */
  function PAppend(d: Display, l: Line, c: byte): (Line, bool)
    requires d.tabstop > 0
  {
    var (l1, full) := if l.pendc != NUL then DoAppend(d, l, l.pendc) else (l, false);
    if full then (l1, true)
    else
      var l2 := l1.(pendc := NUL);
      if c == RETURN && d.bsMode == BsSpecial then (l2.(pendc := c), false) else DoAppend(d, l2, c)
  }

  // ---------------------------------------------------------------- what a character becomes

  /** A backspace goes back one column and a control character stays where it is. */
  lemma WidthIs(d: Display, c: byte)
    ensures c == 8 ==> PWidth(d, c) == -1
    ensures c != 8 ==> PWidth(d, c) == if d.control(c) then 0 else 1
  {
  }

  /**
   * One character takes one place of the 1022 there are and, with control characters shown or
   * dropped, columns up to the width of the screen.
   */
  ghost predicate HasRoom(d: Display, l: Line, c: byte) {
    && |l.cells| < 1022
    && (d.ctldisp > 0 ==> l.column + (if c == 8 then -1 else if d.control(c) then 0 else 1) <= d.width)
  }

  lemma StoresOne(d: Display, l: Line, c: byte, a: Attr)
    ensures var (l', full) := StoreAll(d, l, [c], a);
      && full == !HasRoom(d, l, c)
      && (full ==> l' == l)
      && (!full ==> l'.cells == l.cells + [Cell(c, a)] && l'.column == l.column + PWidth(d, c)
                    && l'.over == l.over && l'.pendc == l.pendc)
  {
    var r := StoreC(d, l, c, a);
    if r.Some? {
      assert StoreAll(d, r.value, [c][1..], a) == (r.value, false);
    }
  }

  /** A run that fits is stored whole. */
  lemma {:induction false} StoresRun(d: Display, l: Line, s: seq<byte>, a: Attr)
    ensures var (l', full) := StoreAll(d, l, s, a);
      !full ==> l'.cells == l.cells + Shown(s, a) && l'.over == l.over && l'.pendc == l.pendc
    decreases |s|
  {
    if s != [] {
      var r := StoreC(d, l, s[0], a);
      if r.Some? {
        StoresRun(d, r.value, s[1..], a);
        assert Shown(s, a) == [Cell(s[0], a)] + Shown(s[1..], a);
      }
    }
  }

  /** A run of characters of one column fits if all its places and columns do. */
  lemma {:induction false} RunFits(d: Display, l: Line, s: seq<byte>, a: Attr)
    requires s != [] && forall c :: c in s ==> PWidth(d, c) == 1
    ensures var (l', full) := StoreAll(d, l, s, a);
      && full == !(|l.cells| + |s| <= 1022 && (d.ctldisp > 0 ==> l.column + |s| <= d.width))
      && (!full ==> l'.column == l.column + |s|)
    decreases |s|
  {
    hide PWidth;
    assert PWidth(d, s[0]) == 1;
    var r := StoreC(d, l, s[0], a);
    if r.Some? {
      if |s| > 1 {
        RunFits(d, r.value, s[1..], a);
      } else {
        assert s[1..] == [];
      }
    }
  }

  /**
   * A control character is stored as it is with `-r`, and else in its printed form, if the form
   * fits the screen as a whole and its places are free.
   */
  ghost predicate ShowsControl(d: Display, l: Line, c: byte, l': Line, full: bool) {
    var form := d.prchar(c);
    if d.ctldisp == 0 then
      && full == !HasRoom(d, l, c)
      && (!full ==> l'.cells == l.cells + [Cell(c, Normal)] && l'.column == l.column + PWidth(d, c))
    else
      && (!full ==> l'.cells == l.cells + Shown(form, d.binattr))
      && ((forall x :: x in form ==> PWidth(d, x) == 1) ==>
            && full == !(l.column + |form| <= d.width && (form == [] || |l.cells| + |form| <= 1022))
            && (!full ==> l'.column == l.column + |form|))
  }

  lemma StoresControl(d: Display, l: Line, c: byte)
    ensures ShowsControl(d, l, c, StoreControl(d, l, c).0, StoreControl(d, l, c).1)
  {
    hide StoreAll, PWidth;
    var form := d.prchar(c);
    StoresOne(d, l, c, Normal);
    StoresRun(d, l, form, d.binattr);
    StoresNone(d, l, d.binattr);
    assert form == [] ==> l.cells + Shown(form, d.binattr) == l.cells;
    if form != [] && forall x :: x in form ==> PWidth(d, x) == 1 {
      RunFits(d, l, form, d.binattr);
    }
  }

  /** Numbers less than `m` apart that are both multiples of `m` are the same. */
  lemma MultiplesApart(a: int, b: int, m: nat)
    requires m > 0 && a % m == 0 && b % m == 0 && a <= b < a + m
    ensures a == b
  {
    var k := b / m - a / m;
    assert k * m == b - a;
    if k >= 1 {
      ProductAtLeast(k, m);
    }
  }

  /**
   * A tab goes to the next stop, the multiple of `tabstop` that is greater than the column by
   * at most `tabstop`, if the stop is on the screen and the line has as many places left; else
   * the line is full.  Nothing but spaces is stored, one for each column.
   */
  lemma {:induction false} TabIs(d: Display, l: Line, stop: int)
    requires d.tabstop > 0 && !d.control(SPACE)
    requires l.column < stop <= l.column + d.tabstop && stop % d.tabstop == 0
    ensures var (l', full) := StoreTab(d, l);
      && full == !((d.ctldisp > 0 ==> stop <= d.width) && |l.cells| + (stop - l.column) <= 1022)
      && (!full ==> l'.column == stop)
      && |l'.cells| - |l.cells| == l'.column - l.column >= 0
      && l'.cells == l.cells + Shown(seq(l'.column - l.column, i => 32), Normal)
      && l'.over == l.over && l'.pendc == l.pendc
    decreases stop - l.column
  {
    var r := StoreC(d, l, SPACE, Normal);
    if r.Some? {
      var l1 := r.value;
      if l1.column % d.tabstop != 0 {
        TabIs(d, l1, stop);
      } else {
        MultiplesApart(l1.column, stop, d.tabstop);
      }
    }
  }

  /** Going to a tab stop, whichever it is. */
  lemma TabStops(d: Display, l: Line)
    requires d.tabstop > 0 && !d.control(SPACE) && !StoreTab(d, l).1
    ensures var l' := StoreTab(d, l).0;
      && l.column < l'.column <= l.column + d.tabstop && l'.column % d.tabstop == 0
      && l'.cells == l.cells + Shown(seq(l'.column - l.column, i => 32), Normal)
  {
    hide StoreTab;
    var stop := NextStop(l.column, d.tabstop);
    TabIs(d, l, stop);
  }

  /**
   * What a character stepped back onto becomes: twice the same is bold, with an underscore
   * before or after it is underlined, and any other is replaced.
   */
  lemma OverstrikeIs(d: Display, l: Line, c: byte)
    requires d.tabstop > 0 && l.over.Some?
    ensures var (l', full) := DoAppend(d, l, c);
      var u := l.over.value;
      var shown := if c == 95 then u else c;
      l'.over == None && l'.pendc == l.pendc && (
        if c == u || c == 95 || u == 95 || !d.control(c) || d.ctldisp == 0 then
          && full == !HasRoom(d, l, shown)
          && (full ==> l'.cells == l.cells)
          && (!full ==>
                && l'.column == l.column + PWidth(d, shown)
                && l'.cells == l.cells + [Cell(shown, if c == u then Bold
                                                      else if c == 95 || u == 95 then Underline
                                                      else Normal)])
        else ShowsControl(d, l, c, l', full))
  {
    hide StoreAll, PWidth;
    var l1, u := l.(over := None), l.over.value;
    StoresOne(d, l1, u, Bold);
    StoresOne(d, l1, u, Underline);
    StoresOne(d, l1, c, Underline);
    StoresOne(d, l1, c, Normal);
    StoresControl(d, l1, c);
    StoreAllGrows(d, l1, d.prchar(c), d.binattr);
    StoreAllOver(d, l1, d.prchar(c), d.binattr);
  }

  lemma {:induction false} StoreAllOver(d: Display, l: Line, s: seq<byte>, a: Attr)
    ensures StoreAll(d, l, s, a).0.over == l.over
    decreases |s|
  {
    if s != [] && StoreC(d, l, s[0], a).Some? {
      StoreAllOver(d, StoreC(d, l, s[0], a).value, s[1..], a);
    }
  }

  /** So a control character is shown, and a backspace in the mode that treats it like one. */
  lemma ControlIs(d: Display, l: Line, c: byte)
    requires d.tabstop > 0 && l.over.None?
    requires if c == 8 then d.bsMode == BsControl else d.control(c) && c != 9
    ensures ShowsControl(d, l, c, DoAppend(d, l, c).0, DoAppend(d, l, c).1)
  {
    hide StoreAll, StoreControl, ShowsControl;
    StoresControl(d, l, c);
  }

  lemma StoresNone(d: Display, l: Line, a: Attr)
    ensures StoreAll(d, l, [], a) == (l, false)
  {
  }

  /** Any other character is stored as it is. */
  lemma PlainIs(d: Display, l: Line, c: byte)
    requires d.tabstop > 0 && l.over.None? && !d.control(c) && c != 8 && c != 9
    ensures var (l', full) := DoAppend(d, l, c);
      && full == !HasRoom(d, l, c)
      && (full ==> l' == l)
      && (!full ==> l'.cells == l.cells + [Cell(c, Normal)] && l'.column == l.column + 1
                    && l'.over == None && l'.pendc == l.pendc)
  {
    hide StoreAll;
    StoresOne(d, l, c, Normal);
  }

  /** A backspace steps back, is stored, or is treated like a control character. */
  lemma BackspaceIs(d: Display, l: Line)
    requires d.tabstop > 0 && l.over.None?
    ensures var (l', full) := DoAppend(d, l, 8);
      && (d.bsMode == BsSpecial && l.cells == [] ==> l' == l && !full)
      && (d.bsMode == BsSpecial && l.cells != [] ==>
            var last := l.cells[|l.cells| - 1].ch;
            && !full && l'.cells + [l.cells[|l.cells| - 1]] == l.cells && l'.over == Some(last)
            && l'.column + PWidth(d, last) == l.column)
      && (d.bsMode == BsNormal ==> full == !HasRoom(d, l, 8)
                                   && l'.cells == l.cells + if full then [] else [Cell(8, Normal)])
  {
    hide StoreAll;
    StoresOne(d, l, 8, Normal);
  }

  /** A character printed as it is. */
  predicate Printing(d: Display, c: byte) { !d.control(c) && c != 8 && c != 9 && c != 10 && c != 13 }

  /**
   * The point of stepping back: a character, a backspace and a second character make one
   * character on the screen, bold if they are the same and underlined if one is an underscore.
   */
  lemma StruckTogether(d: Display, l: Line, x: byte, y: byte)
    requires d.tabstop > 0 && d.bsMode == BsSpecial && l.over.None? && l.pendc == NUL
    requires Printing(d, x) && Printing(d, y) && HasRoom(d, l, x)
    ensures var l1 := PAppend(d, l, x).0;
      var l2 := PAppend(d, l1, 8).0;
      var (l3, full) := PAppend(d, l2, y);
      && !full && l3.column == l.column + 1 && l3.over == None && l3.pendc == NUL
      && l3.cells == l.cells + [
           if x == y then Cell(x, Bold) else if y == 95 then Cell(x, Underline)
           else if x == 95 then Cell(y, Underline) else Cell(y, Normal)]
  {
    hide StoreAll, DoAppend, StoreTab, StoreControl, PWidth;
    WidthIs(d, x);
    WidthIs(d, y);
    assert l.(pendc := NUL) == l;
    var l1 := PAppend(d, l, x).0;
    PlainIs(d, l, x);
    assert l1.(pendc := NUL) == l1;
    BackspaceIs(d, l1);
    var l2 := PAppend(d, l1, 8).0;
    assert l2 == DoAppend(d, l1, 8).0;
    assert l2.cells == (l2.cells + [Cell(x, Normal)])[..|l.cells|] == l.cells;
    AppendGrows(d, l1, 8);
    assert l2.(pendc := NUL) == l2;
    OverstrikeIs(d, l2, y);
  }

  /**
   * A return is held back, where backspaces are special, and is stored only when another character
   * follows on the line.  Every other character is appended at once.
   */
  lemma ReturnIs(d: Display, l: Line, c: byte)
    requires d.tabstop > 0 && l.pendc == NUL
    ensures d.bsMode == BsSpecial ==> PAppend(d, l, 13) == (l.(pendc := 13), false)
    ensures d.bsMode != BsSpecial || c != 13 ==> PAppend(d, l, c) == DoAppend(d, l, c)
    ensures var (l1, full) := DoAppend(d, l.(pendc := 13), 13);
      PAppend(d, l.(pendc := 13), c) == if full then (l1, true) else PAppend(d, l1.(pendc := NUL), c)
  {
    hide DoAppend;
    assert l.(pendc := NUL) == l;
  }

  // ---------------------------------------------------------------- what a line keeps

  /**
   * The column counts the widths of what is stored, the line fits the buffer, and when
   * control characters are translated no part of it was ever wider than `limit`.
   */
  ghost predicate Fits(d: Display, l: Line, limit: int) {
    && |l.cells| <= MAX_CELLS
    && l.column == WidthOf(d, l.cells)
    && (d.ctldisp > 0 ==> forall n :: 0 <= n <= |l.cells| ==> WidthOf(d, l.cells[..n]) <= limit)
  }

  lemma StoreCFits(d: Display, l: Line, c: byte, a: Attr, limit: int)
    requires Fits(d, l, limit) && d.width <= limit && StoreC(d, l, c, a).Some?
    ensures Fits(d, StoreC(d, l, c, a).value, limit)
  {
    var cells := l.cells + [Cell(c, a)];
    assert cells[..|l.cells|] == l.cells;
    forall n | 0 <= n <= |cells| && d.ctldisp > 0
      ensures WidthOf(d, cells[..n]) <= limit
    {
      if n <= |l.cells| {
        assert cells[..n] == l.cells[..n];
      } else {
        assert cells[..n] == cells;
      }
    }
  }

  lemma {:induction false} StoreAllFits(d: Display, l: Line, s: seq<byte>, a: Attr, limit: int)
    requires Fits(d, l, limit) && d.width <= limit
    ensures Fits(d, StoreAll(d, l, s, a).0, limit)
    decreases |s|
  {
    if s != [] && StoreC(d, l, s[0], a).Some? {
      StoreCFits(d, l, s[0], a, limit);
      StoreAllFits(d, StoreC(d, l, s[0], a).value, s[1..], a, limit);
    }
  }

  lemma {:induction false} StoreTabFits(d: Display, l: Line, limit: int)
    requires d.tabstop > 0 && Fits(d, l, limit) && d.width <= limit
    ensures Fits(d, StoreTab(d, l).0, limit)
    decreases Max(0, MAX_CELLS - |l.cells|)
  {
    if StoreC(d, l, SPACE, Normal).Some? {
      StoreCFits(d, l, SPACE, Normal, limit);
      var l' := StoreC(d, l, SPACE, Normal).value;
      if l'.column % d.tabstop != 0 {
        StoreTabFits(d, l', limit);
      }
    }
  }

  lemma StoreControlFits(d: Display, l: Line, c: byte, limit: int)
    requires Fits(d, l, limit) && d.width <= limit
    ensures Fits(d, StoreControl(d, l, c).0, limit)
  {
    StoreAllFits(d, l, [c], Normal, limit);
    StoreAllFits(d, l, d.prchar(c), d.binattr, limit);
  }

  /** Stepping back exactly undoes the storing of the last character. */
  lemma BackCUndoes(d: Display, l: Line, c: byte, a: Attr)
    requires StoreC(d, l, c, a).Some?
    ensures BackC(d, StoreC(d, l, c, a).value) == l.(over := Some(c))
  {
  }

  lemma BackCFits(d: Display, l: Line, limit: int)
    requires Fits(d, l, limit) && l.cells != []
    ensures Fits(d, BackC(d, l), limit)
  {
    var n := |l.cells| - 1;
    forall m | 0 <= m <= n
      ensures l.cells[..n][..m] == l.cells[..m]
    {
    }
  }

  lemma DoAppendFits(d: Display, l: Line, c: byte, limit: int)
    requires d.tabstop > 0 && Fits(d, l, limit) && d.width <= limit
    ensures Fits(d, DoAppend(d, l, c).0, limit)
  {
    if l.over.Some? {
      var l', u := l.(over := None), l.over.value;
      StoreAllFits(d, l', [u], Bold, limit);
      StoreAllFits(d, l', [u], Underline, limit);
      StoreAllFits(d, l', [c], Underline, limit);
      StoreAllFits(d, l', [c], Normal, limit);
      StoreControlFits(d, l', c, limit);
    } else {
      StoreAllFits(d, l, [c], Normal, limit);
      StoreControlFits(d, l, c, limit);
      StoreTabFits(d, l, limit);
      if l.cells != [] {
        BackCFits(d, l, limit);
      }
    }
  }

  /** Whatever is appended, a line never outgrows its buffer or, with control characters translated, the screen. */
  lemma PAppendFits(d: Display, l: Line, c: byte, limit: int)
    requires d.tabstop > 0 && Fits(d, l, limit) && d.width <= limit
    ensures Fits(d, PAppend(d, l, c).0, limit)
  {
    hide Fits, DoAppend;
    FitsIgnores(d, l, limit);
    if l.pendc != NUL {
      DoAppendFits(d, l, l.pendc, limit);
    }
    var l1 := if l.pendc != NUL then DoAppend(d, l, l.pendc).0 else l;
    FitsIgnores(d, l1, limit);
    DoAppendFits(d, l1.(pendc := NUL), c, limit);
  }

  lemma FitsIgnores(d: Display, l: Line, limit: int)
    requires Fits(d, l, limit)
    ensures Fits(d, l.(pendc := NUL), limit) && Fits(d, l.(pendc := RETURN), limit)
  {
  }

  lemma {:induction false} PlainWidth(d: Display, s: seq<byte>)
    requires forall c :: c in s ==> PWidth(d, c) == 1
    ensures WidthOf(d, Shown(s, Normal)) == |s|
    decreases |s|
  {
    if s != [] {
      var n := |s| - 1;
      assert Shown(s, Normal)[..n] == Shown(s[..n], Normal);
      PlainWidth(d, s[..n]);
    }
  }

  lemma FreshFits(d: Display, pos: nat)
    requires PlainPrefix(d)
    ensures Fits(d, Fresh(d, pos), |d.prefix(pos)|)
  {
    var s := d.prefix(pos);
    PlainWidth(d, s);
    forall n | 0 <= n <= |s|
      ensures WidthOf(d, Shown(s, Normal)[..n]) <= |s|
    {
      assert Shown(s, Normal)[..n] == Shown(s[..n], Normal);
      PlainWidth(d, s[..n]);
    }
  }

  // ---------------------------------------------------------------- room for one character

  /** The screen has room, after any line number, for a tab stop and for any character's printed form. */
  ghost predicate Roomy(d: Display) {
    && d.tabstop > 0
    && forall p: nat, c: byte ::
         var k := |d.prefix(p)|;
         && k + d.tabstop <= d.width && k + d.tabstop <= MAX_CELLS
         && k + |d.prchar(c)| <= d.width && k + |d.prchar(c)| <= MAX_CELLS
  }

  lemma {:induction false} StoreAllRoom(d: Display, l: Line, s: seq<byte>, a: Attr)
    requires l.column + |s| <= d.width && |l.cells| + |s| <= MAX_CELLS
    ensures !StoreAll(d, l, s, a).1
    decreases |s|
  {
    if s != [] {
      StoreAllRoom(d, StoreC(d, l, s[0], a).value, s[1..], a);
    }
  }

  /** A tab fits when the next stop does. */
  lemma {:induction false} StoreTabRoom(d: Display, l: Line, stop: int)
    requires d.tabstop > 0 && !d.control(SPACE)
    requires l.column < stop && stop % d.tabstop == 0
    requires stop <= d.width && |l.cells| + (stop - l.column) <= MAX_CELLS
    ensures !StoreTab(d, l).1
    decreases stop - l.column
  {
    var l' := StoreC(d, l, SPACE, Normal).value;
    if l'.column % d.tabstop != 0 {
      StoreTabRoom(d, l', stop);
    }
  }

  lemma NextStop(k: int, tabstop: nat) returns (stop: int)
    requires tabstop > 0
    ensures k < stop <= k + tabstop && stop % tabstop == 0
  {
    var q, r := k / tabstop, k % tabstop;
    assert k == q * tabstop + r;
    stop := (q + 1) * tabstop;
    assert stop == q * tabstop + tabstop;
    MultipleMod(q + 1, tabstop);
  }

  lemma MultipleMod(q: int, m: nat)
    requires m > 0
    ensures (q * m) % m == 0
  {
    var x := q * m;
    var k := q - x / m;
    assert k * m == x % m;
    if k >= 1 {
      ProductAtLeast(k, m);
    }
  }

  lemma ProductAtLeast(k: int, m: nat)
    requires k >= 1
    ensures k * m >= m
  {
  }

  /** On a roomy display a fresh line accepts whatever character comes first. */
  lemma RoomyAccepts(d: Display, pos: nat, c: byte)
    requires Roomy(d) && !d.control(SPACE)
    ensures !PAppend(d, Fresh(d, pos), c).1
  {
    var l := Fresh(d, pos);
    var k := |d.prefix(pos)|;
    assert k + |d.prchar(c)| <= d.width;
    StoreAllRoom(d, l, [c], Normal);
    StoreAllRoom(d, l, d.prchar(c), d.binattr);
    var stop := NextStop(k, d.tabstop);
    StoreTabRoom(d, l, stop);
  }

  // ---------------------------------------------------------------- what a character adds

  /** The character is not one of those that move on the line, and something of it is shown. */
  predicate Shows(d: Display, c: byte) {
    c != BACKSPACE && c != TAB && c != RETURN && (d.control(c) && d.ctldisp != 0 ==> d.prchar(c) != [])
  }

  lemma {:induction false} StoreAllGrows(d: Display, l: Line, s: seq<byte>, a: Attr)
    ensures |StoreAll(d, l, s, a).0.cells| >= |l.cells| && StoreAll(d, l, s, a).0.pendc == l.pendc
    ensures !StoreAll(d, l, s, a).1 ==> |StoreAll(d, l, s, a).0.cells| == |l.cells| + |s|
    decreases |s|
  {
    if s != [] && StoreC(d, l, s[0], a).Some? {
      StoreAllGrows(d, StoreC(d, l, s[0], a).value, s[1..], a);
    }
  }

  lemma {:induction false} StoreTabPend(d: Display, l: Line)
    requires d.tabstop > 0
    ensures StoreTab(d, l).0.pendc == l.pendc
    decreases Max(0, MAX_CELLS - |l.cells|)
  {
    match StoreC(d, l, SPACE, Normal)
    case None =>
    case Some(l') =>
      if l'.column % d.tabstop != 0 {
        StoreTabPend(d, l');
      }
  }

  /** Only a backspace takes characters off the line, and one that shows adds some if it fits. */
  lemma AppendGrows(d: Display, l: Line, c: byte)
    requires d.tabstop > 0
    ensures DoAppend(d, l, c).0.pendc == l.pendc
    ensures c != BACKSPACE && c != TAB ==> |DoAppend(d, l, c).0.cells| >= |l.cells|
    ensures Shows(d, c) && !DoAppend(d, l, c).1 ==> |DoAppend(d, l, c).0.cells| > |l.cells|
  {
    hide StoreAll, StoreTab;
    var l1 := l.(over := None);
    StoreAllGrows(d, l1, [c], Normal);
    StoreAllGrows(d, l1, [c], Underline);
    if l.over.Some? {
      StoreAllGrows(d, l1, [l.over.value], Bold);
      StoreAllGrows(d, l1, [l.over.value], Underline);
    }
    StoreAllGrows(d, l1, d.prchar(c), d.binattr);
    StoreTabPend(d, l1);
    assert l.over.None? ==> l1 == l;
  }

  /** A character that shows makes the line longer or does not fit; only a return is ever held back. */
  lemma ShownAdds(d: Display, l: Line, c: byte)
    requires d.tabstop > 0 && (l.pendc == NUL || l.pendc == RETURN)
    ensures PAppend(d, l, c).0.pendc == NUL || PAppend(d, l, c).0.pendc == RETURN
    ensures Shows(d, c) && !PAppend(d, l, c).1 ==> |PAppend(d, l, c).0.cells| > |l.cells|
  {
    hide DoAppend;
    AppendGrows(d, l, l.pendc);
    var l2 := (if l.pendc != NUL then DoAppend(d, l, l.pendc).0 else l).(pendc := NUL);
    AppendGrows(d, l2, c);
  }

  // ---------------------------------------------------------------- the buffer

  function Zip(chars: seq<byte>, attrs: seq<Attr>): (cells: seq<Cell>)
    requires |chars| == |attrs|
    ensures |cells| == |chars| && forall i :: 0 <= i < |cells| ==> cells[i] == Cell(chars[i], attrs[i])
  {
    seq(|chars|, i requires 0 <= i < |chars| => Cell(chars[i], attrs[i]))
  }

  /** The static variables of line.c. */
  class LineBuf {
    const linebuf: array<byte>
    const attr: array<Attr>
    var curr: nat
    var column: int
    var overstrike: bool
    var isNullLine: bool
    var pendc: byte

    constructor ()
      ensures Valid() && fresh(linebuf) && fresh(attr)
    {
      linebuf := new byte[LINEBUF_SIZE](_ => 0);
      attr := new Attr[LINEBUF_SIZE](_ => Normal);
      curr, column, overstrike, isNullLine, pendc := 0, 0, false, false, NUL;
    }

    predicate Valid()
      reads this
    {
      linebuf.Length == attr.Length == LINEBUF_SIZE && curr <= MAX_CELLS
    }

    function View(): Line
      requires Valid()
      reads this, linebuf, attr
    {
      Line(Zip(linebuf[..curr], attr[..curr]), column, if overstrike then Some(linebuf[curr]) else None, pendc)
    }

    /** Start a new line. */
    method Prewind()
      requires Valid()
      modifies this
      ensures Valid() && View() == Line([], 0, None, NUL)
    {
      curr, column, overstrike, isNullLine, pendc := 0, 0, false, false, NUL;
    }

    /** Put the line number at the start of a new line. */
    method Plinenum(d: Display, pos: nat)
      requires Valid() && PlainPrefix(d) && View() == Line([], 0, None, NUL)
      modifies this, linebuf, attr
      ensures Valid() && View() == Fresh(d, pos)
    {
      var s := d.prefix(pos);
      assert curr == 0;
      for i := 0 to |s|
        invariant Valid() && curr == column == i <= |s| && !overstrike && pendc == NUL
        invariant forall k :: 0 <= k < i ==> linebuf[k] == s[k] && attr[k] == Normal
      {
        linebuf[curr], attr[curr] := s[i], Normal;
        curr, column := curr + 1, column + 1;
      }
    }

    /** Store a character at the end of the line, if it fits. */
    method Store(d: Display, c: byte, a: Attr) returns (full: bool)
      requires Valid() && !overstrike
      modifies `curr, `column, linebuf, attr
      ensures Valid() && !overstrike
      ensures full == StoreC(d, old(View()), c, a).None?
      ensures View() == if full then old(View()) else StoreC(d, old(View()), c, a).value
    {
      var w := PWidth(d, c);
      if d.ctldisp > 0 && column + w > d.width {
        return true;
      }
      if curr >= LINEBUF_SIZE - 2 {
        return true;
      }
      ghost var cells := View().cells;
      linebuf[curr], attr[curr] := c, a;
      column := column + w;
      curr := curr + 1;
      assert View().cells == cells + [Cell(c, a)];
      full := false;
    }

    /** Store a run of characters. */
    method StoreRun(d: Display, s: seq<byte>, a: Attr) returns (full: bool)
      requires Valid() && !overstrike
      modifies `curr, `column, linebuf, attr
      ensures Valid() && !overstrike && (View(), full) == StoreAll(d, old(View()), s, a)
    {
      full := false;
      for i := 0 to |s|
        invariant Valid() && !overstrike && StoreAll(d, View(), s[i..], a) == StoreAll(d, old(View()), s, a)
      {
        assert s[i..][0] == s[i] && s[i..][1..] == s[i + 1..];
        full := Store(d, s[i], a);
        if full {
          return;
        }
      }
    }

    /** Expand a tab into spaces, up to the next stop. */
    method StoreSpaces(d: Display) returns (full: bool)
      requires Valid() && !overstrike && d.tabstop > 0
      modifies `curr, `column, linebuf, attr
      ensures Valid() && !overstrike && (View(), full) == StoreTab(d, old(View()))
      ensures !full && !d.control(SPACE) ==> old(column) < column <= old(column) + d.tabstop && column % d.tabstop == 0
    {
      full := Store(d, SPACE, Normal);
      if full {
        return;
      }
      while column % d.tabstop != 0
        invariant Valid() && !overstrike && !full
        invariant (if column % d.tabstop != 0 then StoreTab(d, View()) else (View(), false)) == StoreTab(d, old(View()))
        decreases MAX_CELLS - curr
      {
        full := Store(d, SPACE, Normal);
        if full {
          return;
        }
      }
      if !d.control(SPACE) {
        TabStops(d, old(View()));
      }
    }

    /** Output a control character, as it is or in its printed form. */
    method StoreCtl(d: Display, c: byte) returns (full: bool)
      requires Valid() && !overstrike
      modifies `curr, `column, linebuf, attr
      ensures Valid() && !overstrike && (View(), full) == StoreControl(d, old(View()), c)
    {
      if d.ctldisp == 0 {
        full := StoreRun(d, [c], Normal);
      } else {
        var s := d.prchar(c);
        if column + |s| > d.width {
          return true;
        }
        full := StoreRun(d, s, d.binattr);
      }
    }

    /** Delete the last character. */
    method Backc(d: Display)
      requires Valid() && !overstrike && curr > 0
      modifies `curr, `column, `overstrike
      ensures Valid() && View() == BackC(d, old(View()))
    {
      curr := curr - 1;
      column := column - PWidth(d, linebuf[curr]);
      overstrike := true;
      assert View().cells == old(View()).cells[..curr];
    }

    /** Append a character: expand tabs, overstrike after a backspace, translate control characters. */
    method Append(d: Display, c: byte) returns (full: bool)
      requires Valid() && d.tabstop > 0
      modifies `curr, `column, `overstrike, linebuf, attr
      ensures Valid() && (View(), full) == DoAppend(d, old(View()), c)
    {
      hide StoreAll, StoreTab, StoreControl;
      if overstrike {
        var u := linebuf[curr];
        overstrike := false;
        if c == u {
          full := StoreRun(d, [u], Bold);
        } else if c == UNDERSCORE {
          full := StoreRun(d, [u], Underline);
        } else if u == UNDERSCORE {
          full := StoreRun(d, [c], Underline);
        } else if d.control(c) {
          full := StoreCtl(d, c);
        } else {
          full := StoreRun(d, [c], Normal);
        }
      } else if c == BACKSPACE {
        match d.bsMode {
          case BsNormal => full := StoreRun(d, [c], Normal);
          case BsControl => full := StoreCtl(d, c);
          case BsSpecial =>
            full := false;
            if curr != 0 {
              Backc(d);
            }
        }
      } else if c == TAB {
        full := StoreSpaces(d);
      } else if d.control(c) {
        full := StoreCtl(d, c);
      } else {
        full := StoreRun(d, [c], Normal);
      }
    }

    /** Append a character, holding back a carriage return until the next one is seen. */
    method Pappend(d: Display, c: byte) returns (full: bool)
      requires Valid() && d.tabstop > 0
      modifies this, linebuf, attr
      ensures Valid() && (View(), full) == PAppend(d, old(View()), c)
    {
      hide DoAppend;
      if pendc != NUL {
        full := Append(d, pendc);
        if full {
          return true;
        }
        pendc := NUL;
      }
      if c == RETURN && d.bsMode == BsSpecial {
        pendc := c;
        return false;
      }
      full := Append(d, c);
    }

    /** There is no current line. */
    method NullLine()
      requires Valid()
      modifies `isNullLine
      ensures Valid() && isNullLine && View() == old(View())
    {
      isNullLine := true;
    }
  }
}
