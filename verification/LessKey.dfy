/**
 * The key file compiler, archie/less/lesskey.c: from the lines of a description to the bytes of
 * a command table.
 *
 * A line buffer is a sequence of bytes that goes on behind the NUL of the string in it, because
 * the code can read there; the functions below read a suffix of the buffer each.
 */
module LessKey {
  import opened Bytes
  import opened Wrappers
  import opened KeyTable

  const MAX_USERCMD := 500
  const MAX_CMDLEN := 16
  const LINE_SIZE := 200

  const TAB: byte := 9
  const SPACE: byte := 32
  const HASH: byte := 35
  const BACKSLASH: byte := 92
  const CARET: byte := 94

  predicate White(c: byte) { c == SPACE || c == TAB }

  predicate IsOctal(c: byte) { 48 <= c <= 55 }

  /** An action name and its number. */
  datatype Name = Name(name: seq<byte>, action: byte)

  predicate Names(names: seq<Name>) { forall k :: 0 <= k < |names| ==> names[k].action < A_EXTRA }

  // ---------------------------------------------------------------- reading a line

  /** At most three octal digits, in the arithmetic of a `char`. */
  function ReadOctal(s: seq<byte>, ch: byte, i: nat): (r: Option<(byte, seq<byte>)>)
    requires s != [] && IsOctal(s[0])
    ensures r.Some? ==> |r.value.1| < |s|
    decreases |s|
  {
    var ch' := (8 * ch + (s[0] - 48)) % 256;
    if |s| == 1 then None
    else if IsOctal(s[1]) && i + 1 < 3 then ReadOctal(s[1..], ch', i + 1)
    else Some((ch', s[1..]))
  }

  /** One character of a string and what is behind it; `None` when the buffer ends first. */
  function Tchar(s: seq<byte>): (r: Option<(byte, seq<byte>)>)
    ensures r.Some? ==> |r.value.1| < |s|
  {
    if s == [] then None
    else if s[0] == BACKSLASH then
      if |s| == 1 then None
      else if IsOctal(s[1]) then ReadOctal(s[1..], 0, 0)
      else Some((s[1], s[2..]))
    else if s[0] == CARET then (if |s| == 1 then None else Some((s[1] % 32, s[2..])))
    else Some((s[0], s[1..]))
  }

  function SkipWhite(s: seq<byte>): (r: seq<byte>)
    ensures |r| <= |s|
  {
    if s != [] && White(s[0]) then SkipWhite(s[1..]) else s
  }

  /** Put a NUL in place of the first newline or NUL. */
  function Terminate(s: seq<byte>): (r: Option<seq<byte>>)
    ensures r.Some? ==> |r.value| == |s|
  {
    if s == [] then None
    else if s[0] == NEWLINE || s[0] == NUL then Some([NUL] + s[1..])
    else
      match Terminate(s[1..])
      case None => None
      case Some(t) => Some([s[0]] + t)
  }

  datatype Command =
    | Ends(cmd: seq<byte>, rest: seq<byte>)
    | TooLong(cmd: seq<byte>, rest: seq<byte>)
    | TableFull
    | CommandOverrun

  /**
   * The command string, of which `n` characters are read and stored; `used` bytes of the table
   * are.  Of one that is too long the first characters are stored, and reading goes on behind them.
   */
  function ReadCommand(s: seq<byte>, n: nat, used: nat): Command
    decreases |s|
  {
    if used >= MAX_USERCMD then TableFull
    else if n >= MAX_CMDLEN then TooLong([], s)
    else
      match Tchar(s)
      case None => CommandOverrun
      case Some((c, rest)) =>
        if rest == [] then CommandOverrun
        else if White(rest[0]) || rest[0] == NUL then Ends([c], rest)
        else
          match ReadCommand(rest, n + 1, used + 1)
          case Ends(cmd, rest') => Ends([c] + cmd, rest')
          case TooLong(cmd, rest') => TooLong([c] + cmd, rest')
          case other => other
  }

  /** The action name, and the buffer from the character that ends it. */
  function ReadName(s: seq<byte>): Option<(seq<byte>, seq<byte>)> {
    if s == [] then None
    else if White(s[0]) || s[0] == HASH || s[0] == NUL then Some(([], s))
    else
      match ReadName(s[1..])
      case None => None
      case Some((name, rest)) => Some(([s[0]] + name, rest))
  }

  function ActionOf(names: seq<Name>, name: seq<byte>): (r: Option<byte>)
    ensures Names(names) && r.Some? ==> r.value < A_EXTRA
  {
    if names == [] then None
    else if names[0].name == name then Some(names[0].action)
    else ActionOf(names[1..], name)
  }

  /** The first entry with the name gives the action. */
  lemma {:induction false} ActionIs(names: seq<Name>, name: seq<byte>)
    ensures ActionOf(names, name).None? <==> forall k :: 0 <= k < |names| ==> names[k].name != name
    ensures ActionOf(names, name).Some? ==>
      exists k :: 0 <= k < |names| && names[k] == Name(name, ActionOf(names, name).value)
                  && forall j :: 0 <= j < k ==> names[j].name != name
  {
    if names != [] && names[0].name != name {
      var rest := names[1..];
      ActionIs(rest, name);
      assert forall k :: 0 <= k < |rest| ==> rest[k] == names[k + 1];
      assert forall k :: 0 < k < |names| ==> names[k] == rest[k - 1];
      if ActionOf(names, name).Some? {
        var k :| 0 <= k < |rest| && rest[k] == Name(name, ActionOf(names, name).value)
                 && forall j :: 0 <= j < k ==> rest[j].name != name;
        assert names[k + 1] == rest[k];
      }
    }
  }

  /** The extra string: everything up to a NUL that is not part of a spelling. */
  function ReadExtra(s: seq<byte>): Option<seq<byte>>
    decreases |s|
  {
    if s == [] then None
    else if s[0] == NUL then Some([])
    else
      match Tchar(s)
      case None => None
      case Some((c, rest)) =>
        match ReadExtra(rest)
        case None => None
        case Some(t) => Some([c] + t)
  }

  /** What a line comes to; of a faulty one, what it stores in the table all the same. */
  datatype Outcome = Ignored | Emits(record: Record) | Faulty(stored: seq<byte>) | Full | Overrun

  /** What the line from the end of the command string comes to. */
  function ReadRest(cmd: seq<byte>, s: seq<byte>, names: seq<Name>): (r: Outcome)
    requires Names(names)
    ensures r.Emits? ==> r.record.action < A_EXTRA
  {
    if s == [] then Overrun
    else if s[0] == NUL then Faulty(cmd + [NUL])
    else
      match ReadName(SkipWhite(s))
      case None => Overrun
      case Some((name, after)) =>
        match ActionOf(names, name)
        case None => Faulty(cmd + [NUL])
        case Some(action) => if after == [] then Overrun else ReadLast(cmd, action, SkipWhite(after[1..]))
  }

  function ReadLast(cmd: seq<byte>, action: byte, s: seq<byte>): (r: Outcome)
    ensures r.Emits? ==> r.record.action == action
  {
    if s == [] then Overrun
    else if s[0] == NUL then Emits(Record(cmd, action, None))
    else
      match ReadExtra(s)
      case None => Overrun
      case Some(extra) => Emits(Record(cmd, action, Some(extra)))
  }

  /** A line whose command is too long is faulty whatever follows, which is stored none the less. */
  function AsFaulty(o: Outcome): Outcome
    requires o.Emits? ==> o.record.action < A_EXTRA
  {
    if o.Emits? then Faulty(Encode(o.record)) else o
  }

  /** What one line buffer comes to, behind `used` bytes of the table. */
  function ReadLine(buf: seq<byte>, names: seq<Name>, used: nat): (r: Outcome)
    requires Names(names)
    ensures r.Emits? ==> r.record.action < A_EXTRA
  {
    match Terminate(SkipWhite(buf))
    case None => Overrun
    case Some(s) =>
      if s == [] then Overrun
      else if s[0] == HASH || s[0] == NUL then Ignored
      else
        match ReadCommand(s, 0, used)
        case Ends(cmd, rest) => ReadRest(cmd, rest, names)
        case TooLong(cmd, rest) => AsFaulty(ReadRest(cmd, rest, names))
        case TableFull => Full
        case CommandOverrun => Overrun
  }

  /** A NUL is put behind the action name, in the part `rest` of the buffer behind the command string. */
  function CutIn(buf: seq<byte>, rest: seq<byte>): (r: seq<byte>)
    ensures |r| == |buf|
  {
    if rest == [] || rest[0] == NUL then buf
    else
      match ReadName(SkipWhite(rest))
      case None => buf
      case Some((_, after)) => if 0 < |after| <= |buf| then buf[|buf| - |after| := NUL] else buf
  }

  /** How the code leaves the line buffer: the newline is a NUL, and so is what follows the action name. */
  function Leaves(buf: seq<byte>, used: nat): (r: seq<byte>)
    ensures |r| == |buf|
  {
    match Terminate(SkipWhite(buf))
    case None => buf
    case Some(s) =>
      var ended := buf[..|buf| - |s|] + s;
      if s == [] || s[0] == HASH || s[0] == NUL then ended
      else
        match ReadCommand(s, 0, used)
        case Ends(_, rest) => CutIn(ended, rest)
        case TooLong(_, rest) => CutIn(ended, rest)
        case _ => ended
  }

  /** The buffer after the next read: a text and its NUL over the beginning. */
  function ReadOver(text: seq<byte>, buf: seq<byte>): seq<byte> {
    text + ([NUL] + if |text| + 1 <= |buf| then buf[|text| + 1..] else [])
  }

  /** What the program does: it writes a table, or nothing, or past the end of one of its arrays. */
  datatype Output = Table(bytes: seq<byte>) | Errors | Overruns

  /**
   * The table made of the lines, read one after the other into the buffer; one faulty line and
   * there is none.  Only the characters of commands are kept from passing the end of the table.
   */
  function Compile(texts: seq<seq<byte>>, buf: seq<byte>, names: seq<Name>, table: seq<byte>, bad: bool): Output
    requires Names(names)
  {
    if texts == [] then if bad then Errors else Table(table)
    else
      var line := ReadOver(texts[0], buf);
      var left := Leaves(line, |table|);
      match ReadLine(line, names, |table|)
      case Ignored => Compile(texts[1..], left, names, table, bad)
      case Emits(r) =>
        if |table + Encode(r)| > MAX_USERCMD then Overruns
        else Compile(texts[1..], left, names, table + Encode(r), bad)
      case Faulty(stored) =>
        if |table + stored| > MAX_USERCMD then Overruns
        else Compile(texts[1..], left, names, table + stored, true)
      case Full => Errors
      case Overrun => Overruns
  }

  // ---------------------------------------------------------------- spelling characters

  /** The ways to write a character. */
  datatype Spelling = Plain(c: byte) | Escaped(c: byte) | Ctrl(letter: byte) | Octal(digits: seq<byte>)

  function Written(sp: Spelling): seq<byte> {
    match sp
    case Plain(c) => [c]
    case Escaped(c) => [BACKSLASH, c]
    case Ctrl(letter) => [CARET, letter]
    case Octal(digits) => [BACKSLASH] + digits
  }

  /** The number written by octal digits. */
  function OctalNumber(digits: seq<byte>): int {
    if digits == [] then 0 else 8 * OctalNumber(digits[..|digits| - 1]) + (digits[|digits| - 1] as int - 48)
  }

  /** The character meant. */
  function Denotes(sp: Spelling): byte {
    match sp
    case Plain(c) => c
    case Escaped(c) => c
    case Ctrl(letter) => letter % 32
    case Octal(digits) => OctalNumber(digits) % 256
  }

  /** What the spellings mean: one to three octal digits are a number, and a caret makes the 32 control characters. */
  lemma SpellingMeans(letter: byte, a: byte, b: byte, c: byte)
    requires 48 <= a <= 55 && 48 <= b <= 55 && 48 <= c <= 55
    ensures IsOctal(letter) <==> '0' as int <= letter <= '7' as int
    ensures Denotes(Plain(letter)) == letter && Denotes(Escaped(letter)) == letter
    ensures Denotes(Octal([a])) as int == a as int - 48
    ensures Denotes(Octal([a, b])) as int == 8 * (a as int - 48) + (b as int - 48)
    ensures Denotes(Octal([a, b, c])) as int == (64 * (a as int - 48) + 8 * (b as int - 48) + (c as int - 48)) % 256
    ensures '@' as int <= letter < 96 ==> Denotes(Ctrl(letter)) == letter - 64
    ensures 96 <= letter < 128 ==> Denotes(Ctrl(letter)) == letter - 96
  {
    var one: seq<byte>, two: seq<byte>, three: seq<byte> := [a], [a, b], [a, b, c];
    assert one[..0] == [] && two[..1] == one && three[..2] == two;
    assert OctalNumber(one) == a as int - 48 && OctalNumber(two) == 8 * (a as int - 48) + (b as int - 48);
  }

  predicate Breaks(c: byte) { c == NUL || c == NEWLINE }

  /** A spelling is read back as it was meant before the text `x`. */
  predicate SpellingOk(sp: Spelling, x: seq<byte>) {
    match sp
    case Plain(c) => !Breaks(c) && c != BACKSLASH && c != CARET
    case Escaped(c) => !Breaks(c) && !IsOctal(c)
    case Ctrl(letter) => !Breaks(letter)
    case Octal(digits) =>
      && 1 <= |digits| <= 3
      && (forall k :: 0 <= k < |digits| ==> IsOctal(digits[k]))
      && x != [] && (|digits| < 3 ==> !IsOctal(x[0]))
  }

  lemma OctalReads(digits: seq<byte>, x: seq<byte>)
    requires SpellingOk(Octal(digits), x)
    ensures ReadOctal(digits + x, 0, 0) == Some((Denotes(Octal(digits)), x))
  {
    assert OctalNumber([]) == 0;
    assert digits[..0] == [];
    OctalsRead(digits, x, 0);
    assert digits[0..] == digits;
  }

  lemma OctalStep(s: seq<byte>, d: byte, x: seq<byte>, ch: byte, i: nat)
    requires IsOctal(d) && x != [] && s == [d] + x
    ensures var ch' := (8 * ch + (d - 48)) % 256;
            ReadOctal(s, ch, i) == if IsOctal(x[0]) && i + 1 < 3 then ReadOctal(x, ch', i + 1) else Some((ch', x))
  {
    assert s[1..] == x;
  }

  /** Reading on behind the first `i` digits. */
  lemma {:induction false} OctalsRead(digits: seq<byte>, x: seq<byte>, i: nat)
    requires SpellingOk(Octal(digits), x) && i < |digits|
    requires 0 <= OctalNumber(digits[..i]) < (if i == 0 then 1 else if i == 1 then 8 else 64)
    ensures ReadOctal(digits[i..] + x, OctalNumber(digits[..i]), i) == Some((Denotes(Octal(digits)), x))
    decreases |digits| - i
  {
    hide ReadOctal;
    var n := OctalNumber(digits[..i]);
    assert digits[..i + 1][..i] == digits[..i];
    assert OctalNumber(digits[..i + 1]) == 8 * n + (digits[i] as int - 48);
    OctalStep(digits[i..] + x, digits[i], digits[i + 1..] + x, n, i);
    if i + 1 < |digits| {
      assert (8 * n + (digits[i] as int - 48)) % 256 == 8 * n + (digits[i] as int - 48);
      OctalsRead(digits, x, i + 1);
    } else {
      assert digits[..i + 1] == digits && digits[i + 1..] + x == x;
    }
  }

  lemma TcharReads(sp: Spelling, x: seq<byte>)
    requires SpellingOk(sp, x)
    ensures Tchar(Written(sp) + x) == Some((Denotes(sp), x))
  {
    var s := Written(sp) + x;
    match sp
    case Plain(c) => assert s[1..] == x;
    case Octal(digits) =>
      assert s[1..] == digits + x;
      OctalReads(digits, x);
    case _ => assert s[2..] == x;
  }

  function WrittenAll(sps: seq<Spelling>): seq<byte> {
    if sps == [] then [] else Written(sps[0]) + WrittenAll(sps[1..])
  }

  function DenotesAll(sps: seq<Spelling>): seq<byte> {
    if sps == [] then [] else [Denotes(sps[0])] + DenotesAll(sps[1..])
  }

  predicate AllOk(sps: seq<Spelling>, x: seq<byte>) {
    sps == [] || (SpellingOk(sps[0], WrittenAll(sps[1..]) + x) && AllOk(sps[1..], x))
  }

  /** No white space stands for itself, as in a command string. */
  predicate NoPlainWhite(sps: seq<Spelling>) {
    forall k :: 0 <= k < |sps| && sps[k].Plain? ==> !White(sps[k].c)
  }

  lemma WrittenBegins(sps: seq<Spelling>, x: seq<byte>)
    requires sps != []
    ensures WrittenAll(sps) + x == Written(sps[0]) + (WrittenAll(sps[1..]) + x)
  {
  }

  lemma {:induction false} ExtraReads(sps: seq<Spelling>, x: seq<byte>)
    requires AllOk(sps, [NUL] + x)
    ensures ReadExtra(WrittenAll(sps) + ([NUL] + x)) == Some(DenotesAll(sps))
  {
    var end := [NUL] + x;
    if sps == [] {
      assert WrittenAll(sps) + end == end;
    } else {
      WrittenBegins(sps, end);
      TcharReads(sps[0], WrittenAll(sps[1..]) + end);
      ExtraReads(sps[1..], x);
    }
  }

  /** A spelled command is read back, unless the table is full before its end. */
  lemma {:induction false} CommandReads(sps: seq<Spelling>, x: seq<byte>, n: nat, used: nat)
    requires sps != [] && AllOk(sps, x) && NoPlainWhite(sps[1..])
    requires x != [] && (White(x[0]) || x[0] == NUL)
    requires n + |sps| <= 16
    ensures ReadCommand(WrittenAll(sps) + x, n, used) ==
      if used + |sps| <= 500 then Ends(DenotesAll(sps), x) else TableFull
    decreases |sps|
  {
    hide Tchar, SpellingOk, Denotes;
    WrittenBegins(sps, x);
    var rest := WrittenAll(sps[1..]) + x;
    TcharReads(sps[0], rest);
    if |sps| == 1 {
      assert rest == x;
      assert DenotesAll(sps) == [Denotes(sps[0])];
    } else {
      WrittenBegins(sps[1..], x);
      GoesOn(sps[1..], x);
      CommandReads(sps[1..], x, n + 1, used + 1);
    }
  }

  lemma GoesOn(sps: seq<Spelling>, x: seq<byte>)
    requires sps != [] && AllOk(sps, x) && NoPlainWhite(sps)
    ensures var s := WrittenAll(sps) + x; s != [] && !White(s[0]) && s[0] != NUL
  {
    WrittenBegins(sps, x);
  }

  /** A spelled command of more than 16 characters is too long, unless the table is full before that. */
  lemma {:induction false} LongReads(sps: seq<Spelling>, x: seq<byte>, n: nat, used: nat)
    requires sps != [] && AllOk(sps, x) && NoPlainWhite(sps) && n <= 16 < n + |sps|
    ensures var c := ReadCommand(WrittenAll(sps) + x, n, used); c.TooLong? || c.TableFull?
    decreases |sps|
  {
    hide Tchar, SpellingOk, Denotes;
    if n < 16 {
      WrittenBegins(sps, x);
      TcharReads(sps[0], WrittenAll(sps[1..]) + x);
      GoesOn(sps[1..], x);
      LongReads(sps[1..], x, n + 1, used + 1);
    }
  }

  // ---------------------------------------------------------------- whole lines

  /**
   * A line that binds a key: `lead cmd gap name gap2 extra`, the extra string possibly empty.  The
   * second gap can begin with a hash, and what follows that is the extra string, not a comment.
   */
  datatype KeyLine = KeyLine(lead: seq<byte>, cmd: seq<Spelling>, gap: seq<byte>, name: seq<byte>,
                             gap2: seq<byte>, extra: seq<Spelling>)

  predicate AllWhite(s: seq<byte>) { forall k :: 0 <= k < |s| ==> White(s[k]) }

  /** Characters that do not end an action name. */
  predicate InName(s: seq<byte>) {
    forall k :: 0 <= k < |s| ==> !White(s[k]) && s[k] != HASH && s[k] != NUL
  }

  function Behind(l: KeyLine): seq<byte> { l.gap2 + WrittenAll(l.extra) }

  function Text(l: KeyLine): seq<byte> {
    l.lead + (WrittenAll(l.cmd) + (l.gap + (l.name + Behind(l))))
  }

  /** What ends an action name: white space or a hash, which the code takes for such, and white space behind it. */
  predicate GapOk(s: seq<byte>) {
    s == [] || ((White(s[0]) || s[0] == HASH) && AllWhite(s[1..]))
  }

  predicate LineOk(l: KeyLine) {
    && AllWhite(l.lead) && AllWhite(l.gap) && l.gap != [] && GapOk(l.gap2)
    && InName(l.name) && Unbroken(l.name) && l.name != []
    && 0 < |l.cmd| <= 16 && NoPlainWhite(l.cmd) && l.cmd[0] != Plain(HASH)
    && AllOk(l.cmd, l.gap)
    && AllOk(l.extra, [NUL])
    && (l.extra != [] ==> l.gap2 != [] && NoPlainWhite(l.extra[..1]))
  }

  /** The record such a line stands for. */
  function Meaning(l: KeyLine, action: byte): Record {
    Record(DenotesAll(l.cmd), action, if l.extra == [] then None else Some(DenotesAll(l.extra)))
  }

  predicate Unbroken(s: seq<byte>) { forall k :: 0 <= k < |s| ==> !Breaks(s[k]) }

  lemma {:induction false} TerminateReads(s: seq<byte>, c: byte, x: seq<byte>)
    requires Unbroken(s) && Breaks(c)
    ensures Terminate(s + ([c] + x)) == Some(s + ([NUL] + x))
  {
    var t := s + ([c] + x);
    if s == [] {
      assert t == [c] + x && t[1..] == x;
      assert s + ([NUL] + x) == [NUL] + x;
    } else {
      assert t[0] == s[0] && t[1..] == s[1..] + ([c] + x);
      TerminateReads(s[1..], c, x);
      assert [s[0]] + (s[1..] + ([NUL] + x)) == s + ([NUL] + x);
    }
  }

  lemma {:induction false} SkipWhiteReads(s: seq<byte>, x: seq<byte>)
    requires AllWhite(s) && (x != [] ==> !White(x[0]))
    ensures SkipWhite(s + x) == x
  {
    if s == [] {
      assert s + x == x;
    } else {
      assert (s + x)[1..] == s[1..] + x;
      SkipWhiteReads(s[1..], x);
    }
  }

  lemma {:induction false} NameReads(s: seq<byte>, x: seq<byte>)
    requires InName(s) && x != [] && (White(x[0]) || x[0] == HASH || x[0] == NUL)
    ensures ReadName(s + x) == Some((s, x))
  {
    if s == [] {
      assert s + x == x;
    } else {
      assert (s + x)[0] == s[0] && (s + x)[1..] == s[1..] + x;
      NameReads(s[1..], x);
      assert s == [s[0]] + s[1..];
    }
  }

  lemma {:induction false} WrittenUnbroken(sps: seq<Spelling>, x: seq<byte>)
    requires AllOk(sps, x)
    ensures Unbroken(WrittenAll(sps))
  {
    if sps != [] {
      WrittenUnbroken(sps[1..], x);
    }
  }

  /** A spelling needs only the first character behind it. */
  lemma {:induction false} OkBefore(sps: seq<Spelling>, x: seq<byte>, y: seq<byte>)
    requires AllOk(sps, x) && x != []
    ensures AllOk(sps, x + y)
  {
    if sps != [] {
      OkBefore(sps[1..], x, y);
      var w := WrittenAll(sps[1..]);
      assert w + (x + y) == (w + x) + y;
    }
  }

  /** From the end of the name: what a line with this rest comes to when its string ends in a NUL. */
  lemma LastReads(l: KeyLine, cmd: seq<byte>, action: byte, x: seq<byte>)
    requires LineOk(l) && Behind(l) != []
    ensures ReadLast(cmd, action, SkipWhite((Behind(l) + ([NUL] + x))[1..]))
         == Emits(Record(cmd, action, if l.extra == [] then None else Some(DenotesAll(l.extra))))
  {
    hide LineOk, SkipWhite, ReadExtra, WrittenAll, Behind, DenotesAll;
    BehindSkips(l, x);
    if l.extra != [] {
      ExtraBegins(l, x);
      ExtraReads(l.extra, x);
    } else {
      NothingWritten([NUL] + x);
    }
  }

  lemma NothingWritten(end: seq<byte>)
    ensures WrittenAll([]) + end == end
  {
  }

  lemma BehindSkips(l: KeyLine, x: seq<byte>)
    requires LineOk(l) && Behind(l) != []
    ensures SkipWhite((Behind(l) + ([NUL] + x))[1..]) == WrittenAll(l.extra) + ([NUL] + x)
  {
    var end := [NUL] + x;
    var t := WrittenAll(l.extra) + end;
    if l.extra == [] {
      NothingWritten(end);
      assert Behind(l) == l.gap2;
    } else {
      ExtraBegins(l, x);
    }
    Assoc(l.gap2, WrittenAll(l.extra), end);
    assert (l.gap2 + t)[1..] == l.gap2[1..] + t;
    SkipWhiteReads(l.gap2[1..], t);
  }

  lemma ExtraBegins(l: KeyLine, x: seq<byte>)
    requires LineOk(l) && l.extra != []
    ensures AllOk(l.extra, [NUL] + x)
    ensures var t := WrittenAll(l.extra) + ([NUL] + x); !White(t[0]) && t[0] != NUL
  {
    OkBefore(l.extra, [NUL], x);
    WrittenBegins(l.extra, [NUL] + x);
    assert l.extra[..1][0] == l.extra[0];
  }

  lemma TextUnbroken(l: KeyLine)
    requires LineOk(l)
    ensures Unbroken(Text(l))
  {
    WrittenUnbroken(l.cmd, l.gap);
    WrittenUnbroken(l.extra, [NUL]);
  }

  /** The part of a line behind its leading white space. */
  function Bare(l: KeyLine): seq<byte> { WrittenAll(l.cmd) + (l.gap + (l.name + Behind(l))) }

  /** A line up to the end of its action name. */
  lemma LineReads(l: KeyLine, names: seq<Name>, used: nat, end: byte, x: seq<byte>)
    requires LineOk(l) && Names(names) && Breaks(end)
    ensures ReadLine(Text(l) + ([end] + x), names, used) ==
      if used + |l.cmd| > 500 then Full
      else
        match ActionOf(names, l.name)
        case None => Faulty(DenotesAll(l.cmd) + [NUL])
        case Some(action) => ReadLast(DenotesAll(l.cmd), action, SkipWhite((Behind(l) + ([NUL] + x))[1..]))
  {
    var stop := [NUL] + x;
    var after := Behind(l) + stop;
    var rest := l.gap + (l.name + after);
    LineBegins(l, end, x);
    Regroup(l, stop);
    WrittenBegins(l.cmd, rest);
    OkBefore(l.cmd, l.gap, l.name + after);
    CommandReads(l.cmd, rest, 0, used);
    AfterStops(l, x);
    SkipWhiteReads(l.gap, l.name + after);
    NameReads(l.name, after);
  }

  lemma AfterStops(l: KeyLine, x: seq<byte>)
    requires LineOk(l)
    ensures var after := Behind(l) + ([NUL] + x);
            && (White(after[0]) || after[0] == HASH || after[0] == NUL)
            && !White((l.name + after)[0])
  {
    if l.extra != [] {
    } else {
      assert Behind(l) == l.gap2;
    }
  }

  lemma Regroup(l: KeyLine, stop: seq<byte>)
    ensures Bare(l) + stop == WrittenAll(l.cmd) + (l.gap + (l.name + (Behind(l) + stop)))
  {
  }

  lemma LineBegins(l: KeyLine, end: byte, x: seq<byte>)
    requires LineOk(l) && Breaks(end)
    ensures Terminate(SkipWhite(Text(l) + ([end] + x))) == Some(Bare(l) + ([NUL] + x))
  {
    TextUnbroken(l);
    var tail := [end] + x;
    assert Text(l) + tail == l.lead + (Bare(l) + tail);
    WrittenBegins(l.cmd, l.gap + (l.name + Behind(l)));
    assert !White(Bare(l)[0]);
    SkipWhiteReads(l.lead, Bare(l) + tail);
    assert forall k :: 0 <= k < |Bare(l)| ==> Bare(l)[k] == Text(l)[|l.lead| + k];
    TerminateReads(Bare(l), end, x);
  }

  /** A key line ending in a newline stands for its record, whatever stale text is left behind it. */
  lemma KeyLineReads(l: KeyLine, names: seq<Name>, used: nat, x: seq<byte>)
    requires LineOk(l) && Names(names)
    ensures ReadLine((Text(l) + [NEWLINE]) + ([NUL] + x), names, used) ==
      if used + |l.cmd| > 500 then Full
      else
        match ActionOf(names, l.name)
        case None => Faulty(DenotesAll(l.cmd) + [NUL])
        case Some(action) => Emits(Meaning(l, action))
  {
    var x' := [NUL] + x;
    Assoc(Text(l), [NEWLINE], x');
    LineReads(l, names, used, NEWLINE, x');
    if ActionOf(names, l.name).Some? {
      if Behind(l) == [] {
        NoneBehind(l, x');
      } else {
        LastReads(l, DenotesAll(l.cmd), ActionOf(names, l.name).value, x');
      }
    }
  }

  lemma NoneBehind(l: KeyLine, x: seq<byte>)
    requires LineOk(l) && Behind(l) == []
    ensures l.extra == [] && (Behind(l) + ([NUL] + x))[1..] == x
  {
  }

  // ---------------------------------------------------------------- faulty lines

  /** A command as it can stand before the text `x`, however long. */
  predicate CommandOk(cmd: seq<Spelling>, x: seq<byte>) {
    cmd != [] && AllOk(cmd, x) && NoPlainWhite(cmd) && cmd[0] != Plain(HASH)
  }

  /** The end of a line: a newline, which the last line may lack. */
  predicate LineEnd(s: seq<byte>) { s == [] || s == [NEWLINE] }

  lemma BareBegins(lead: seq<byte>, s: seq<byte>, end: seq<byte>, x: seq<byte>) returns (x': seq<byte>)
    requires AllWhite(lead) && s != [] && !White(s[0]) && Unbroken(s) && LineEnd(end)
    ensures Terminate(SkipWhite((lead + s + end) + ([NUL] + x))) == Some(s + ([NUL] + x'))
  {
    x' := if end == [] then x else [NUL] + x;
    var stop := if end == [] then NUL else NEWLINE;
    assert (lead + s + end) + ([NUL] + x) == lead + (s + ([stop] + x'));
    SkipWhiteReads(lead, s + ([stop] + x'));
    TerminateReads(s, stop, x');
  }

  lemma CommandBegins(cmd: seq<Spelling>, y: seq<byte>)
    requires CommandOk(cmd, y + [NUL]) && Unbroken(y)
    ensures var s := WrittenAll(cmd) + y;
      s != [] && !White(s[0]) && s[0] != HASH && s[0] != NUL && Unbroken(s)
  {
    WrittenUnbroken(cmd, y + [NUL]);
    WrittenBegins(cmd, y);
  }

  /** A command with nothing behind it is an error, and is never bound to anything. */
  lemma NoActionReads(lead: seq<byte>, cmd: seq<Spelling>, end: seq<byte>, names: seq<Name>, used: nat, x: seq<byte>)
    requires AllWhite(lead) && CommandOk(cmd, [NUL]) && |cmd| <= 16 && LineEnd(end) && Names(names)
    ensures ReadLine((lead + WrittenAll(cmd) + end) + ([NUL] + x), names, used) ==
      if used + |cmd| > 500 then Full else Faulty(DenotesAll(cmd) + [NUL])
  {
    hide Terminate, SkipWhite, ReadCommand, WrittenAll, AllOk, NoPlainWhite;
    assert [] + [NUL] == [NUL] && WrittenAll(cmd) + [] == WrittenAll(cmd);
    CommandBegins(cmd, []);
    var x' := BareBegins(lead, WrittenAll(cmd), end, x);
    OkBefore(cmd, [NUL], x');
    NoneWhite(cmd);
    CommandReads(cmd, [NUL] + x', 0, used);
  }

  lemma NoneWhite(cmd: seq<Spelling>)
    requires NoPlainWhite(cmd) && cmd != []
    ensures NoPlainWhite(cmd[1..])
  {
  }

  /** A command of more than 16 characters is an error whatever is behind it. */
  lemma LongCommandReads(lead: seq<byte>, cmd: seq<Spelling>, y: seq<byte>, end: seq<byte>, names: seq<Name>, used: nat,
                         x: seq<byte>)
    requires AllWhite(lead) && CommandOk(cmd, y + [NUL]) && |cmd| > 16 && Unbroken(y) && LineEnd(end) && Names(names)
    ensures var o := ReadLine((lead + (WrittenAll(cmd) + y) + end) + ([NUL] + x), names, used);
      !o.Emits? && !o.Ignored?
  {
    hide Terminate, SkipWhite, ReadCommand, WrittenAll, AllOk, NoPlainWhite, ReadName;
    var s := WrittenAll(cmd) + y;
    CommandBegins(cmd, y);
    var x' := BareBegins(lead, s, end, x);
    OkBefore(cmd, y + [NUL], x');
    Assoc(y, [NUL], x');
    Assoc(WrittenAll(cmd), y, [NUL] + x');
    LongReads(cmd, y + ([NUL] + x'), 0, used);
  }

  /**
   * The last line may have no newline.  If its action name is the last thing on it, the code goes
   * on behind the NUL, in what earlier lines have left in the buffer: the line stands for its
   * record exactly if that is blank.
   */
  lemma UnterminatedLine(l: KeyLine, names: seq<Name>, used: nat, x: seq<byte>)
    requires LineOk(l) && Names(names) && used + |l.cmd| <= MAX_USERCMD && ActionOf(names, l.name).Some?
    ensures ReadLine(Text(l) + ([NUL] + x), names, used) == Emits(Meaning(l, ActionOf(names, l.name).value))
       <==> Behind(l) != [] || (SkipWhite(x) != [] && SkipWhite(x)[0] == NUL)
  {
    LineReads(l, names, used, NUL, x);
    if Behind(l) == [] {
      NoneBehind(l, x);
    } else {
      LastReads(l, DenotesAll(l.cmd), ActionOf(names, l.name).value, x);
    }
  }

  /** What it stands for otherwise: whatever is spelled behind the NUL becomes its extra string. */
  lemma UnterminatedTakes(l: KeyLine, names: seq<Name>, used: nat, sps: seq<Spelling>, x: seq<byte>)
    requires LineOk(l) && Names(names) && used + |l.cmd| <= MAX_USERCMD && ActionOf(names, l.name).Some?
    requires Behind(l) == []
    requires sps != [] && AllOk(sps, [NUL] + x) && !White(Written(sps[0])[0])
    ensures ReadLine(Text(l) + ([NUL] + (WrittenAll(sps) + ([NUL] + x))), names, used)
         == Emits(Record(DenotesAll(l.cmd), ActionOf(names, l.name).value, Some(DenotesAll(sps))))
  {
    var stale := WrittenAll(sps) + ([NUL] + x);
    LineReads(l, names, used, NUL, stale);
    NoneBehind(l, stale);
    WrittenBegins(sps, [NUL] + x);
    assert stale[0] == Written(sps[0])[0] && stale[0] != NUL;
    ExtraReads(sps, x);
  }

  /** How the code leaves the buffer of a key line: the newline is a NUL, and so is what follows the name. */
  function LeftBy(l: KeyLine, x: seq<byte>): seq<byte> {
    l.lead + (WrittenAll(l.cmd) + (l.gap + (l.name + ([NUL] + (Behind(l) + ([NUL] + ([NUL] + x)))[1..]))))
  }

  lemma KeyLineLeaves(l: KeyLine, used: nat, x: seq<byte>)
    requires LineOk(l) && used + |l.cmd| <= MAX_USERCMD
    ensures Leaves((Text(l) + [NEWLINE]) + ([NUL] + x), used) == LeftBy(l, x)
  {
    hide LineOk, Terminate, ReadCommand, SkipWhite, ReadName, WrittenAll, Text;
    var x' := [NUL] + x;
    var buf := (Text(l) + [NEWLINE]) + x';
    var after := Behind(l) + ([NUL] + x');
    var rest := l.gap + (l.name + after);
    Assoc(Text(l), [NEWLINE], x');
    LineBegins(l, NEWLINE, x');
    Regroup(l, [NUL] + x');
    CommandOfLine(l, used, after);
    NameOfLine(l, x');
    var ended := buf[..|buf| - |Bare(l) + ([NUL] + x')|] + (Bare(l) + ([NUL] + x'));
    Lead(l, x');
    assert Leaves(buf, used) == CutIn(ended, rest);
    CutAt(l, ended, x');
  }

  lemma Lead(l: KeyLine, x: seq<byte>)
    ensures var buf := Text(l) + ([NEWLINE] + x); var s := Bare(l) + ([NUL] + x);
      |s| <= |buf| && buf[..|buf| - |s|] == l.lead
  {
    var buf := Text(l) + ([NEWLINE] + x);
    assert Text(l) == l.lead + Bare(l);
    assert buf == l.lead + (Bare(l) + ([NEWLINE] + x));
  }

  lemma CommandOfLine(l: KeyLine, used: nat, after: seq<byte>)
    requires LineOk(l) && used + |l.cmd| <= MAX_USERCMD
    ensures var rest := l.gap + (l.name + after);
      && ReadCommand(WrittenAll(l.cmd) + rest, 0, used) == Ends(DenotesAll(l.cmd), rest)
      && WrittenAll(l.cmd) + rest != [] && (WrittenAll(l.cmd) + rest)[0] != HASH && (WrittenAll(l.cmd) + rest)[0] != NUL
      && rest != [] && rest[0] != NUL
  {
    var rest := l.gap + (l.name + after);
    WrittenBegins(l.cmd, rest);
    OkBefore(l.cmd, l.gap, l.name + after);
    CommandReads(l.cmd, rest, 0, used);
  }

  lemma NameOfLine(l: KeyLine, x: seq<byte>)
    requires LineOk(l)
    ensures var after := Behind(l) + ([NUL] + x);
      ReadName(SkipWhite(l.gap + (l.name + after))) == Some((l.name, after))
  {
    var after := Behind(l) + ([NUL] + x);
    AfterStops(l, x);
    SkipWhiteReads(l.gap, l.name + after);
    NameReads(l.name, after);
  }

  lemma CutAt(l: KeyLine, ended: seq<byte>, x: seq<byte>)
    requires ended == l.lead + (Bare(l) + ([NUL] + x))
    ensures var after := Behind(l) + ([NUL] + x);
      && 0 < |after| <= |ended|
      && ended[|ended| - |after| := NUL] == l.lead + (WrittenAll(l.cmd) + (l.gap + (l.name + ([NUL] + after[1..]))))
  {
    hide WrittenAll, Behind;
    var after := Behind(l) + ([NUL] + x);
    Regroup(l, [NUL] + x);
    Ungroup(l.lead, WrittenAll(l.cmd), l.gap, l.name, after);
    Ungroup(l.lead, WrittenAll(l.cmd), l.gap, l.name, [NUL] + after[1..]);
    SetBehind(l.lead + (WrittenAll(l.cmd) + (l.gap + l.name)), after);
  }

  lemma Ungroup(a: seq<byte>, b: seq<byte>, c: seq<byte>, d: seq<byte>, e: seq<byte>)
    ensures a + (b + (c + (d + e))) == (a + (b + (c + d))) + e
  {
    Assoc(c, d, e);
    Assoc(b, c + d, e);
    Assoc(a, b + (c + d), e);
  }

  lemma SetBehind(a: seq<byte>, b: seq<byte>)
    requires b != []
    ensures (a + b)[|a| := NUL] == a + ([NUL] + b[1..])
  {
  }

  const QUIT: seq<byte> := [113, 117, 105, 116]

  const QUIT_ONLY: seq<Name> := [Name(QUIT, 24)]

  const XYZ: seq<Spelling> := [Plain(120), Plain(121), Plain(122)]

  /** The line "a quit xyz". */
  const FIRST := KeyLine([], [Plain(97)], [SPACE], QUIT, [SPACE], XYZ)

  /** The line "b quit". */
  const SECOND := KeyLine([], [Plain(98)], [SPACE], QUIT, [], [])

  /** The records of "a quit xyz" and, as it turns out, of "b quit" behind it. */
  const AQUIT := Record([97], 24, Some([120, 121, 122]))
  const BQUIT := Record([98], 24, Some([120, 121, 122]))

  /**
   * "a quit xyz" and a newline, then "b quit" without one: whatever was in the line buffer at
   * first, the second line binds its key with the extra string of the first.
   */
  lemma SecondLineTakesExtra(buf: seq<byte>)
    ensures Compile([Text(FIRST) + [NEWLINE], Text(SECOND)], buf, QUIT_ONLY, [], false)
         == Table(Encode(AQUIT) + Encode(BQUIT))
  {
    hide ReadLine, LineOk, Text, LeftBy, ReadOver, Leaves, WrittenAll, DenotesAll, AllOk, Behind;
    TwoLines();
    PlainTexts(120, 121, 122);
    PlainText(97);
    var texts := [Text(FIRST) + [NEWLINE], Text(SECOND)];
    var x := Stale(|Text(FIRST) + [NEWLINE]|, buf);
    Over(texts[0], buf);
    KeyLineReads(FIRST, QUIT_ONLY, 0, x);
    KeyLineLeaves(FIRST, 0, x);
    assert |Encode(AQUIT)| == 7 && [] + Encode(AQUIT) == Encode(AQUIT);
    assert texts[1..] == [Text(SECOND)];
    SecondLine(x);
  }

  /** "b quit", read over what "a quit xyz" has left. */
  lemma SecondLine(x: seq<byte>)
    ensures Compile([Text(SECOND)], LeftBy(FIRST, x), QUIT_ONLY, Encode(AQUIT), false)
         == Table(Encode(AQUIT) + Encode(BQUIT))
  {
    hide ReadLine, LineOk, Text, LeftBy, ReadOver, Leaves, WrittenAll, DenotesAll, AllOk, Behind;
    TwoLines();
    PlainTexts(120, 121, 122);
    PlainText(98);
    FirstLeaves(x);
    assert |Encode(AQUIT)| == 7 && |Encode(AQUIT) + Encode(BQUIT)| == 14;
    UnterminatedTakes(SECOND, QUIT_ONLY, 7, XYZ, [NUL] + x);
    var texts := [Text(SECOND)];
    assert texts[1..] == [];
  }

  /** What is left in the buffer behind a text of length `n` and its NUL. */
  function Stale(n: nat, buf: seq<byte>): seq<byte> {
    if n + 1 <= |buf| then buf[n + 1..] else []
  }

  lemma Over(text: seq<byte>, buf: seq<byte>)
    ensures ReadOver(text, buf) == text + ([NUL] + Stale(|text|, buf))
  {
  }

  lemma TwoLines()
    ensures LineOk(FIRST) && LineOk(SECOND) && Behind(SECOND) == []
    ensures ActionOf(QUIT_ONLY, QUIT) == Some(24) && Names(QUIT_ONLY)
  {
    PlainTexts(120, 121, 122);
    PlainText(97);
    PlainText(98);
    assert XYZ[..1] == [Plain(120)];
  }

  /** What the first line leaves behind the second. */
  lemma FirstLeaves(x: seq<byte>)
    ensures ReadOver(Text(SECOND), LeftBy(FIRST, x))
         == Text(SECOND) + ([NUL] + (WrittenAll(XYZ) + ([NUL] + ([NUL] + x))))
  {
    hide LeftBy, Text;
    PlainTexts(120, 121, 122);
    TextOfSecond();
    LeftOfFirst(x);
    var stale := [120, 121, 122, NUL, NUL] + x;
    assert LeftBy(FIRST, x) == ([97, 32] + QUIT + [NUL]) + stale;
    assert LeftBy(FIRST, x)[7..] == stale;
    assert [120, 121, 122] + ([NUL] + ([NUL] + x)) == stale;
  }

  lemma TextOfSecond()
    ensures Text(SECOND) == [98, 32] + QUIT
  {
    PlainText(98);
    assert Behind(SECOND) == [];
  }

  lemma LeftOfFirst(x: seq<byte>)
    ensures LeftBy(FIRST, x) == [97, 32] + QUIT + [NUL] + [120, 121, 122, NUL, NUL] + x
  {
    hide WrittenAll, Behind;
    PlainText(97);
    BehindFirst();
    var after := Behind(FIRST) + ([NUL] + ([NUL] + x));
    assert after == [SPACE] + ([120, 121, 122, NUL, NUL] + x);
    assert after[1..] == [120, 121, 122, NUL, NUL] + x;
  }

  lemma BehindFirst()
    ensures Behind(FIRST) == [SPACE, 120, 121, 122]
  {
    PlainTexts(120, 121, 122);
  }

  lemma PlainText(a: byte)
    requires a > 94
    ensures WrittenAll([Plain(a)]) == [a] && DenotesAll([Plain(a)]) == [a]
    ensures forall x :: AllOk([Plain(a)], x)
  {
    var sps := [Plain(a)];
    assert sps[1..] == [] && Written(sps[0]) + [] == [a];
  }

  lemma PlainTexts(a: byte, b: byte, c: byte)
    requires a > 94 && b > 94 && c > 94
    ensures var sps := [Plain(a), Plain(b), Plain(c)];
            WrittenAll(sps) == [a, b, c] && DenotesAll(sps) == [a, b, c] && forall x :: AllOk(sps, x)
  {
    var sps := [Plain(a), Plain(b), Plain(c)];
    PlainText(c);
    assert sps[1..] == [Plain(b), Plain(c)] && sps[1..][1..] == [Plain(c)];
    assert WrittenAll(sps[1..]) == [b, c] && DenotesAll(sps[1..]) == [b, c];
    assert forall x :: AllOk(sps[1..], x) by {
      assert forall x :: AllOk(sps[1..][1..], x);
    }
  }

  // ---------------------------------------------------------------- whole files

  /** A line of a description. */
  datatype FileLine = Blank(lead: seq<byte>) | Comment(lead: seq<byte>, note: seq<byte>) | Key(line: KeyLine)

  function FileText(f: FileLine): seq<byte> {
    match f
    case Blank(lead) => lead + [NEWLINE]
    case Comment(lead, note) => (lead + ([HASH] + note)) + [NEWLINE]
    case Key(line) => Text(line) + [NEWLINE]
  }

  /** A line that is read whole, with an action that has a name. */
  predicate FileLineOk(f: FileLine, names: seq<Name>) {
    && |FileText(f)| < 200
    && match f
       case Blank(lead) => AllWhite(lead)
       case Comment(lead, note) => AllWhite(lead) && Unbroken(note)
       case Key(line) => LineOk(line) && ActionOf(names, line.name).Some?
  }

  predicate FileOk(file: seq<FileLine>, names: seq<Name>) {
    forall k :: 0 <= k < |file| ==> FileLineOk(file[k], names)
  }

  function Texts(file: seq<FileLine>): (texts: seq<seq<byte>>)
    ensures |texts| == |file| && forall k :: 0 <= k < |file| ==> texts[k] == FileText(file[k])
  {
    if file == [] then [] else [FileText(file[0])] + Texts(file[1..])
  }

  /** The records a description stands for. */
  function Records(file: seq<FileLine>, names: seq<Name>): (recs: seq<Record>)
    requires FileOk(file, names)
    ensures Names(names) ==> ActionsFit(recs)
  {
    if file == [] then []
    else if file[0].Key? then
      [Meaning(file[0].line, ActionOf(names, file[0].line.name).value)] + Records(file[1..], names)
    else Records(file[1..], names)
  }

  lemma IgnoredReads(f: FileLine, names: seq<Name>, used: nat, x: seq<byte>)
    requires FileLineOk(f, names) && Names(names) && !f.Key?
    ensures ReadLine(FileText(f) + ([NUL] + x), names, used) == Ignored
  {
    var note := if f.Blank? then [] else [HASH] + f.note;
    var s := note + ([NEWLINE] + ([NUL] + x));
    assert FileText(f) + ([NUL] + x) == f.lead + s;
    SkipWhiteReads(f.lead, s);
    TerminateReads(note, NEWLINE, [NUL] + x);
  }

  lemma {:induction false} DenotesLength(sps: seq<Spelling>)
    ensures |DenotesAll(sps)| == |sps|
  {
    if sps != [] { DenotesLength(sps[1..]); }
  }

  lemma CompileKey(f: FileLine, texts: seq<seq<byte>>, buf: seq<byte>, names: seq<Name>, table: seq<byte>, bad: bool)
    requires Names(names) && FileLineOk(f, names) && f.Key?
    ensures var r := Meaning(f.line, ActionOf(names, f.line.name).value);
      Compile([FileText(f)] + texts, buf, names, table, bad) ==
      if |table| + |r.cmd| > MAX_USERCMD then Errors
      else if |table + Encode(r)| > MAX_USERCMD then Overruns
      else Compile(texts, Leaves(ReadOver(FileText(f), buf), |table|), names, table + Encode(r), bad)
  {
    hide ReadLine, LineOk, Leaves, ReadOver, Encode;
    DenotesLength(f.line.cmd);
    Over(FileText(f), buf);
    KeyLineReads(f.line, names, |table|, Stale(|FileText(f)|, buf));
    assert ([FileText(f)] + texts)[1..] == texts;
  }

  lemma CompileIgnored(f: FileLine, texts: seq<seq<byte>>, buf: seq<byte>, names: seq<Name>, table: seq<byte>,
                       bad: bool)
    requires Names(names) && FileLineOk(f, names) && !f.Key?
    ensures Compile([FileText(f)] + texts, buf, names, table, bad)
         == Compile(texts, Leaves(ReadOver(FileText(f), buf), |table|), names, table, bad)
  {
    hide ReadLine, Leaves, ReadOver;
    Over(FileText(f), buf);
    IgnoredReads(f, names, |table|, Stale(|FileText(f)|, buf));
    assert ([FileText(f)] + texts)[1..] == texts;
  }

  /** A line that is an error whatever it is read over, if there is still room in the table. */
  ghost predicate Erroneous(text: seq<byte>, names: seq<Name>)
    requires Names(names)
  {
    forall used: nat, x: seq<byte> :: Rejects(text, names, used, x)
  }

  predicate Rejects(text: seq<byte>, names: seq<Name>, used: nat, x: seq<byte>)
    requires Names(names)
  {
    var o := ReadLine(text + ([NUL] + x), names, used);
    !o.Emits? && !o.Ignored?
  }

  /** After an error there is no table. */
  lemma {:induction false} ErrorsLast(texts: seq<seq<byte>>, buf: seq<byte>, names: seq<Name>, table: seq<byte>)
    requires Names(names)
    ensures !Compile(texts, buf, names, table, true).Table?
    decreases |texts|
  {
    if texts != [] {
      CompileStep(texts, buf, names, table, true);
      var line := ReadOver(texts[0], buf);
      ErrorsLast(texts[1..], Leaves(line, |table|), names, table + StoredBy(ReadLine(line, names, |table|)));
    }
  }

  lemma {:induction false} ErroneousMakesNone(texts: seq<seq<byte>>, buf: seq<byte>, names: seq<Name>, table: seq<byte>,
                                            bad: bool, k: nat)
    requires Names(names) && k < |texts| && Erroneous(texts[k], names)
    ensures !Compile(texts, buf, names, table, bad).Table?
    decreases k
  {
    hide ReadLine, Leaves, ReadOver, StoredBy, Compile;
    CompileStep(texts, buf, names, table, bad);
    var line := ReadOver(texts[0], buf);
    var o, left := ReadLine(line, names, |table|), Leaves(line, |table|);
    ErrorsLast(texts[1..], left, names, table + StoredBy(o));
    if k > 0 {
      ErroneousMakesNone(texts[1..], left, names, table + StoredBy(o), bad, k - 1);
    } else {
      Over(texts[0], buf);
      assert Rejects(texts[0], names, |table|, Stale(|texts[0]|, buf));
    }
  }

  /**
   * Whatever the other lines are, there is no table if one line has a command and nothing behind
   * it, a command of more than 16 characters, or an action that is not in the list of names.
   */
  lemma NoActionNoTable(texts: seq<seq<byte>>, storage: seq<byte>, names: seq<Name>, k: nat,
                        lead: seq<byte>, cmd: seq<Spelling>, end: seq<byte>)
    requires Names(names) && k < |texts| && texts[k] == lead + WrittenAll(cmd) + end
    requires AllWhite(lead) && CommandOk(cmd, [NUL]) && LineEnd(end)
    ensures !Compile(texts, storage, names, [], false).Table?
  {
    hide ReadLine, Compile, AllOk;
    forall used: nat, x: seq<byte>
      ensures Rejects(texts[k], names, used, x)
    {
      if |cmd| <= 16 {
        NoActionReads(lead, cmd, end, names, used, x);
      } else {
        assert WrittenAll(cmd) + [] == WrittenAll(cmd) && [] + [NUL] == [NUL];
        LongCommandReads(lead, cmd, [], end, names, used, x);
      }
    }
    ErroneousMakesNone(texts, storage, names, [], false, k);
  }

  lemma LongCommandNoTable(texts: seq<seq<byte>>, storage: seq<byte>, names: seq<Name>, k: nat,
                           lead: seq<byte>, cmd: seq<Spelling>, y: seq<byte>, end: seq<byte>)
    requires Names(names) && k < |texts| && texts[k] == lead + (WrittenAll(cmd) + y) + end
    requires AllWhite(lead) && CommandOk(cmd, y + [NUL]) && |cmd| > 16 && Unbroken(y) && LineEnd(end)
    ensures !Compile(texts, storage, names, [], false).Table?
  {
    hide ReadLine, Compile, AllOk;
    forall used: nat, x: seq<byte>
      ensures Rejects(texts[k], names, used, x)
    {
      LongCommandReads(lead, cmd, y, end, names, used, x);
    }
    ErroneousMakesNone(texts, storage, names, [], false, k);
  }

  lemma UnknownNoTable(texts: seq<seq<byte>>, storage: seq<byte>, names: seq<Name>, k: nat, l: KeyLine, end: seq<byte>)
    requires Names(names) && k < |texts| && texts[k] == Text(l) + end && LineOk(l) && LineEnd(end)
    requires forall j :: 0 <= j < |names| ==> names[j].name != l.name
    ensures !Compile(texts, storage, names, [], false).Table?
  {
    hide ReadLine, Compile, LineOk, Text;
    ActionIs(names, l.name);
    forall used: nat, x: seq<byte>
      ensures Rejects(texts[k], names, used, x)
    {
      if end == [] {
        assert Text(l) + end == Text(l);
        LineReads(l, names, used, NUL, x);
      } else {
        Assoc(Text(l), [NEWLINE], [NUL] + x);
        LineReads(l, names, used, NEWLINE, [NUL] + x);
      }
    }
    ErroneousMakesNone(texts, storage, names, [], false, k);
  }

  /** Whether records can be stored behind `used` bytes of the table. */
  datatype Room = Fits | Refused | Passed

  /** The first record that does not fit is refused if its command does not, and else passes the end. */
  function RoomFor(recs: seq<Record>, used: nat): Room
    requires ActionsFit(recs)
  {
    if recs == [] then Fits
    else if used + |recs[0].cmd| > MAX_USERCMD then Refused
    else if used + |Encode(recs[0])| > MAX_USERCMD then Passed
    else RoomFor(recs[1..], used + |Encode(recs[0])|)
  }

  /** Record `k` is the first that does not fit behind the others, but its command does. */
  predicate PassesAt(recs: seq<Record>, used: nat, k: nat)
    requires ActionsFit(recs)
  {
    && k < |recs|
    && var u := used + |EncodeAll(recs[..k])|;
       u + |recs[k].cmd| <= 500 < u + |Encode(recs[k])|
  }

  /** When the records have room, and when they are stored past the end of the table. */
  lemma {:induction false} RoomWhen(recs: seq<Record>, used: nat)
    requires ActionsFit(recs) && used <= MAX_USERCMD
    ensures RoomFor(recs, used) == Fits <==> used + |EncodeAll(recs)| <= MAX_USERCMD
    ensures RoomFor(recs, used) == Passed <==> exists k: nat :: PassesAt(recs, used, k)
  {
    if recs != [] {
      var e := |Encode(recs[0])|;
      assert recs[..0] == [];
      if used + e <= MAX_USERCMD {
        RoomWhen(recs[1..], used + e);
        forall k: nat | 0 < k < |recs|
          ensures PassesAt(recs, used, k) == PassesAt(recs[1..], used + e, k - 1)
        {
          assert recs[..k][1..] == recs[1..][..k - 1];
        }
        var rest, u := recs[1..], used + e;
        if k: nat :| PassesAt(rest, u, k) {
          assert PassesAt(recs, used, k + 1);
        }
      } else {
        assert used + |recs[0].cmd| <= MAX_USERCMD ==> PassesAt(recs, used, 0);
        forall k: nat | 0 < k < |recs|
          ensures !PassesAt(recs, used, k)
        {
          assert recs[..k][0] == recs[0];
        }
      }
    }
  }

  /** What a description comes to, whatever was in the line buffer: its records, if they have room. */
  lemma {:induction false} CompileReads(file: seq<FileLine>, buf: seq<byte>, names: seq<Name>, table: seq<byte>)
    requires FileOk(file, names) && Names(names) && |table| <= MAX_USERCMD
    ensures Compile(Texts(file), buf, names, table, false) ==
      match RoomFor(Records(file, names), |table|)
      case Fits => Table(table + EncodeAll(Records(file, names)))
      case Refused => Errors
      case Passed => Overruns
  {
    hide FileText, FileLineOk, Meaning, Encode, Compile, Leaves, ReadOver;
    if file == [] {
      AtEnd(buf, names, table, false);
      assert table + [] == table;
    } else {
      var left := Leaves(ReadOver(FileText(file[0]), buf), |table|);
      if file[0].Key? {
        CompileKey(file[0], Texts(file[1..]), buf, names, table, false);
        RecordsBegin(file, names);
        var r := Records(file, names)[0];
        if |table| + |Encode(r)| <= MAX_USERCMD {
          CompileReads(file[1..], left, names, table + Encode(r));
          Assoc(table, Encode(r), EncodeAll(Records(file[1..], names)));
        }
      } else {
        CompileIgnored(file[0], Texts(file[1..]), buf, names, table, false);
        CompileReads(file[1..], left, names, table);
      }
    }
  }

  lemma AtEnd(buf: seq<byte>, names: seq<Name>, table: seq<byte>, bad: bool)
    requires Names(names)
    ensures Compile([], buf, names, table, bad) == if bad then Errors else Table(table)
  {
  }

  lemma RecordsBegin(file: seq<FileLine>, names: seq<Name>)
    requires FileOk(file, names) && Names(names) && file != [] && file[0].Key?
    ensures Records(file, names)
         == [Meaning(file[0].line, ActionOf(names, file[0].line.name).value)] + Records(file[1..], names)
    ensures Records(file, names)[1..] == Records(file[1..], names)
    ensures |Records(file, names)[0].cmd| <= |Encode(Records(file, names)[0])|
  {
  }

  /**
   * The table of a description is its records in the packed format exactly while they fit, and
   * the end of the table is passed exactly if the first that does not fit has a command that does.
   */
  lemma CompileIff(file: seq<FileLine>, buf: seq<byte>, names: seq<Name>)
    requires FileOk(file, names) && Names(names)
    ensures var recs, output := Records(file, names), Compile(Texts(file), buf, names, [], false);
      && (output == Table(EncodeAll(recs)) <==> |EncodeAll(recs)| <= 500)
      && (output == Overruns <==> exists k: nat :: PassesAt(recs, 0, k))
  {
    hide Compile, RoomFor, Records, Texts, PassesAt;
    CompileReads(file, buf, names, []);
    RoomWhen(Records(file, names), 0);
    assert [] + EncodeAll(Records(file, names)) == EncodeAll(Records(file, names));
  }

  /** The line "a quit xxx...", with 180 times the letter x. */
  const LONG := KeyLine([], [Plain(97)], [SPACE], QUIT, [SPACE], Repeat(180))

  function Repeat(n: nat): (sps: seq<Spelling>)
    ensures |sps| == n && (n > 0 ==> sps[0] == Plain(120))
  {
    if n == 0 then [] else [Plain(120)] + Repeat(n - 1)
  }

  lemma {:induction false} RepeatReads(n: nat)
    ensures AllOk(Repeat(n), [NUL]) && |WrittenAll(Repeat(n))| == n
  {
    if n > 0 {
      RepeatReads(n - 1);
      assert Repeat(n)[1..] == Repeat(n - 1);
    }
  }

  /** Three such lines, each read whole, are stored past the end of the table: 552 bytes in 500. */
  lemma ThreeLinesPass(buf: seq<byte>)
    ensures FileOk([Key(LONG), Key(LONG), Key(LONG)], QUIT_ONLY)
    ensures Compile(Texts([Key(LONG), Key(LONG), Key(LONG)]), buf, QUIT_ONLY, [], false) == Overruns
  {
    hide Compile, Texts, Encode, Records, FileLineOk, RoomFor;
    var file := [Key(LONG), Key(LONG), Key(LONG)];
    LongIsOk();
    LongRecord();
    ThreeRecords(file);
    RoomForThree(Meaning(LONG, 24));
    CompileReads(file, buf, QUIT_ONLY, []);
  }

  lemma ThreeRecords(file: seq<FileLine>)
    requires file == [Key(LONG), Key(LONG), Key(LONG)] && FileOk(file, QUIT_ONLY)
    requires ActionOf(QUIT_ONLY, LONG.name) == Some(24)
    ensures var r := Meaning(LONG, 24); Records(file, QUIT_ONLY) == [r, r, r]
  {
    hide FileLineOk, Meaning, Repeat, ActionOf;
    var r := Meaning(LONG, 24);
    assert file[1..] == [Key(LONG), Key(LONG)] && file[1..][1..] == [Key(LONG)] && file[1..][1..][1..] == [];
    assert Records(file[1..][1..], QUIT_ONLY) == [r];
    assert Records(file[1..], QUIT_ONLY) == [r, r];
  }

  lemma RoomForThree(r: Record)
    requires r.action < A_EXTRA && |r.cmd| == 1 && |Encode(r)| == 184
    ensures RoomFor([r, r, r], 0) == Passed
  {
    hide Encode;
    assert [r, r, r][1..] == [r, r] && [r, r][1..] == [r];
    assert RoomFor([r], 368) == Passed;
    assert RoomFor([r, r], 184) == Passed;
  }

  lemma LongIsOk()
    ensures FileLineOk(Key(LONG), QUIT_ONLY) && ActionOf(QUIT_ONLY, LONG.name) == Some(24) && Names(QUIT_ONLY)
  {
    hide LineOk, Text, Repeat;
    LongLine();
    LongText();
  }

  lemma LongLine()
    ensures LineOk(LONG)
  {
    hide Repeat;
    RepeatReads(180);
    PlainText(97);
    assert Repeat(180)[..1] == [Plain(120)];
  }

  lemma LongText()
    ensures |Text(LONG)| == 187
  {
    hide Repeat;
    RepeatReads(180);
    PlainText(97);
  }

  lemma LongRecord()
    ensures |Meaning(LONG, 24).cmd| == 1 && |Encode(Meaning(LONG, 24))| == 184
  {
    PlainText(97);
    DenotesLength(Repeat(180));
  }

  /** From the description to the key: the compiled table answers as its records say. */
  lemma CompiledDecodes(file: seq<FileLine>, buf: seq<byte>, names: seq<Name>, typed: seq<byte>)
    requires FileOk(file, names) && Names(names) && NUL !in typed
    requires AllClean(Records(file, names))
    requires |EncodeAll(Records(file, names))| <= MAX_USERCMD
    ensures Compile(Texts(file), buf, names, [], false).Table?
    ensures Search(Compile(Texts(file), buf, names, [], false).bytes, typed, 0)
         == Some(Lookup(Records(file, names), typed))
  {
    hide Compile, Search, Lookup;
    CompileIff(file, buf, names);
    SearchIsLookup(Records(file, names), typed);
  }

  // ---------------------------------------------------------------- the code

  /** The array `usertable` and the pointer `up` into it. */
  class UserTable {
    const bytes: array<byte>
    var up: nat

    constructor ()
      ensures Valid() && fresh(bytes) && Table() == []
    {
      bytes := new byte[MAX_USERCMD](_ => 0);
      up := 0;
    }

    predicate Valid()
      reads this
    {
      bytes.Length == MAX_USERCMD && up <= MAX_USERCMD
    }

    function Table(): (t: seq<byte>)
      requires Valid()
      reads this, bytes
      ensures |t| == up
    {
      bytes[..up]
    }

    /** Store a byte; past the end of the array nothing is stored, and the answer is false. */
    method Put(c: byte) returns (inside: bool)
      requires Valid()
      modifies `up, bytes
      ensures Valid() && inside == (old(up) < MAX_USERCMD)
      ensures Table() == if inside then old(Table()) + [c] else old(Table())
    {
      inside := up < MAX_USERCMD;
      if inside {
        bytes[up] := c;
        up := up + 1;
      }
    }

    /** Mark the action just stored as one with an extra string. */
    method Mark()
      requires Valid() && up > 0 && bytes[up - 1] < A_EXTRA
      modifies bytes
      ensures Valid() && Table() == old(Table())[..up - 1] + [A_EXTRA + old(bytes[up - 1])]
    {
      bytes[up - 1] := A_EXTRA + bytes[up - 1];
    }
  }

  method Octals(line: array<byte>, start: nat) returns (ch: byte, p: nat)
    requires start < line.Length && IsOctal(line[start]) && ReadOctal(line[start..], 0, 0).Some?
    ensures start < p <= line.Length
    ensures ReadOctal(line[start..], 0, 0) == Some((ch, line[p..]))
  {
    ch, p := 0, start;
    var i := 0;
    while true
      invariant start <= p < line.Length && IsOctal(line[p]) && 0 <= i < 3
      invariant ReadOctal(line[p..], ch, i) == ReadOctal(line[start..], 0, 0)
      decreases line.Length - p
    {
      ghost var s := line[p..];
      assert s[0] == line[p] && s[1..] == line[p + 1..];
      assert |s| > 1 && s[1] == line[p + 1];
      ch := (8 * ch + (line[p] - 48)) % 256;
      p := p + 1;
      if !IsOctal(line[p]) { return; }
      i := i + 1;
      if i >= 3 { return; }
    }
  }

  /** One character of a string, and the position behind it. */
  method ParseChar(line: array<byte>, start: nat) returns (ch: byte, p: nat)
    requires start <= line.Length && Tchar(line[start..]).Some?
    ensures start < p <= line.Length
    ensures Tchar(line[start..]) == Some((ch, line[p..]))
  {
    ghost var s := line[start..];
    assert s[0] == line[start] && s[1..] == line[start + 1..];
    assert |s| > 1 ==> s[1] == line[start + 1] && s[2..] == line[start + 2..];
    if line[start] == BACKSLASH {
      if IsOctal(line[start + 1]) {
        ch, p := Octals(line, start + 1);
      } else {
        ch, p := line[start + 1], start + 2;
      }
    } else if line[start] == CARET {
      ch, p := line[start + 1] % 32, start + 2;
    } else {
      ch, p := line[start], start + 1;
    }
  }

  method SkipBlanks(line: array<byte>, start: nat) returns (p: nat)
    requires start <= line.Length && SkipWhite(line[start..]) != []
    ensures start <= p < line.Length && line[p..] == SkipWhite(line[start..])
  {
    p := start;
    while White(line[p])
      invariant start <= p < line.Length
      invariant SkipWhite(line[p..]) == SkipWhite(line[start..])
      decreases line.Length - p
    {
      assert line[p..][0] == line[p] && line[p..][1..] == line[p + 1..];
      p := p + 1;
    }
    assert line[p..][0] == line[p];
  }

  /** Read a text into the line buffer, as `fgets` does; what is behind its NUL is left alone. */
  method Fgets(line: array<byte>, text: seq<byte>)
    requires |text| < line.Length
    modifies line
    ensures line[..] == ReadOver(text, old(line[..]))
  {
    ghost var buf := line[..];
    for i := 0 to |text|
      invariant forall j :: 0 <= j < i ==> line[j] == text[j]
      invariant forall j :: i <= j < line.Length ==> line[j] == buf[j]
    {
      line[i] := text[i];
    }
    line[|text|] := NUL;
    ghost var over := ReadOver(text, buf);
    assert |over| == line.Length && over[|text|] == NUL;
    assert forall j :: |text| < j < line.Length ==> over[j] == buf[j];
  }

  /** Replace the final newline with a NUL. */
  method EndLine(line: array<byte>, start: nat)
    requires start <= line.Length && Terminate(line[start..]).Some?
    modifies line
    ensures line[..] == old(line[..start]) + Terminate(old(line[start..])).value
  {
    ghost var t := line[..];
    var i := start;
    while line[i] != NEWLINE && line[i] != NUL
      invariant start <= i < line.Length && Unbroken(t[start..i]) && line[..] == t
      invariant Terminate(t[i..]).Some?
      decreases line.Length - i
    {
      assert t[i..][0] == line[i] && t[i..][1..] == t[i + 1..];
      assert t[start..i + 1] == t[start..i] + [line[i]];
      i := i + 1;
    }
    hide Terminate, Unbroken;
    TerminateReads(t[start..i], line[i], t[i + 1..]);
    Around(t, start, i, line[i]);
    Around(t, start, i, NUL);
    line[i] := NUL;
    assert line[..] == t[i := NUL];
  }

  lemma Around(t: seq<byte>, start: nat, i: nat, c: byte)
    requires start <= i < |t|
    ensures t[i := c] == t[..start] + (t[start..i] + ([c] + t[i + 1..]))
    ensures t[i] == c ==> t[start..] == t[start..i] + ([c] + t[i + 1..])
  {
  }

  /** The outcome of a command string of which `got` is read already. */
  ghost function Before(got: seq<byte>, res: Command): Command {
    match res
    case Ends(cmd, rest) => Ends(got + cmd, rest)
    case TooLong(cmd, rest) => TooLong(got + cmd, rest)
    case _ => res
  }

  lemma BeforeTwice(got: seq<byte>, c: byte, res: Command)
    ensures Before(got, Before([c], res)) == Before(got + [c], res)
    ensures Before([], res) == res
  {
    if res.Ends? || res.TooLong? {
      assert got + ([c] + res.cmd) == (got + [c]) + res.cmd;
      assert [] + res.cmd == res.cmd;
    }
  }

  lemma CommandStep(s: seq<byte>, n: nat, used: nat)
    requires !ReadCommand(s, n, used).CommandOverrun? && used < MAX_USERCMD && n < MAX_CMDLEN
    ensures Tchar(s).Some? && Tchar(s).value.1 != []
    ensures var (c, rest) := Tchar(s).value;
            ReadCommand(s, n, used) ==
              (if White(rest[0]) || rest[0] == NUL then Ends([c], rest)
               else Before([c], ReadCommand(rest, n + 1, used + 1)))
  {
  }

  lemma CommandStops(s: seq<byte>, n: nat, used: nat)
    requires used >= MAX_USERCMD || n >= MAX_CMDLEN
    ensures ReadCommand(s, n, used) == if used >= MAX_USERCMD then TableFull else TooLong([], s)
  {
  }

  lemma BeforeKeeps(got: seq<byte>, c: byte, rest: seq<byte>, res: Command)
    ensures Before(got, res).CommandOverrun? == res.CommandOverrun?
    ensures Before(got, Ends([c], rest)) == Ends(got + [c], rest)
    ensures Before(got, TooLong([], rest)) == TooLong(got, rest) && Before(got, TableFull) == TableFull
  {
    assert got + [] == got;
  }

  /** How the storing of a command string ended. */
  datatype Stored = Whole | Long | NoRoom

  /** Append the command string to the table. */
  method StoreCommand(line: array<byte>, start: nat, ut: UserTable) returns (p: nat, stored: Stored, ghost res: Command)
    requires start <= line.Length && ut.Valid() && line != ut.bytes
    requires !ReadCommand(line[start..], 0, ut.up).CommandOverrun?
    modifies ut`up, ut.bytes
    ensures ut.Valid() && res == ReadCommand(line[start..], 0, old(ut.up))
    ensures match stored
            case Whole => res.Ends?
            case Long => res.TooLong?
            case NoRoom => res.TableFull?
    ensures !stored.NoRoom? ==>
      start <= p <= line.Length && line[p..] == res.rest && ut.Table() == old(ut.Table()) + res.cmd
  {
    hide ReadCommand, Before, Tchar;
    ghost var t := line[..];
    res := ReadCommand(t[start..], 0, ut.up);
    assert t[start..] == line[start..];
    p := start;
    var currcmd := ut.up;
    ghost var got, table: seq<byte> := [], ut.Table();
    BeforeTwice([], 0, res);
    assert table + [] == table;
    while true
      invariant ut.Valid() && line[..] == t && start <= p <= |t| == line.Length
      invariant ut.Table() == table + got && |got| <= MAX_CMDLEN && ut.up == currcmd + |got|
      invariant res == Before(got, ReadCommand(t[p..], |got|, ut.up)) && !res.CommandOverrun?
      decreases line.Length - p
    {
      ghost var s := t[p..];
      BeforeKeeps(got, 0, s, ReadCommand(s, |got|, ut.up));
      assert line[p..] == s;
      if ut.up >= MAX_USERCMD {
        CommandStops(s, |got|, ut.up);
        return p, NoRoom, res;
      }
      if ut.up >= currcmd + MAX_CMDLEN {
        CommandStops(s, |got|, ut.up);
        return p, Long, res;
      }
      CommandStep(s, |got|, ut.up);
      var c;
      c, p := ParseChar(line, p);
      assert line[p..] == t[p..] && t[p..][0] == line[p];
      BeforeKeeps(got, c, t[p..], res);
      BeforeTwice(got, c, ReadCommand(t[p..], |got| + 1, ut.up + 1));
      var inside := ut.Put(c);
      Assoc(table, got, [c]);
      got := got + [c];
      if White(line[p]) || line[p] == NUL { return p, Whole, res; }
    }
  }

  /** Cut the action name out of the line: the position of the character that ends it becomes a NUL. */
  method CutName(line: array<byte>, start: nat) returns (name: seq<byte>, j: nat)
    requires start <= line.Length && ReadName(line[start..]).Some?
    modifies line
    ensures start <= j < line.Length && ReadName(old(line[start..])) == Some((name, old(line[j..])))
    ensures line[..] == old(line[..])[j := NUL]
  {
    ghost var t := line[..];
    assert t[start..] == line[start..];
    j := start;
    while true
      invariant line[..] == t && start <= j <= |t| == line.Length
      invariant ReadName(t[j..]).Some? && InName(t[start..j])
      decreases line.Length - j
    {
      assert t[j..][0] == line[j] && t[j..][1..] == t[j + 1..];
      if White(line[j]) || line[j] == HASH || line[j] == NUL { break; }
      assert t[start..j + 1] == t[start..j] + [line[j]];
      j := j + 1;
    }
    name := line[start..j];
    assert name == t[start..j];
    NameReads(name, t[j..]);
    assert t[start..] == name + t[j..];
    line[j] := NUL;
  }

  method FindAction(names: seq<Name>, name: seq<byte>) returns (action: Option<byte>)
    ensures action == ActionOf(names, name)
  {
    var i := 0;
    assert names[0..] == names;
    while i < |names|
      invariant 0 <= i <= |names| && ActionOf(names[i..], name) == ActionOf(names, name)
    {
      assert names[i..][0] == names[i] && names[i..][1..] == names[i + 1..];
      if names[i].name == name { return Some(names[i].action); }
      i := i + 1;
    }
    return None;
  }

  lemma ExtraStep(s: seq<byte>)
    requires ReadExtra(s).Some?
    ensures s != [] && (s[0] == NUL ==> ReadExtra(s).value == [])
    ensures s[0] != NUL ==>
      && Tchar(s).Some? && ReadExtra(Tchar(s).value.1).Some? && Tchar(s).value.1 != []
      && ReadExtra(s).value == [Tchar(s).value.0] + ReadExtra(Tchar(s).value.1).value
  {
  }

  /** Append the extra string and its NUL; false when that passes the end of the table. */
  method StoreExtra(line: array<byte>, start: nat, ut: UserTable) returns (inside: bool)
    requires start <= line.Length && ReadExtra(line[start..]).Some? && ut.Valid() && line != ut.bytes
    modifies ut`up, ut.bytes
    ensures ut.Valid()
    ensures inside <==> old(ut.up) + |ReadExtra(line[start..]).value| + 1 <= MAX_USERCMD
    ensures inside ==> ut.Table() == old(ut.Table()) + (ReadExtra(line[start..]).value + [NUL])
  {
    hide ReadExtra, Tchar;
    ghost var t := line[..];
    assert t[start..] == line[start..];
    ghost var extra := ReadExtra(t[start..]).value;
    ExtraStep(t[start..]);
    var p := start;
    ghost var got, table: seq<byte> := [], ut.Table();
    while line[p] != NUL
      invariant ut.Valid() && line[..] == t && start <= p < |t| == line.Length && ut.Table() == table + got
      invariant ReadExtra(t[p..]).Some? && extra == got + ReadExtra(t[p..]).value
      decreases line.Length - p
    {
      assert t[p..][0] == line[p] && t[p..] == line[p..];
      ExtraStep(t[p..]);
      var c;
      c, p := ParseChar(line, p);
      assert t[p..] == line[p..];
      Assoc(got, [c], ReadExtra(t[p..]).value);
      inside := ut.Put(c);
      if !inside { return; }
      Assoc(table, got, [c]);
      got := got + [c];
    }
    assert t[p..][0] == line[p];
    ExtraStep(t[p..]);
    assert extra == got;
    inside := ut.Put(NUL);
    Assoc(table, got, [NUL]);
  }

  /** What became of a line; `PastEnd` when its bytes pass the end of the table. */
  datatype Report = Skipped | Added | Error | TooMany | PastEnd

  /** The report on a line that comes to `o` behind `used` bytes of the table. */
  function ReportOf(o: Outcome, used: nat): Report
    requires o.Emits? ==> o.record.action < A_EXTRA
  {
    match o
    case Ignored => Skipped
    case Emits(r) => if used + |Encode(r)| <= MAX_USERCMD then Added else PastEnd
    case Faulty(stored) => if used + |stored| <= MAX_USERCMD then Error else PastEnd
    case Full => TooMany
    case Overrun => PastEnd
  }

  /** What such a line adds to the table. */
  function StoredBy(o: Outcome): seq<byte>
    requires o.Emits? ==> o.record.action < A_EXTRA
  {
    match o
    case Emits(r) => Encode(r)
    case Faulty(stored) => stored
    case _ => []
  }

  /** Store the action, and the extra string if there is one. */
  method StoreAction(line: array<byte>, q: nat, action: byte, ut: UserTable,
                     ghost table: seq<byte>, ghost cmd: seq<byte>)
    returns (report: Report)
    requires ut.Valid() && line != ut.bytes && q < line.Length && action < A_EXTRA
    requires !ReadLast(cmd, action, line[q..]).Overrun? && ut.Table() == table + (cmd + [NUL])
    modifies ut`up, ut.bytes
    ensures ut.Valid()
    ensures var o := ReadLast(cmd, action, line[q..]);
      && report == ReportOf(o, |table|)
      && (!report.PastEnd? ==> ut.Table() == table + StoredBy(o))
  {
    ghost var t := line[..];
    assert line[q..] == t[q..] && t[q..][0] == line[q];
    ghost var before := ut.Table();
    var inside := ut.Put(action);
    if !inside { return PastEnd; }
    assert line[..] == t;
    assert line[q..] == t[q..];
    if line[q] != NUL {
      ut.Mark();
      assert line[q..] == t[q..];
      assert ut.Table() == before + [A_EXTRA + action];
      inside := StoreExtra(line, q, ut);
      assert line[q..] == t[q..];
      if !inside { return PastEnd; }
      PackedExtra(table, cmd, action, ReadExtra(t[q..]).value);
    }
    return Added;
  }

  lemma PackedExtra(table: seq<byte>, cmd: seq<byte>, action: byte, extra: seq<byte>)
    requires action < A_EXTRA
    ensures ((table + (cmd + [NUL])) + [A_EXTRA + action]) + (extra + [NUL])
         == table + Encode(Record(cmd, action, Some(extra)))
    ensures (table + (cmd + [NUL])) + [action] == table + Encode(Record(cmd, action, None))
    ensures |Encode(Record(cmd, action, Some(extra)))| == |cmd| + 3 + |extra|
  {
  }

  /** The rest of a line, with its action byte and extra string, behind a stored command string. */
  method StoreRest(line: array<byte>, start: nat, names: seq<Name>, ut: UserTable,
                   ghost table: seq<byte>, ghost cmd: seq<byte>)
    returns (report: Report)
    requires Names(names) && ut.Valid() && line != ut.bytes && ut.Table() == table + cmd
    requires start <= line.Length && !ReadRest(cmd, line[start..], names).Overrun?
    modifies line, ut`up, ut.bytes
    ensures ut.Valid()
    ensures var o := ReadRest(cmd, old(line[start..]), names);
      && report == ReportOf(o, |table|)
      && (!report.PastEnd? ==> ut.Table() == table + StoredBy(o))
      && (!report.PastEnd? ==> line[..] == CutIn(old(line[..]), old(line[start..])))
  {
    ghost var t := line[..];
    assert t[start..] == line[start..] && t[start..][0] == line[start];
    var inside := ut.Put(NUL);
    Assoc(table, cmd, [NUL]);
    if !inside { return PastEnd; }
    assert line[..] == t && line[start..] == t[start..];
    if line[start] == NUL { return Error; }
    assert SkipWhite(t[start..]) != [] by { assert ReadName([]).None?; }
    var p := SkipBlanks(line, start);
    var name, j := CutName(line, p);
    assert t[j..] == old(line[j..]) && |t[j..]| == |t| - j;
    var action := FindAction(names, name);
    if action.None? { return Error; }
    assert t[j..][1..] == t[j + 1..] == line[j + 1..];
    var q := SkipBlanks(line, j + 1);
    report := StoreAction(line, q, action.value, ut, table, cmd);
  }

  /** Compile one line into the table. */
  method CompileLine(line: array<byte>, names: seq<Name>, ut: UserTable) returns (report: Report)
    requires Names(names) && ut.Valid() && line != ut.bytes && !ReadLine(line[..], names, ut.up).Overrun?
    modifies line, ut`up, ut.bytes
    ensures ut.Valid()
    ensures var o := ReadLine(old(line[..]), names, old(ut.up));
      && report == ReportOf(o, old(ut.up))
      && (report.Skipped? || report.Added? || report.Error? ==>
            ut.Table() == old(ut.Table()) + StoredBy(o) && line[..] == Leaves(old(line[..]), old(ut.up)))
  {
    ghost var buf, table := line[..], ut.Table();
    assert line[0..] == buf;
    assert SkipWhite(buf) != [] by { assert Terminate([]).None?; }
    var p := SkipBlanks(line, 0);
    EndLine(line, p);
    ghost var ended := line[..];
    ghost var s := Terminate(SkipWhite(buf)).value;
    assert ended[p..] == line[p..] == s && |s| == |buf| - p;
    assert s[0] == line[p];
    if line[p] == HASH || line[p] == NUL {
      return Skipped;
    }
    var stored;
    ghost var res;
    p, stored, res := StoreCommand(line, p, ut);
    if stored.NoRoom? {
      return TooMany;
    }
    assert line[..] == ended;
    report := StoreRest(line, p, names, ut, table, res.cmd);
    if stored.Long? && report.Added? {
      report := Error;
    }
  }

  /** A text that is read, over whatever was in the buffer, without going past its end. */
  ghost predicate Readable(text: seq<byte>, names: seq<Name>)
    requires Names(names)
  {
    forall x: seq<byte>, used: nat :: !ReadLine(text + ([NUL] + x), names, used).Overrun?
  }

  /** No line of a description that ends in a newline is read past the end of the buffer. */
  lemma LineReadable(f: FileLine, names: seq<Name>)
    requires FileLineOk(f, names) && Names(names)
    ensures Readable(FileText(f), names)
  {
    hide ReadLine;
    forall x: seq<byte>, used: nat
      ensures !ReadLine(FileText(f) + ([NUL] + x), names, used).Overrun?
    {
      if f.Key? {
        KeyLineReads(f.line, names, used, x);
      } else {
        IgnoredReads(f, names, used, x);
      }
    }
  }

  lemma ReadableOver(text: seq<byte>, buf: seq<byte>, names: seq<Name>, used: nat)
    requires Names(names) && Readable(text, names)
    ensures !ReadLine(ReadOver(text, buf), names, used).Overrun?
  {
    Over(text, buf);
  }

  /** One turn of the loop over the lines. */
  lemma CompileStep(texts: seq<seq<byte>>, buf: seq<byte>, names: seq<Name>, table: seq<byte>, bad: bool)
    requires Names(names) && texts != []
    ensures var line := ReadOver(texts[0], buf);
      var o, left := ReadLine(line, names, |table|), Leaves(line, |table|);
      Compile(texts, buf, names, table, bad) ==
      match ReportOf(o, |table|)
      case PastEnd => Overruns
      case TooMany => Errors
      case Error => Compile(texts[1..], left, names, table + StoredBy(o), true)
      case _ => Compile(texts[1..], left, names, table + StoredBy(o), bad)
  {
    hide ReadLine, Leaves, ReadOver, Encode;
    assert table + [] == table;
  }

  /** The program: compile all the lines, with whatever is in the storage of the line buffer at first. */
  method CompileFile(texts: seq<seq<byte>>, storage: seq<byte>, names: seq<Name>) returns (output: Output)
    requires Names(names) && |storage| == LINE_SIZE
    requires forall k :: 0 <= k < |texts| ==> |texts[k]| < LINE_SIZE && Readable(texts[k], names)
    ensures output == Compile(texts, storage, names, [], false)
  {
    hide ReadLine, Leaves, Encode, Compile, ReadOver, ReportOf, StoredBy, Readable;
    var line := new byte[LINE_SIZE](i requires 0 <= i < LINE_SIZE => storage[i]);
    assert line[..] == storage;
    var ut := new UserTable();
    var errors := 0;
    var k := 0;
    assert texts[0..] == texts;
    while k < |texts|
      invariant 0 <= k <= |texts| && errors >= 0 && ut.Valid() && fresh(ut) && fresh(ut.bytes) && line != ut.bytes
      invariant Compile(texts[k..], line[..], names, ut.Table(), errors > 0)
             == Compile(texts, storage, names, [], false)
    {
      assert texts[k..][0] == texts[k] && texts[k..][1..] == texts[k + 1..];
      CompileStep(texts[k..], line[..], names, ut.Table(), errors > 0);
      ReadableOver(texts[k], line[..], names, ut.up);
      Fgets(line, texts[k]);
      var report := CompileLine(line, names, ut);
      match report {
        case PastEnd => return Overruns;
        case TooMany => return Errors;
        case Error => errors := errors + 1;
        case _ =>
      }
      k := k + 1;
    }
    AtEnd(line[..], names, ut.Table(), errors > 0);
    output := if errors > 0 then Errors else Table(ut.Table());
  }

  /**
   * From the text of a description to the answer for a typed command: compile the lines, then
   * search the table.
   */
  method CompileAndSearch(file: seq<FileLine>, storage: seq<byte>, names: seq<Name>, typed: seq<byte>)
    returns (output: Output, action: byte, sp: Pointer)
    requires FileOk(file, names) && Names(names) && NUL !in typed && AllClean(Records(file, names))
    requires |storage| == LINE_SIZE && |EncodeAll(Records(file, names))| <= MAX_USERCMD
    ensures output == Table(EncodeAll(Records(file, names)))
    ensures var a := Lookup(Records(file, names), typed);
      && (a.Found? ==> action == a.action) && (a.Prefix? ==> action == 22) && (a.Invalid? ==> action == 100)
    ensures PointsTo(output.bytes, sp, Lookup(Records(file, names), typed))
  {
    hide Compile, Readable, FileText, Search, Lookup;
    forall k | 0 <= k < |file|
      ensures |Texts(file)[k]| < LINE_SIZE && Readable(Texts(file)[k], names)
    {
      assert FileLineOk(file[k], names);
      LineReadable(file[k], names);
    }
    CompileIff(file, storage, names);
    CompiledDecodes(file, storage, names, typed);
    output := CompileFile(Texts(file), storage, names);
    action, sp := CmdSearch(typed, output.bytes);
  }
}
