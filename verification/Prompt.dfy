/**
 * Prompt strings: `pr_expand`, `skipcond`, `wherechar`, `cond` and `protochar` of
 * archie/less/prompt.c.
 *
 * The code evaluates the text of a prompt from left to right, jumping over what a condition
 * excludes.  `Proto` is a prompt as a tree; its meaning is `Eval`, and the main theorem is that
 * expanding the printed form of a well-formed tree gives that meaning.
 */
module Prompt {
  import opened Bytes
  import opened Wrappers

  // The characters with a meaning in a prompt.
  const QUEST: byte := 63
  const COLON: byte := 58
  const DOT: byte := 46
  const BACKSLASH: byte := 92
  const PERCENT: byte := 37
  const SPACE: byte := 32
  const DASH: byte := 45

  // The letters, by their codes.
  const L_a: byte := 97
  const L_b: byte := 98
  const L_e: byte := 101
  const L_f: byte := 102
  const L_i: byte := 105
  const L_j: byte := 106
  const L_l: byte := 108
  const L_m: byte := 109
  const L_n: byte := 110
  const L_p: byte := 112
  const L_s: byte := 115
  const L_t: byte := 116
  const L_x: byte := 120
  const L_B: byte := 66
  const L_E: byte := 69
  const L_L: byte := 76

  // ---------------------------------------------------------------- the state a prompt speaks of

  datatype Where = Top | Middle | Bottom | BottomPlusOne | JumpTarget

  /** What the pager knows when it prompts. */
  datatype Status = Status(
    currByte: Where -> Option<nat>,
    currLine: Where -> int,
    length: Option<nat>,
    lineAtEnd: int,
    hitEof: bool,
    filename: seq<byte>,
    fileIndex: int,
    fileCount: int,
    nextFile: Option<seq<byte>>,
    linenums: bool,
    newFile: bool,
    editor: seq<byte>)

  /** Decimal digits. */
  function Decimal(n: int): seq<byte>
    decreases if n < 0 then 1 - n else n
  {
    if n < 0 then [DASH] + Decimal(-n)
    else if n < 10 then [48 + n]
    else Decimal(n / 10) + [48 + n % 10]
  }

  function StripSpaces(msg: seq<byte>): seq<byte> {
    if msg != [] && msg[|msg| - 1] == SPACE then StripSpaces(msg[..|msg| - 1]) else msg
  }

  /** The value of a condition; `started` says that the message is not empty. */
  predicate Cond(st: Status, c: byte, w: Where, started: bool) {
    if c == L_a then started
    else if c == L_b then st.currByte(w).Some?
    else if c == L_e then st.hitEof
    else if c == L_f then st.filename != [DASH]
    else if c == L_l then st.linenums
    else if c == L_L then st.linenums && st.length.Some?
    else if c == L_m then st.fileCount > 1
    else if c == L_n then st.newFile
    else if c == L_p then st.currByte(w).Some? && st.length.Some? && st.length.value > 0
    else if c == L_s || c == L_B then st.length.Some?
    else if c == L_x then st.nextFile.Some?
    else false
  }

  /** The message after a percent item. */
  function ProtoChar(st: Status, c: byte, w: Where, msg: seq<byte>): seq<byte> {
    if c == L_b then msg + (if st.currByte(w).Some? then Decimal(st.currByte(w).value) else [QUEST])
    else if c == L_E then msg + st.editor
    else if c == L_f then msg + st.filename
    else if c == L_i then msg + Decimal(st.fileIndex)
    else if c == L_l then msg + (if st.currLine(w) != 0 then Decimal(st.currLine(w)) else [QUEST])
    else if c == L_L then
      msg + (if st.length.None? || st.length.value == 0 || st.lineAtEnd <= 0 then [QUEST]
             else Decimal(st.lineAtEnd - 1))
    else if c == L_m then msg + Decimal(st.fileCount)
    else if c == L_p then
      msg + (if st.currByte(w).Some? && st.length.Some? && st.length.value > 0
             then Decimal(100 * st.currByte(w).value / st.length.value) else [QUEST])
    else if c == L_s || c == L_B then msg + (if st.length.Some? then Decimal(st.length.value) else [QUEST])
    else if c == L_t then StripSpaces(msg)
    else if c == L_x then msg + (if st.nextFile.Some? then st.nextFile.value else [QUEST])
    else msg
  }

  // ---------------------------------------------------------------- the text, as the code reads it

  predicate TakesWhere(c: byte) { c == L_b || c == L_l || c == L_p }

  function WhereOf(c: byte): Option<Where> {
    if c == L_t then Some(Top)
    else if c == L_m then Some(Middle)
    else if c == L_b then Some(Bottom)
    else if c == L_B then Some(BottomPlusOne)
    else if c == L_j then Some(JumpTarget)
    else None
  }

  /** The where-letter that may follow `c`, and the text after it. */
  function WhereChar(c: byte, s: seq<byte>): (Where, seq<byte>) {
    if TakesWhere(c) && s != [] && WhereOf(s[0]).Some? then (WhereOf(s[0]).value, s[1..]) else (Top, s)
  }

  /**
   * Skip a false conditional: the text after the matching ELSE or ENDIF.  `None` means that a
   * backslash at the very end has carried the scan past the end of the string.
   */
  function Skip(s: seq<byte>, level: nat): (r: Option<seq<byte>>)
    requires level >= 1
    ensures r.Some? ==> |r.value| <= |s|
    decreases |s|
  {
    if s == [] then Some([])
    else if s[0] == QUEST then Skip(s[1..], level + 1)
    else if s[0] == COLON then (if level == 1 then Some(s[1..]) else Skip(s[1..], level))
    else if s[0] == DOT then (if level == 1 then Some(s[1..]) else Skip(s[1..], level - 1))
    else if s[0] == BACKSLASH then (if |s| == 1 then None else Skip(s[2..], level))
    else Skip(s[1..], level)
  }

  /** Expand the text `s` behind the message `msg`; `None` as for `Skip`. */
  function Expand(st: Status, s: seq<byte>, msg: seq<byte>): Option<seq<byte>>
    decreases |s|
  {
    if s == [] then Some(msg)
    else if s[0] == BACKSLASH then (if |s| == 1 then None else Expand(st, s[2..], msg + [s[1]]))
    else if s[0] == QUEST then
      if |s| == 1 then Some(msg)
      else
        var (w, rest) := WhereChar(s[1], s[2..]);
        if Cond(st, s[1], w, msg != []) then Expand(st, rest, msg)
        else
          match Skip(rest, 1)
          case None => None
          case Some(rest') => Expand(st, rest', msg)
    else if s[0] == COLON then
      match Skip(s[1..], 1)
      case None => None
      case Some(rest) => Expand(st, rest, msg)
    else if s[0] == DOT then Expand(st, s[1..], msg)
    else if s[0] == PERCENT then
      if |s| == 1 then Some(msg)
      else
        var (w, rest) := WhereChar(s[1], s[2..]);
        Expand(st, rest, ProtoChar(st, s[1], w, msg))
    else Expand(st, s[1..], msg + [s[0]])
  }

  /** A text that does not end in a backslash is never read past its end. */
  lemma {:induction false} SkipStaysInside(s: seq<byte>, level: nat)
    requires level >= 1 && (s == [] || s[|s| - 1] != BACKSLASH)
    ensures Skip(s, level).Some?
    ensures var r := Skip(s, level).value; r == [] || r[|r| - 1] != BACKSLASH
    decreases |s|
  {
    if s != [] {
      if s[0] == BACKSLASH {
        assert s[2..] == [] || s[2..][|s[2..]| - 1] == s[|s| - 1];
        SkipStaysInside(s[2..], level);
      } else {
        assert s[1..] == [] || s[1..][|s[1..]| - 1] == s[|s| - 1];
        if s[0] == QUEST {
          SkipStaysInside(s[1..], level + 1);
        } else if (s[0] == COLON || s[0] == DOT) && level == 1 {
        } else {
          SkipStaysInside(s[1..], if s[0] == DOT then level - 1 else level);
        }
      }
    }
  }

  lemma {:induction false} ExpandStaysInside(st: Status, s: seq<byte>, msg: seq<byte>)
    requires s == [] || s[|s| - 1] != BACKSLASH
    ensures Expand(st, s, msg).Some?
    decreases |s|
  {
    if s != [] {
      assert s[1..] == [] || s[1..][|s[1..]| - 1] == s[|s| - 1];
      assert |s| > 2 ==> s[2..][|s[2..]| - 1] == s[|s| - 1];
      if s[0] == BACKSLASH {
        ExpandStaysInside(st, s[2..], msg + [s[1]]);
      } else if s[0] == QUEST || s[0] == PERCENT {
        if |s| > 1 {
          var (w, rest) := WhereChar(s[1], s[2..]);
          assert rest == [] || rest[|rest| - 1] == s[|s| - 1];
          if s[0] == PERCENT {
            ExpandStaysInside(st, rest, ProtoChar(st, s[1], w, msg));
          } else if Cond(st, s[1], w, msg != []) {
            ExpandStaysInside(st, rest, msg);
          } else {
            SkipStaysInside(rest, 1);
            ExpandStaysInside(st, Skip(rest, 1).value, msg);
          }
        }
      } else if s[0] == COLON {
        SkipStaysInside(s[1..], 1);
        ExpandStaysInside(st, Skip(s[1..], 1).value, msg);
      } else {
        ExpandStaysInside(st, s[1..], if s[0] == DOT then msg else msg + [s[0]]);
      }
    }
  }

  // ---------------------------------------------------------------- past the end

  /** A run of backslashes. */
  function Slashes(k: nat): (s: seq<byte>)
    ensures |s| == k && forall i :: 0 <= i < k ==> s[i] == BACKSLASH
  {
    if k == 0 then [] else [BACKSLASH] + Slashes(k - 1)
  }

  /** A text without the backslashes at its end, if any. */
  predicate Trimmed(x: seq<byte>) { x == [] || x[|x| - 1] != BACKSLASH }

  /** Every text is a trimmed one and a run of backslashes. */
  lemma {:induction false} FinalRun(s: seq<byte>) returns (x: seq<byte>, k: nat)
    ensures s == x + Slashes(k) && Trimmed(x)
    decreases |s|
  {
    if Trimmed(s) {
      x, k := s, 0;
      assert s + [] == s;
    } else {
      var x', k' := FinalRun(s[..|s| - 1]);
      SlashesEnd(k' + 1);
      x, k := x', k' + 1;
      Assoc(x, Slashes(k'), [BACKSLASH]);
      assert s == s[..|s| - 1] + [BACKSLASH];
    }
  }

  lemma {:induction false} SlashesEnd(k: nat)
    requires k > 0
    ensures Slashes(k) == Slashes(k - 1) + [BACKSLASH]
  {
    if k > 1 { SlashesEnd(k - 1); }
  }

  /** Of a run of backslashes each second one is escaped: an odd one leaves the last alone. */
  lemma {:induction false} SlashesPass(st: Status, k: nat, level: nat, msg: seq<byte>)
    requires level >= 1
    ensures Skip(Slashes(k), level) == if k % 2 == 1 then None else Some([])
    ensures Expand(st, Slashes(k), msg).None? <==> k % 2 == 1
    decreases k
  {
    if k > 1 {
      assert Slashes(k)[2..] == Slashes(k - 2);
      SlashesPass(st, k - 2, level, msg + [BACKSLASH]);
    }
  }

  /** Skipping a trimmed text with a run behind it ends in the text, or passes through the run. */
  lemma {:induction false} SkipIntoRun(st: Status, x: seq<byte>, k: nat, level: nat)
    requires level >= 1 && Trimmed(x)
    ensures Skip(x, level).Some? && Trimmed(Skip(x, level).value)
    ensures var r, run := Skip(x, level).value, Skip(x + Slashes(k), level);
      run == Some(r + Slashes(k)) || (r == [] && run == if k % 2 == 1 then None else Some([]))
    decreases |x|
  {
    SkipStaysInside(x, level);
    if x == [] {
      assert x + Slashes(k) == Slashes(k);
      SlashesPass(st, k, level, []);
    } else {
      assert (x + Slashes(k))[1..] == x[1..] + Slashes(k);
      assert x[1..] == [] || x[1..][|x[1..]| - 1] == x[|x| - 1];
      if x[0] == QUEST {
        SkipIntoRun(st, x[1..], k, level + 1);
      } else if x[0] == BACKSLASH {
        assert (x + Slashes(k))[2..] == x[2..] + Slashes(k);
        assert x[2..] == [] || x[2..][|x[2..]| - 1] == x[|x| - 1];
        SkipIntoRun(st, x[2..], k, level);
      } else if (x[0] == COLON || x[0] == DOT) && level == 1 {
      } else {
        SkipIntoRun(st, x[1..], k, if x[0] == DOT then level - 1 else level);
      }
    }
  }

  /** The end of the text is reached where the letter of a `?` or `%` is due. */
  predicate LetterIsDue(st: Status, x: seq<byte>, msg: seq<byte>)
    decreases |x|
  {
    if x == [] then false
    else if x[0] == QUEST || x[0] == PERCENT then
      if |x| == 1 then true
      else
        var (w, rest) := WhereChar(x[1], x[2..]);
        if x[0] == PERCENT then LetterIsDue(st, rest, ProtoChar(st, x[1], w, msg))
        else if Cond(st, x[1], w, msg != []) then LetterIsDue(st, rest, msg)
        else Skip(rest, 1).Some? && LetterIsDue(st, Skip(rest, 1).value, msg)
    else if x[0] == BACKSLASH then |x| > 1 && LetterIsDue(st, x[2..], msg + [x[1]])
    else if x[0] == COLON then Skip(x[1..], 1).Some? && LetterIsDue(st, Skip(x[1..], 1).value, msg)
    else LetterIsDue(st, x[1..], if x[0] == DOT then msg else msg + [x[0]])
  }

  lemma WhereIntoRun(c: byte, s: seq<byte>, k: nat)
    ensures WhereChar(c, s + Slashes(k)) == (WhereChar(c, s).0, WhereChar(c, s).1 + Slashes(k))
  {
    assert s != [] ==> (s + Slashes(k))[1..] == s[1..] + Slashes(k);
    assert s == [] ==> s + Slashes(k) == Slashes(k);
  }

  lemma TrimmedTail(x: seq<byte>, n: nat)
    requires Trimmed(x) && n <= |x|
    ensures Trimmed(x[n..])
  {
    assert x[n..] == [] || x[n..][|x[n..]| - 1] == x[|x| - 1];
  }

  /** The first piece of a text, with and without the run behind it: an item or a condition. */
  lemma OperatorStep(st: Status, x: seq<byte>, k: nat, msg: seq<byte>)
    requires Trimmed(x) && |x| > 1 && (x[0] == QUEST || x[0] == PERCENT)
    ensures var s, (w, rest) := x + Slashes(k), WhereChar(x[1], x[2..]);
      && |rest| < |x| && Trimmed(rest)
      && (x[0] == PERCENT ==>
            var msg' := ProtoChar(st, x[1], w, msg);
            && Expand(st, s, msg) == Expand(st, rest + Slashes(k), msg')
            && LetterIsDue(st, x, msg) == LetterIsDue(st, rest, msg'))
      && (x[0] == QUEST && Cond(st, x[1], w, msg != []) ==>
            && Expand(st, s, msg) == Expand(st, rest + Slashes(k), msg)
            && LetterIsDue(st, x, msg) == LetterIsDue(st, rest, msg))
      && (x[0] == QUEST && !Cond(st, x[1], w, msg != []) ==>
            && Expand(st, s, msg) == ExpandSkipped(st, Skip(rest + Slashes(k), 1), msg)
            && LetterIsDue(st, x, msg) == (Skip(rest, 1).Some? && LetterIsDue(st, Skip(rest, 1).value, msg)))
  {
    hide Cond, ProtoChar, Skip, Slashes;
    var s := x + Slashes(k);
    assert s[2..] == x[2..] + Slashes(k);
    TrimmedTail(x, 2);
    WhereIntoRun(x[1], x[2..], k);
    assert x[2..] != [] ==> x[2..][1..] == x[3..];
    if |x| > 2 {
      TrimmedTail(x, 3);
    }
  }

  /** Expanding what a skip has left. */
  function ExpandSkipped(st: Status, rest: Option<seq<byte>>, msg: seq<byte>): Option<seq<byte>> {
    match rest
    case None => None
    case Some(rest') => Expand(st, rest', msg)
  }

  lemma ElseStep(st: Status, x: seq<byte>, k: nat, msg: seq<byte>)
    requires x != [] && x[0] == COLON
    ensures Expand(st, x + Slashes(k), msg) == ExpandSkipped(st, Skip(x[1..] + Slashes(k), 1), msg)
    ensures LetterIsDue(st, x, msg) == (Skip(x[1..], 1).Some? && LetterIsDue(st, Skip(x[1..], 1).value, msg))
  {
    assert (x + Slashes(k))[1..] == x[1..] + Slashes(k);
  }

  /** A character for the message, or an ENDIF. */
  lemma PlainStep(st: Status, x: seq<byte>, k: nat, msg: seq<byte>) returns (n: nat, msg': seq<byte>)
    requires Trimmed(x) && x != [] && x[0] != QUEST && x[0] != PERCENT && x[0] != COLON
    ensures 0 < n <= |x| && Trimmed(x[n..])
    ensures Expand(st, x + Slashes(k), msg) == Expand(st, x[n..] + Slashes(k), msg')
    ensures LetterIsDue(st, x, msg) == LetterIsDue(st, x[n..], msg')
  {
    var s := x + Slashes(k);
    assert s[1..] == x[1..] + Slashes(k);
    if x[0] == BACKSLASH {
      assert s[2..] == x[2..] + Slashes(k);
      n, msg' := 2, msg + [x[1]];
    } else {
      n, msg' := 1, if x[0] == DOT then msg else msg + [x[0]];
    }
    TrimmedTail(x, n);
  }

  /**
   * A prompt is read past its end exactly if an odd number of its final backslashes are read as
   * such: all of them, but for the first where it is taken for the letter of a `?` or `%`.
   */
  lemma {:induction false} PastEndIff(st: Status, x: seq<byte>, k: nat, msg: seq<byte>)
    requires Trimmed(x)
    ensures Expand(st, x + Slashes(k), msg).None? <==>
      if LetterIsDue(st, x, msg) then k > 0 && k % 2 == 0 else k % 2 == 1
    decreases |x|
  {
    hide Expand, LetterIsDue, Cond, ProtoChar, Skip, WhereChar, Slashes;
    if x == [] {
      NothingBefore(st, k, msg);
    } else if x[0] == QUEST || x[0] == PERCENT {
      if |x| == 1 {
        assert x == [x[0]];
        LetterFromRun(st, x[0], k, msg);
      } else {
        OperatorStep(st, x, k, msg);
        var (w, rest) := WhereChar(x[1], x[2..]);
        if x[0] == PERCENT {
          PastEndIff(st, rest, k, ProtoChar(st, x[1], w, msg));
        } else if Cond(st, x[1], w, msg != []) {
          PastEndIff(st, rest, k, msg);
        } else {
          SkipIntoRun(st, rest, k, 1);
          NothingBefore(st, k, msg);
          PastEndIff(st, Skip(rest, 1).value, k, msg);
        }
      }
    } else if x[0] == COLON {
      TrimmedTail(x, 1);
      ElseStep(st, x, k, msg);
      SkipIntoRun(st, x[1..], k, 1);
      NothingBefore(st, k, msg);
      PastEndIff(st, Skip(x[1..], 1).value, k, msg);
    } else {
      var n, msg' := PlainStep(st, x, k, msg);
      PastEndIff(st, x[n..], k, msg');
    }
  }

  lemma NothingBefore(st: Status, k: nat, msg: seq<byte>)
    ensures Expand(st, [] + Slashes(k), msg).None? <==> k % 2 == 1
    ensures Expand(st, [], msg) == Some(msg) && !LetterIsDue(st, [], msg)
  {
    assert [] + Slashes(k) == Slashes(k);
    SlashesPass(st, k, 1, msg);
  }

  /** A `?` or `%` takes the first backslash of a run for its letter. */
  lemma LetterFromRun(st: Status, op: byte, k: nat, msg: seq<byte>)
    requires op == QUEST || op == PERCENT
    ensures Expand(st, [op] + Slashes(k), msg).None? <==> k > 0 && k % 2 == 0
    ensures LetterIsDue(st, [op], msg)
  {
    var s := [op] + Slashes(k);
    if k > 0 {
      assert s[1] == BACKSLASH && s[2..] == Slashes(k - 1);
      SlashesPass(st, k - 1, 1, msg);
      assert Expand(st, [], msg) == Some(msg);
    }
  }

  lemma {:induction false} DueEnds(st: Status, x: seq<byte>, msg: seq<byte>)
    ensures LetterIsDue(st, x, msg) ==> x != [] && (x[|x| - 1] == QUEST || x[|x| - 1] == PERCENT)
    decreases |x|
  {
    hide Cond, ProtoChar, Skip;
    if x != [] {
      assert x[1..] == [] || x[1..][|x[1..]| - 1] == x[|x| - 1];
      assert |x| > 2 ==> x[2..][|x[2..]| - 1] == x[|x| - 1];
      if x[0] == BACKSLASH {
        if |x| > 1 { DueEnds(st, x[2..], msg + [x[1]]); }
      } else if x[0] == QUEST || x[0] == PERCENT {
        if |x| > 1 {
          var (w, rest) := WhereChar(x[1], x[2..]);
          assert rest == [] || rest[|rest| - 1] == x[|x| - 1];
          if x[0] == PERCENT {
            DueEnds(st, rest, ProtoChar(st, x[1], w, msg));
          } else if Cond(st, x[1], w, msg != []) {
            DueEnds(st, rest, msg);
          } else if Skip(rest, 1).Some? {
            SkipIsTail(rest, 1);
            DueEnds(st, Skip(rest, 1).value, msg);
          }
        }
      } else if x[0] == COLON {
        if Skip(x[1..], 1).Some? {
          var r := Skip(x[1..], 1).value;
          SkipIsTail(x[1..], 1);
          DueEnds(st, r, msg);
          assert r != [] ==> r[|r| - 1] == x[|x| - 1];
        }
      } else {
        DueEnds(st, x[1..], if x[0] == DOT then msg else msg + [x[0]]);
      }
    }
  }

  lemma {:induction false} SkipIsTail(s: seq<byte>, level: nat)
    requires level >= 1 && Skip(s, level).Some?
    ensures var r := Skip(s, level).value; r == [] || r[|r| - 1] == s[|s| - 1]
    decreases |s|
  {
    if s != [] {
      assert s[1..] == [] || s[1..][|s[1..]| - 1] == s[|s| - 1];
      assert |s| > 2 ==> s[2..][|s[2..]| - 1] == s[|s| - 1];
      if s[0] == QUEST {
        SkipIsTail(s[1..], level + 1);
      } else if s[0] == BACKSLASH {
        SkipIsTail(s[2..], level);
      } else if (s[0] == COLON || s[0] == DOT) && level == 1 {
      } else {
        SkipIsTail(s[1..], if s[0] == DOT then level - 1 else level);
      }
    }
  }

  /**
   * Unless the character before its final backslashes is a `?` or `%` the text alone decides: the
   * prompt is read past its end, whatever the pager knows, if and only if their number is odd.
   */
  lemma PastEndByText(x: seq<byte>, k: nat)
    requires Trimmed(x) && (x == [] || (x[|x| - 1] != QUEST && x[|x| - 1] != PERCENT))
    ensures k % 2 == 1 <==> exists st, msg :: Expand(st, x + Slashes(k), msg).None?
    ensures k % 2 == 1 <==> forall st, msg :: Expand(st, x + Slashes(k), msg).None?
  {
    forall st, msg
      ensures Expand(st, x + Slashes(k), msg).None? <==> k % 2 == 1
    {
      PastEndIff(st, x, k, msg);
      DueEnds(st, x, msg);
    }
    var st := SomeStatus(false);
    assert Expand(st, x + Slashes(k), []).None? <==> k % 2 == 1;
  }

  /**
   * A prompt is read past its end by no pager exactly if no backslash ends it, or its last
   * character before them waits for a letter always, when their number is odd, or never.
   */
  lemma NeverPastEnd(x: seq<byte>, k: nat)
    requires Trimmed(x)
    ensures (forall st, msg :: Expand(st, x + Slashes(k), msg).Some?) <==>
      k == 0 || forall st, msg :: LetterIsDue(st, x, msg) == (k % 2 == 1)
  {
    hide Expand, LetterIsDue;
    if k == 0 || forall st, msg :: LetterIsDue(st, x, msg) == (k % 2 == 1) {
      forall st, msg
        ensures Expand(st, x + Slashes(k), msg).Some?
      {
        PastEndIff(st, x, k, msg);
      }
    }
    if st, msg :| LetterIsDue(st, x, msg) != (k % 2 == 1) {
      PastEndIff(st, x, k, msg);
      assert k > 0 ==> Expand(st, x + Slashes(k), msg).None?;
    }
  }

  /** A pager that knows nothing, at the end of the file or not. */
  function SomeStatus(hitEof: bool): Status {
    Status(_ => None, _ => 0, None, 0, hitEof, [], 0, 0, None, false, false, [])
  }

  /** A prompt that ends in one backslash is read past its end. */
  lemma FinalBackslash()
    ensures forall st, msg :: Expand(st, [L_e, BACKSLASH], msg).None?
  {
    PastEndByText([L_e], 1);
    assert [L_e] + Slashes(1) == [L_e, BACKSLASH];
  }

  /** Behind a `%` it may depend on what the pager knows: here on whether the end has been hit. */
  lemma StatusDecides()
    ensures Expand(SomeStatus(true), [QUEST, L_e, PERCENT, BACKSLASH], []).Some?
    ensures Expand(SomeStatus(false), [QUEST, L_e, PERCENT, BACKSLASH], []).None?
  {
    var s, item := [QUEST, L_e, PERCENT, BACKSLASH], [PERCENT, BACKSLASH];
    assert s[2..] == item && item[2..] == [] && item[1..] == [BACKSLASH];
    assert Expand(SomeStatus(true), item, []).Some?;
    assert Skip(item[1..], 1).None? && Skip(item, 1).None?;
    assert WhereChar(L_e, item) == (Top, item);
  }

  /** The end of the text closes every conditional: an ENDIF added there changes nothing. */
  lemma {:induction false} SkipWithDot(s: seq<byte>, level: nat)
    requires level >= 1 && Skip(s, level).Some?
    ensures var r := Skip(s, level).value;
            Skip(s + [DOT], level) == Some(r + [DOT]) || (r == [] && Skip(s + [DOT], level) == Some([]))
    decreases |s|
  {
    if s == [] {
      assert s + [DOT] == [DOT];
    } else {
      assert (s + [DOT])[1..] == s[1..] + [DOT];
      if s[0] == QUEST {
        SkipWithDot(s[1..], level + 1);
      } else if s[0] == BACKSLASH {
        assert (s + [DOT])[2..] == s[2..] + [DOT];
        SkipWithDot(s[2..], level);
      } else if (s[0] == COLON || s[0] == DOT) && level == 1 {
      } else {
        SkipWithDot(s[1..], if s[0] == DOT then level - 1 else level);
      }
    }
  }

  lemma WhereWithDot(c: byte, s: seq<byte>)
    ensures WhereChar(c, s + [DOT]) == (WhereChar(c, s).0, WhereChar(c, s).1 + [DOT])
  {
    assert s != [] ==> (s + [DOT])[1..] == s[1..] + [DOT];
    assert s == [] ==> s + [DOT] == [DOT];
  }

  lemma {:induction false} ClosingIsImplied(st: Status, s: seq<byte>, msg: seq<byte>)
    requires Expand(st, s, msg).Some?
    ensures Expand(st, s + [DOT], msg) == Expand(st, s, msg)
    decreases |s|
  {
    if s == [] {
      assert s + [DOT] == [DOT];
    } else {
      assert (s + [DOT])[1..] == s[1..] + [DOT];
      if s[0] == BACKSLASH {
        assert (s + [DOT])[2..] == s[2..] + [DOT];
        ClosingIsImplied(st, s[2..], msg + [s[1]]);
      } else if s[0] == QUEST || s[0] == PERCENT {
        if |s| == 1 {
          assert (s + [DOT])[2..] == [];
        } else {
          assert (s + [DOT])[2..] == s[2..] + [DOT];
          var (w, rest) := WhereChar(s[1], s[2..]);
          WhereWithDot(s[1], s[2..]);
          if s[0] == PERCENT {
            ClosingIsImplied(st, rest, ProtoChar(st, s[1], w, msg));
          } else if Cond(st, s[1], w, msg != []) {
            ClosingIsImplied(st, rest, msg);
          } else {
            SkipWithDot(rest, 1);
            ClosingIsImplied(st, Skip(rest, 1).value, msg);
          }
        }
      } else if s[0] == COLON {
        SkipWithDot(s[1..], 1);
        ClosingIsImplied(st, Skip(s[1..], 1).value, msg);
      } else {
        ClosingIsImplied(st, s[1..], if s[0] == DOT then msg else msg + [s[0]]);
      }
    }
  }

  // ---------------------------------------------------------------- prompts as trees

  /** A prompt: pieces in order, conditionals holding prompts of their own. */
  datatype Proto =
    | End
    | Lit(c: byte, escaped: bool, rest: Proto)
    | Item(c: byte, w: Option<byte>, rest: Proto)
    | If(c: byte, w: Option<byte>, thn: Proto, hasElse: bool, els: Proto, rest: Proto)

  function Letter(w: Option<byte>): seq<byte> { if w.Some? then [w.value] else [] }

  function Print(p: Proto): seq<byte> {
    match p
    case End => []
    case Lit(c, escaped, rest) => LitText(c, escaped) + Print(rest)
    case Item(c, w, rest) => [PERCENT, c] + (Letter(w) + Print(rest))
    case If(c, w, thn, hasElse, els, rest) =>
      var close := [DOT] + Print(rest);
      [QUEST, c] + (Letter(w) + (Print(thn) + (if hasElse then [COLON] + (Print(els) + close) else close)))
  }

  predicate Special(c: byte) { c == QUEST || c == COLON || c == DOT || c == BACKSLASH || c == NUL }

  /** `s` would be read as a where-letter and more. */
  predicate StartsWhere(s: seq<byte>) { s != [] && WhereOf(s[0]).Some? }

  /** The letter after `?` or `%` and its where-letter are read back as they were meant before `s`. */
  predicate LetterOk(c: byte, w: Option<byte>, s: seq<byte>) {
    && !Special(c)
    && (w.Some? ==> TakesWhere(c) && WhereOf(w.value).Some?)
    && (w.None? && TakesWhere(c) ==> !StartsWhere(s))
  }

  predicate WellFormed(p: Proto) {
    match p
    case End => true
    case Lit(c, escaped, rest) => c != NUL && (escaped || !(Special(c) || c == PERCENT)) && WellFormed(rest)
    case Item(c, w, rest) => LetterOk(c, w, Print(rest)) && WellFormed(rest)
    case If(c, w, thn, hasElse, els, rest) =>
      LetterOk(c, w, Print(thn)) && WellFormed(thn) && WellFormed(els) && WellFormed(rest)
  }

  function Meant(w: Option<byte>): Where {
    if w.Some? && WhereOf(w.value).Some? then WhereOf(w.value).value else Top
  }

  /** The message after `p`, evaluated from left to right behind the message `msg`. */
  function Eval(st: Status, p: Proto, msg: seq<byte>): seq<byte> {
    match p
    case End => msg
    case Lit(c, escaped, rest) => Eval(st, rest, msg + [c])
    case Item(c, w, rest) => Eval(st, rest, ProtoChar(st, c, Meant(w), msg))
    case If(c, w, thn, hasElse, els, rest) =>
      var chosen := if Cond(st, c, Meant(w), msg != []) then Eval(st, thn, msg)
                    else if hasElse then Eval(st, els, msg)
                    else msg;
      Eval(st, rest, chosen)
  }

  lemma LetterReads(c: byte, w: Option<byte>, s: seq<byte>)
    requires LetterOk(c, w, s)
    ensures WhereChar(c, Letter(w) + s) == (Meant(w), s)
  {
    assert w.Some? ==> (Letter(w) + s)[1..] == s;
    assert w.None? ==> Letter(w) + s == s;
  }

  lemma LetterSkips(w: Option<byte>, s: seq<byte>, level: nat)
    requires level >= 1
    requires w.Some? ==> WhereOf(w.value).Some?
    ensures Skip(Letter(w) + s, level) == Skip(s, level)
  {
    assert w.Some? ==> (Letter(w) + s)[1..] == s;
    assert w.None? ==> Letter(w) + s == s;
  }

  /** What follows the THEN part. */
  function AfterThen(p: Proto, x: seq<byte>): seq<byte>
    requires p.If?
  {
    var close := [DOT] + (Print(p.rest) + x);
    if p.hasElse then [COLON] + (Print(p.els) + close) else close
  }

  function LitText(c: byte, escaped: bool): seq<byte> { if escaped then [BACKSLASH, c] else [c] }

  /** How the printed form of a prompt begins. */
  lemma PrintBegins(p: Proto, x: seq<byte>)
    ensures p.End? ==> Print(p) + x == x
    ensures p.Lit? ==> Print(p) + x == LitText(p.c, p.escaped) + (Print(p.rest) + x)
    ensures p.Item? ==> Print(p) + x == [PERCENT, p.c] + (Letter(p.w) + (Print(p.rest) + x))
    ensures p.If? ==> Print(p) + x == [QUEST, p.c] + (Letter(p.w) + (Print(p.thn) + AfterThen(p, x)))
  {
    hide Letter, LitText;
    match p
    case End =>
    case Lit(c, escaped, rest) => Assoc(LitText(c, escaped), Print(rest), x);
    case Item(c, w, rest) =>
      Assoc([PERCENT, c], Letter(w) + Print(rest), x);
      Assoc(Letter(w), Print(rest), x);
    case If(c, w, thn, hasElse, els, rest) =>
      var close := [DOT] + Print(rest);
      var tail := if hasElse then [COLON] + (Print(els) + close) else close;
      Assoc([QUEST, c], Letter(w) + (Print(thn) + tail), x);
      Assoc(Letter(w), Print(thn) + tail, x);
      Assoc(Print(thn), tail, x);
      Assoc([DOT], Print(rest), x);
      Assoc([COLON], Print(els) + close, x);
      Assoc(Print(els), close, x);
  }

  lemma AfterThenBegins(p: Proto, x: seq<byte>)
    requires p.If?
    ensures AfterThen(p, x)[1..]
         == if p.hasElse then Print(p.els) + ([DOT] + (Print(p.rest) + x)) else Print(p.rest) + x
  {
  }

  lemma SkipLit(c: byte, escaped: bool, s: seq<byte>, level: nat)
    requires level >= 1 && (escaped || !Special(c))
    ensures Skip(LitText(c, escaped) + s, level) == Skip(s, level)
  {
    var t := LitText(c, escaped) + s;
    if escaped { assert t[2..] == s; } else { assert t[1..] == s; }
  }

  lemma SkipDot(s: seq<byte>, level: nat)
    requires level >= 1
    ensures Skip([DOT] + s, level) == if level == 1 then Some(s) else Skip(s, level - 1)
  {
    assert ([DOT] + s)[1..] == s;
  }

  lemma ExpandLit(st: Status, c: byte, escaped: bool, s: seq<byte>, msg: seq<byte>)
    requires escaped || !(Special(c) || c == PERCENT)
    ensures Expand(st, LitText(c, escaped) + s, msg) == Expand(st, s, msg + [c])
  {
    var t := LitText(c, escaped) + s;
    if escaped { assert t[2..] == s; } else { assert t[1..] == s; }
  }

  lemma ExpandDot(st: Status, s: seq<byte>, msg: seq<byte>)
    ensures Expand(st, [DOT] + s, msg) == Expand(st, s, msg)
  {
    assert ([DOT] + s)[1..] == s;
  }

  /**
   * Skipping passes over a whole printed prompt, at any depth, without seeing any of the ELSEs and
   * ENDIFs in it.
   */
  lemma {:induction false} SkipsPrinted(p: Proto, x: seq<byte>, level: nat)
    requires WellFormed(p) && level >= 1
    ensures Skip(Print(p) + x, level) == Skip(x, level)
    decreases p
  {
    hide Skip;
    PrintBegins(p, x);
    match p
    case End =>
    case Lit(c, escaped, rest) =>
      SkipLit(c, escaped, Print(rest) + x, level);
      SkipsPrinted(rest, x, level);
    case Item(c, w, rest) =>
      var tail := Print(rest) + x;
      SkipTwo(PERCENT, c, Letter(w) + tail, level);
      LetterSkips(w, tail, level);
      SkipsPrinted(rest, x, level);
    case If(c, w, thn, hasElse, els, rest) =>
      var tail := AfterThen(p, x);
      SkipTwo(QUEST, c, Letter(w) + (Print(thn) + tail), level);
      LetterSkips(w, Print(thn) + tail, level + 1);
      SkipsPrinted(thn, tail, level + 1);
      SkipsRest(p, x, level + 1);
      SkipDot(Print(rest) + x, level + 1);
      SkipsPrinted(rest, x, level);
  }

  /** From the end of the THEN part, a scan already deeper than this conditional goes on to its ENDIF. */
  lemma {:induction false} SkipsRest(p: Proto, x: seq<byte>, level: nat)
    requires p.If? && WellFormed(p) && level >= 2
    ensures Skip(AfterThen(p, x), level) == Skip([DOT] + (Print(p.rest) + x), level)
    decreases p, 0
  {
    if p.hasElse {
      var close := [DOT] + (Print(p.rest) + x);
      assert AfterThen(p, x)[1..] == Print(p.els) + close;
      SkipsPrinted(p.els, close, level);
    }
  }

  lemma SkipTwo(a: byte, c: byte, s: seq<byte>, level: nat)
    requires level >= 1 && (a == PERCENT || a == QUEST) && !Special(c)
    ensures Skip([a, c] + s, level) == Skip(s, if a == QUEST then level + 1 else level)
  {
    var t := [a, c] + s;
    assert t[1..] == [c] + s;
    assert t[1..][1..] == s;
  }

  /** A false condition resumes exactly at its ELSE part, or behind its ENDIF when it has none. */
  lemma FalseLands(p: Proto, x: seq<byte>)
    requires p.If? && WellFormed(p)
    ensures Skip(Print(p.thn) + AfterThen(p, x), 1)
         == Some(if p.hasElse then Print(p.els) + ([DOT] + (Print(p.rest) + x)) else Print(p.rest) + x)
  {
    SkipsPrinted(p.thn, AfterThen(p, x), 1);
    AfterThenBegins(p, x);
  }

  /** The ELSE met at the end of a true THEN part resumes exactly behind the ENDIF. */
  lemma ElseLands(p: Proto, x: seq<byte>)
    requires p.If? && WellFormed(p) && p.hasElse
    ensures Skip(AfterThen(p, x)[1..], 1) == Some(Print(p.rest) + x)
  {
    AfterThenBegins(p, x);
    SkipsPrinted(p.els, [DOT] + (Print(p.rest) + x), 1);
    SkipDot(Print(p.rest) + x, 1);
  }

  lemma ExpandLetter(st: Status, a: byte, c: byte, w: Option<byte>, s: seq<byte>, msg: seq<byte>)
    requires (a == PERCENT || a == QUEST) && LetterOk(c, w, s)
    ensures a == PERCENT ==>
      Expand(st, [a, c] + (Letter(w) + s), msg) == Expand(st, s, ProtoChar(st, c, Meant(w), msg))
    ensures a == QUEST && Cond(st, c, Meant(w), msg != []) ==>
      Expand(st, [a, c] + (Letter(w) + s), msg) == Expand(st, s, msg)
    ensures a == QUEST && !Cond(st, c, Meant(w), msg != []) && Skip(s, 1).Some? ==>
      Expand(st, [a, c] + (Letter(w) + s), msg) == Expand(st, Skip(s, 1).value, msg)
  {
    var t := [a, c] + (Letter(w) + s);
    assert t[2..] == Letter(w) + s;
    LetterReads(c, w, s);
  }

  /**
   * Expanding a printed prompt with more text behind it evaluates the prompt and goes on with that
   * text.
   */
  lemma {:induction false} ExpandsPrinted(st: Status, p: Proto, x: seq<byte>, msg: seq<byte>)
    requires WellFormed(p) && !StartsWhere(x)
    ensures Expand(st, Print(p) + x, msg) == Expand(st, x, Eval(st, p, msg))
    decreases p
  {
    hide Expand, Skip, Cond, ProtoChar;
    PrintBegins(p, x);
    match p
    case End =>
    case Lit(c, escaped, rest) =>
      ExpandLit(st, c, escaped, Print(rest) + x, msg);
      ExpandsPrinted(st, rest, x, msg + [c]);
    case Item(c, w, rest) =>
      LetterEarly(c, w, Print(rest), x);
      ExpandLetter(st, PERCENT, c, w, Print(rest) + x, msg);
      ExpandsPrinted(st, rest, x, ProtoChar(st, c, Meant(w), msg));
    case If(c, w, thn, hasElse, els, rest) =>
      var tail := AfterThen(p, x);
      var close := [DOT] + (Print(rest) + x);
      LetterEarly(c, w, Print(thn), tail);
      ExpandLetter(st, QUEST, c, w, Print(thn) + tail, msg);
      FalseLands(p, x);
      if Cond(st, c, Meant(w), msg != []) {
        ExpandsPrinted(st, thn, tail, msg);
        LeavesThen(st, p, x, Eval(st, thn, msg));
        ExpandsPrinted(st, rest, x, Eval(st, thn, msg));
      } else if hasElse {
        ExpandsPrinted(st, els, close, msg);
        ExpandDot(st, Print(rest) + x, Eval(st, els, msg));
        ExpandsPrinted(st, rest, x, Eval(st, els, msg));
      } else {
        ExpandsPrinted(st, rest, x, msg);
      }
  }

  lemma LetterEarly(c: byte, w: Option<byte>, s: seq<byte>, x: seq<byte>)
    requires LetterOk(c, w, s) && !StartsWhere(x)
    ensures LetterOk(c, w, s + x)
  {
    assert s == [] ==> s + x == x;
  }

  lemma LeavesThen(st: Status, p: Proto, x: seq<byte>, msg: seq<byte>)
    requires p.If? && WellFormed(p)
    ensures Expand(st, AfterThen(p, x), msg) == Expand(st, Print(p.rest) + x, msg)
  {
    if p.hasElse {
      ElseLands(p, x);
    } else {
      assert AfterThen(p, x)[1..] == Print(p.rest) + x;
    }
  }

  /** A printed prompt has no NUL in it. */
  lemma {:induction false} PrintedIsString(p: Proto)
    requires WellFormed(p)
    ensures NUL !in Print(p)
  {
    match p
    case End =>
    case Lit(c, escaped, rest) => PrintedIsString(rest);
    case Item(c, w, rest) => PrintedIsString(rest);
    case If(c, w, thn, hasElse, els, rest) =>
      PrintedIsString(thn);
      PrintedIsString(els);
      PrintedIsString(rest);
      hide Print;
      var close := [DOT] + Print(rest);
      var tail := if hasElse then [COLON] + (Print(els) + close) else close;
      assert NUL !in close && NUL !in tail;
      assert NUL !in Letter(w) + (Print(thn) + tail);
      PrintsIf(p);
  }

  lemma PrintsIf(p: Proto)
    requires p.If?
    ensures var close := [DOT] + Print(p.rest);
            var tail := if p.hasElse then [COLON] + (Print(p.els) + close) else close;
            Print(p) == [QUEST, p.c] + (Letter(p.w) + (Print(p.thn) + tail))
  {
  }

  /** Expanding the printed form of a prompt is evaluating the prompt. */
  lemma ExpandIsEval(st: Status, p: Proto)
    requires WellFormed(p)
    ensures NUL !in Print(p)
    ensures Expand(st, Print(p), []) == Some(Eval(st, p, []))
  {
    PrintedIsString(p);
    ExpandsPrinted(st, p, [], []);
    assert Print(p) + [] == Print(p);
  }

  /** Prompts that only add: no `%t`, and no condition that asks what is in the message. */
  predicate OnlyAdds(p: Proto) {
    match p
    case End => true
    case Lit(c, escaped, rest) => OnlyAdds(rest)
    case Item(c, w, rest) => c != L_t && OnlyAdds(rest)
    case If(c, w, thn, hasElse, els, rest) => c != L_a && OnlyAdds(thn) && OnlyAdds(els) && OnlyAdds(rest)
  }

  /** The text such a prompt adds does not depend on what came before it. */
  lemma {:induction false} EvalAppends(st: Status, p: Proto, msg: seq<byte>)
    requires OnlyAdds(p)
    ensures Eval(st, p, msg) == msg + Eval(st, p, [])
    decreases p
  {
    match p
    case End => assert msg + [] == msg;
    case Lit(c, escaped, rest) =>
      EvalAppends(st, rest, msg + [c]);
      EvalAppends(st, rest, [] + [c]);
      assert msg + [c] + Eval(st, rest, []) == msg + ([] + [c] + Eval(st, rest, []));
    case Item(c, w, rest) =>
      var added := ProtoChar(st, c, Meant(w), []);
      assert ProtoChar(st, c, Meant(w), msg) == msg + added;
      EvalAppends(st, rest, msg + added);
      EvalAppends(st, rest, added);
      assert msg + added + Eval(st, rest, []) == msg + (added + Eval(st, rest, []));
    case If(c, w, thn, hasElse, els, rest) =>
      EvalAppends(st, thn, msg);
      EvalAppends(st, els, msg);
      var chosen := if Cond(st, c, Meant(w), false) then Eval(st, thn, [])
                    else if hasElse then Eval(st, els, []) else [];
      assert Cond(st, c, Meant(w), msg != []) == Cond(st, c, Meant(w), false);
      EvalAppends(st, rest, msg + chosen);
      EvalAppends(st, rest, chosen);
      assert msg + [] == msg;
      assert msg + chosen + Eval(st, rest, []) == msg + (chosen + Eval(st, rest, []));
  }

  /** What `%t` leaves: the longest beginning of the message that does not end in a space. */
  lemma {:induction false} StripSpacesLeaves(msg: seq<byte>)
    ensures var r := StripSpaces(msg);
            && r <= msg
            && (forall k :: |r| <= k < |msg| ==> msg[k] == ' ' as int)
            && (r != [] ==> r[|r| - 1] != ' ' as int)
    decreases |msg|
  {
    if msg != [] && msg[|msg| - 1] == SPACE {
      StripSpacesLeaves(msg[..|msg| - 1]);
    }
  }

  // ---------------------------------------------------------------- what the letters show

  /** The value of a string of digits, the last of which counts ones. */
  function Value(digits: seq<byte>): int {
    if digits == [] then 0 else 10 * Value(digits[..|digits| - 1]) + (digits[|digits| - 1] as int - 48)
  }

  predicate Digits(s: seq<byte>) { forall i :: 0 <= i < |s| ==> '0' as int <= s[i] <= '9' as int }

  /** Digits that are worth `n`, with no zero before them, and for a negative number a dash. */
  ghost predicate Numeral(s: seq<byte>, n: int)
    decreases |s|
  {
    if n < 0 then s != [] && s[0] == '-' as int && Numeral(s[1..], -n)
    else s != [] && Digits(s) && Value(s) == n && (|s| > 1 ==> s[0] != '0' as int)
  }

  /** The decimal digits of a number are a numeral of it, and there is no other. */
  lemma {:induction false} DecimalIs(n: int)
    ensures Numeral(Decimal(n), n) && (n > 0 ==> Decimal(n)[0] != '0' as int)
    decreases if n < 0 then 1 - n else n
  {
    if n < 0 {
      DecimalIs(-n);
      assert Decimal(n)[1..] == Decimal(-n);
    } else if n < 10 {
      assert [48 + n][..0] == [];
    } else {
      DecimalIs(n / 10);
      var head := Decimal(n / 10);
      assert (head + [48 + n % 10])[..|head|] == head;
    }
  }

  lemma {:induction false} OneNumeral(s: seq<byte>, n: int)
    requires Numeral(s, n)
    ensures s == Decimal(n)
    decreases |s|
  {
    hide Value;
    if n < 0 {
      OneNumeral(s[1..], -n);
      assert s == [s[0]] + s[1..];
    } else {
      var head, last := s[..|s| - 1], s[|s| - 1] as int - 48;
      assert s == head + [48 + last];
      assert n == 10 * Value(head) + last by { LastCountsOnes(s); }
      if head == [] {
        LastCountsOnes(head);
      } else {
        ValueAtLeast(head);
        assert n / 10 == Value(head) && n % 10 == last;
        OneNumeral(head, n / 10);
      }
    }
  }

  lemma LastCountsOnes(s: seq<byte>)
    ensures Value(s) == if s == [] then 0 else 10 * Value(s[..|s| - 1]) + (s[|s| - 1] as int - 48)
  {
  }

  /** Digits without a zero before them are worth something. */
  lemma {:induction false} ValueAtLeast(s: seq<byte>)
    requires s != [] && s[0] != 48 && Digits(s)
    ensures Value(s) >= 1
    decreases |s|
  {
    var head := s[..|s| - 1];
    if head == [] {
      assert Value(head) == 0;
    } else {
      ValueAtLeast(head);
    }
  }

  function Codes(s: string): (t: seq<byte>)
    requires forall i :: 0 <= i < |s| ==> s[i] as int < 256
    ensures |t| == |s| && forall i :: 0 <= i < |s| ==> t[i] == s[i] as int
  {
    if s == "" then [] else [s[0] as int] + Codes(s[1..])
  }

  /** The letter of a place, or none. */
  type Spot = s: string | s in {"", "t", "m", "b", "B", "j"}

  function PlaceOf(at: Spot): Where {
    match at
    case "m" => Middle
    case "b" => Bottom
    case "B" => BottomPlusOne
    case "j" => JumpTarget
    case _ => Top
  }

  /** An item: a percent sign, its letter, and the letter of a place or none. */
  function Item(c: char, at: Spot): seq<byte>
    requires c as int < 256
  {
    Codes("%" + [c] + at)
  }

  /** The prompt adds a text to the message. */
  ghost predicate Gives(st: Status, proto: seq<byte>, msg: seq<byte>, text: seq<byte>) {
    Expand(st, proto, msg) == Some(msg + text)
  }

  /** The prompt adds a number to the message, or a question mark where there is none. */
  ghost predicate GivesNumber(st: Status, proto: seq<byte>, msg: seq<byte>, n: Option<int>) {
    if n.None? then Gives(st, proto, msg, ['?' as int])
    else exists digits :: Numeral(digits, n.value) && Gives(st, proto, msg, digits)
  }

  lemma GivesDecimal(st: Status, proto: seq<byte>, msg: seq<byte>, n: Option<int>)
    requires Expand(st, proto, msg) == Some(msg + if n.Some? then Decimal(n.value) else [63])
    ensures GivesNumber(st, proto, msg, n)
  {
    if n.Some? {
      DecimalIs(n.value);
    }
  }

  lemma ItemReads(st: Status, c: char, at: Spot, msg: seq<byte>)
    requires c as int < 256 && (at == "" || c in "blp")
    ensures Expand(st, Item(c, at), msg) == Some(ProtoChar(st, c as int, PlaceOf(at), msg))
  {
    hide ProtoChar;
    var s := Item(c, at);
    assert s[0] == 37 && s[1] == c as int && s[2..] == Codes(at);
    assert at != "" ==> Codes(at)[1..] == [];
  }

  /**
   * A backslash makes the character behind it a plain one, and a plain character is added as it
   * is.  A condition or item without a letter shows nothing, nor does the end of a condition that
   * has not begun.
   */
  lemma PlainShows(st: Status, c: byte, msg: seq<byte>)
    ensures Gives(st, ['?' as int], msg, []) && Gives(st, ['%' as int], msg, []) && Gives(st, ['.' as int], msg, [])
    ensures Gives(st, ['\\' as int, c], msg, [c])
    ensures c !in ['\\' as int, '?' as int, ':' as int, '.' as int, '%' as int] ==> Gives(st, [c], msg, [c])
  {
    assert [92, c][2..] == [] && [c][1..] == [];
    assert [46 as byte][1..] == [] && msg + [] == msg;
  }

  /** An item whose letter takes no place ends with its letter, whatever comes behind it. */
  lemma ItemEnds(st: Status, c: char, s: seq<byte>, msg: seq<byte>)
    requires c as int < 256 && c !in "blp"
    ensures Expand(st, Item(c, ""), msg).Some?
    ensures Expand(st, Item(c, "") + s, msg) == Expand(st, s, Expand(st, Item(c, ""), msg).value)
  {
    hide ProtoChar;
    ItemReads(st, c, "", msg);
    var t := Item(c, "") + s;
    assert forall k :: 0 <= k < |"blp"| ==> "blp"[k] != c;
    assert t[0] == 37 && t[1] == c as int && t[2..] == s;
  }

  /** What the items without a place show, whatever is in the message. */
  lemma ItemsShow(st: Status, msg: seq<byte>)
    ensures Gives(st, Item('f', ""), msg, st.filename) && Gives(st, Item('E', ""), msg, st.editor)
    ensures Gives(st, Item('x', ""), msg, if st.nextFile.Some? then st.nextFile.value else ['?' as int])
    ensures GivesNumber(st, Item('i', ""), msg, Some(st.fileIndex))
    ensures GivesNumber(st, Item('m', ""), msg, Some(st.fileCount))
    ensures GivesNumber(st, Item('s', ""), msg, st.length) && GivesNumber(st, Item('B', ""), msg, st.length)
    ensures GivesNumber(st, Item('L', ""), msg,
              if st.length.Some? && st.length.value > 0 && st.lineAtEnd > 0 then Some(st.lineAtEnd - 1) else None)
    ensures Expand(st, Item('t', ""), msg) == Some(StripSpaces(msg))
    ensures forall c: char {:trigger Item(c, "")} :: c as int < 256 && c !in "bBEfiLlmpstx" ==>
      Expand(st, Item(c, ""), msg) == Some(msg)
  {
    hide Expand, Decimal, Item, Numeral;
    forall c: char | c as int < 256
      ensures Expand(st, Item(c, ""), msg) == Some(ProtoChar(st, c as int, Top, msg))
    {
      ItemReads(st, c, "", msg);
    }
    GivesDecimal(st, Item('i', ""), msg, Some(st.fileIndex));
    GivesDecimal(st, Item('m', ""), msg, Some(st.fileCount));
    GivesDecimal(st, Item('s', ""), msg, st.length);
    GivesDecimal(st, Item('B', ""), msg, st.length);
    GivesDecimal(st, Item('L', ""), msg,
      if st.length.Some? && st.length.value > 0 && st.lineAtEnd > 0 then Some(st.lineAtEnd - 1) else None);
    forall c: char | c as int < 256 && c !in "bBEfiLlmpstx"
      ensures ProtoChar(st, c as int, Top, msg) == msg
    {
      assert forall k :: 0 <= k < |"bBEfiLlmpstx"| ==> "bBEfiLlmpstx"[k] != c;
    }
  }

  /** What the items with a place show: the byte, the line, and the percentage of the bytes. */
  lemma PlacedItemsShow(st: Status, at: Spot, msg: seq<byte>)
    ensures var byteThere, line := st.currByte(PlaceOf(at)), st.currLine(PlaceOf(at));
      && GivesNumber(st, Item('b', at), msg, byteThere)
      && GivesNumber(st, Item('l', at), msg, if line == 0 then None else Some(line))
      && GivesNumber(st, Item('p', at), msg,
           if byteThere.Some? && st.length.Some? && st.length.value > 0
           then Some(100 * byteThere.value / st.length.value) else None)
  {
    hide Expand, Decimal, Item, Numeral, PlaceOf;
    ItemReads(st, 'b', at, msg);
    ItemReads(st, 'l', at, msg);
    ItemReads(st, 'p', at, msg);
    var byteThere, line := st.currByte(PlaceOf(at)), st.currLine(PlaceOf(at));
    GivesDecimal(st, Item('b', at), msg, byteThere);
    GivesDecimal(st, Item('l', at), msg, if line == 0 then None else Some(line));
    GivesDecimal(st, Item('p', at), msg,
      if byteThere.Some? && st.length.Some? && st.length.value > 0
      then Some(100 * byteThere.value / st.length.value) else None);
  }

  /** `?cX:Y.` shows X if the condition holds and Y if not, and `?cX.` shows X or nothing. */
  ghost predicate Tests(st: Status, c: char, at: Spot, msg: seq<byte>, holds: bool)
    requires c as int < 256
  {
    && Gives(st, Codes("?" + [c] + at + "X:Y."), msg, if holds then ['X' as int] else ['Y' as int])
    && Gives(st, Codes("?" + [c] + at + "X."), msg, if holds then ['X' as int] else [])
  }

  lemma TestReads(st: Status, c: char, at: Spot, msg: seq<byte>)
    requires c as int < 256 && (at == "" || c in "blp")
    ensures Tests(st, c, at, msg, Cond(st, c as int, PlaceOf(at), msg != []))
  {
    hide Cond, Codes, Expand, Skip, PlaceOf;
    BranchReads(st, c, at, msg, "X.");
    BranchReads(st, c, at, msg, "X:Y.");
    assert Codes("X.") == [88, 46] && Codes("X:Y.") == [88, 58, 89, 46];
    ShortTexts(st, msg);
    assert msg + [] == msg;
  }

  lemma ShortTexts(st: Status, msg: seq<byte>)
    ensures Expand(st, [88, 46], msg) == Some(msg + [88]) && Skip([88, 46], 1) == Some([])
    ensures Expand(st, [88, 58, 89, 46], msg) == Some(msg + [88]) && Skip([88, 58, 89, 46], 1) == Some([89, 46])
    ensures Expand(st, [89, 46], msg) == Some(msg + [89]) && Expand(st, [], msg) == Some(msg)
  {
    var dot: seq<byte> := [46];
    var no: seq<byte> := [89, 46];
    var either: seq<byte> := [58, 89, 46];
    assert dot[1..] == [] && no[1..] == dot && either[1..] == no;
    assert ([88] + dot)[1..] == dot && ([88] + either)[1..] == either;
    assert [88, 46] == [88] + dot && [88, 58, 89, 46] == [88] + either;
    assert Skip(no, 1) == Some([]) && Skip(either, 1) == Some(no);
  }

  lemma BranchReads(st: Status, c: char, at: Spot, msg: seq<byte>, text: string)
    requires c as int < 256 && (at == "" || c in "blp")
    requires text != "" && text[0] == 'X' && forall i :: 0 <= i < |text| ==> text[i] as int < 256
    ensures Expand(st, Codes("?" + [c] + at + text), msg) ==
      if Cond(st, c as int, PlaceOf(at), msg != []) then Expand(st, Codes(text), msg)
      else if Skip(Codes(text), 1).None? then None
      else Expand(st, Skip(Codes(text), 1).value, msg)
  {
    hide Cond, Skip, Codes;
    var s := Codes("?" + [c] + at + text);
    assert s[0] == 63 && s[1] == c as int && s[2..] == Codes(at) + Codes(text);
    assert at != "" ==> s[2..][1..] == Codes(text);
    assert at == "" ==> s[2..] == Codes(text);
  }

  /** When each condition holds. */
  lemma ConditionsTest(st: Status, at: Spot, msg: seq<byte>)
    ensures Tests(st, 'a', "", msg, msg != []) && Tests(st, 'e', "", msg, st.hitEof)
    ensures Tests(st, 'f', "", msg, st.filename != ['-' as int])
    ensures Tests(st, 'L', "", msg, st.linenums && st.length.Some?)
    ensures Tests(st, 'm', "", msg, st.fileCount > 1) && Tests(st, 'n', "", msg, st.newFile)
    ensures Tests(st, 's', "", msg, st.length.Some?) && Tests(st, 'B', "", msg, st.length.Some?)
    ensures Tests(st, 'x', "", msg, st.nextFile.Some?)
    ensures Tests(st, 'l', at, msg, st.linenums)
    ensures var byteThere := st.currByte(PlaceOf(at));
      && Tests(st, 'b', at, msg, byteThere.Some?)
      && Tests(st, 'p', at, msg, byteThere.Some? && st.length.Some? && st.length.value > 0)
    ensures forall c: char {:trigger Tests(st, c, "", msg, false)} :: c as int < 256 && c !in "abBeflLmnpsx" ==>
      Tests(st, c, "", msg, false)
  {
    hide Tests, PlaceOf;
    TestReads(st, 'a', "", msg);
    TestReads(st, 'e', "", msg);
    TestReads(st, 'f', "", msg);
    TestReads(st, 'L', "", msg);
    TestReads(st, 'm', "", msg);
    TestReads(st, 'n', "", msg);
    TestReads(st, 's', "", msg);
    TestReads(st, 'B', "", msg);
    TestReads(st, 'x', "", msg);
    TestReads(st, 'b', at, msg);
    TestReads(st, 'l', at, msg);
    TestReads(st, 'p', at, msg);
    forall c: char {:trigger Tests(st, c, "", msg, false)} | c as int < 256 && c !in "abBeflLmnpsx"
      ensures Tests(st, c, "", msg, false)
    {
      TestReads(st, c, "", msg);
      assert forall k :: 0 <= k < |"abBeflLmnpsx"| ==> "abBeflLmnpsx"[k] != c;
    }
  }

  // ---------------------------------------------------------------- the code

  /** Skip a false conditional; `past` when the scan leaves the prompt. */
  method SkipCond(proto: seq<byte>, start: nat) returns (p: nat, past: bool)
    requires NUL !in proto && start < |proto|
    ensures past == Skip(proto[start + 1..], 1).None?
    ensures !past ==> start <= p < |proto| && Skip(proto[start + 1..], 1) == Some(proto[p + 1..])
  {
    p, past := start, false;
    var ifLevel := 1;
    while true
      invariant start <= p < |proto| && ifLevel >= 1
      invariant Skip(proto[p + 1..], ifLevel) == Skip(proto[start + 1..], 1)
      decreases |proto| - p
    {
      p := p + 1;
      ghost var s := proto[p..];
      if p == |proto| {
        return p - 1, false;
      }
      assert s[0] == proto[p] && s[1..] == proto[p + 1..];
      if proto[p] == QUEST {
        ifLevel := ifLevel + 1;
      } else if proto[p] == COLON {
        if ifLevel == 1 { return; }
      } else if proto[p] == DOT {
        ifLevel := ifLevel - 1;
        if ifLevel == 0 { return; }
      } else if proto[p] == BACKSLASH {
        p := p + 1;
        if p == |proto| {
          return p, true;
        }
        assert s[2..] == proto[p + 1..];
      }
    }
  }

  /** From the letter at `start`: the position it names, and the last character read. */
  method ReadWhere(proto: seq<byte>, start: nat) returns (p: nat, w: Where)
    requires start < |proto|
    ensures start <= p < |proto|
    ensures WhereChar(proto[start], proto[start + 1..]) == (w, proto[p + 1..])
  {
    p, w := start, Top;
    if TakesWhere(proto[p]) {
      p := p + 1;
      ghost var s := proto[p..];
      assert p < |proto| ==> s[0] == proto[p] && s[1..] == proto[p + 1..];
      if p < |proto| && proto[p] == L_t { w := Top; }
      else if p < |proto| && proto[p] == L_m { w := Middle; }
      else if p < |proto| && proto[p] == L_b { w := Bottom; }
      else if p < |proto| && proto[p] == L_B { w := BottomPlusOne; }
      else if p < |proto| && proto[p] == L_j { w := JumpTarget; }
      else { w := Top; p := p - 1; }
    }
  }

  /** The outcome of a prompt: the empty string, no message at all, a message, or a read past its end. */
  datatype Shown = EmptyProto | Nothing | Message(text: seq<byte>) | PastEnd

  function Present(msg: seq<byte>, maxwidth: int): Shown {
    if msg == [] then Nothing
    else if maxwidth > 0 && |msg| >= maxwidth then Message(msg[|msg| - maxwidth..])
    else Message(msg)
  }

  /** A message is presented whole, or its last `maxwidth` characters where it is longer than that. */
  lemma PresentIs(msg: seq<byte>, maxwidth: int)
    requires msg != []
    ensures Present(msg, maxwidth).Message?
    ensures var text := Present(msg, maxwidth).text;
      && (exists start :: start + text == msg)
      && |text| == if 0 < maxwidth < |msg| then maxwidth else |msg|
  {
    var text := Present(msg, maxwidth).text;
    assert msg[..|msg| - |text|] + text == msg;
  }

  class Prompter {
    var st: Status
    var message: seq<byte>

    constructor (st: Status)
      ensures this.st == st && message == []
    {
      this.st, message := st, [];
    }

    method TruncateSpaces()
      modifies `message
      ensures message == StripSpaces(old(message))
    {
      while message != [] && message[|message| - 1] == SPACE
        invariant StripSpaces(message) == StripSpaces(old(message))
        decreases |message|
      {
        message := message[..|message| - 1];
      }
    }

    method ApStr(text: seq<byte>)
      modifies `message
      ensures message == old(message) + text
    {
      message := message + text;
    }

    /** Append a number, or a question mark where there is none. */
    method ApKnown(n: Option<int>)
      modifies `message
      ensures message == old(message) + (if n.Some? then Decimal(n.value) else [QUEST])
    {
      if n.Some? { ApStr(Decimal(n.value)); } else { ApStr([QUEST]); }
    }

    method ApPercent(w: Where)
      modifies `message
      ensures message == ProtoChar(st, L_p, w, old(message))
    {
      var pos := st.currByte(w);
      var len := st.length;
      if pos.Some? && len.Some? && len.value > 0 {
        ApKnown(Some(100 * pos.value / len.value));
      } else {
        ApKnown(None);
      }
    }

    method ApLastLine()
      modifies `message
      ensures forall w :: message == ProtoChar(st, L_L, w, old(message))
    {
      var len := st.length;
      if len.None? || len.value == 0 || st.lineAtEnd <= 0 {
        ApKnown(None);
      } else {
        ApKnown(Some(st.lineAtEnd - 1));
      }
    }

    /** Do what the letter after a percent sign says. */
    method Decode(c: byte, w: Where)
      modifies `message
      ensures message == ProtoChar(st, c, w, old(message))
    {
      if c == L_b { ApKnown(st.currByte(w)); }
      else if c == L_E { ApStr(st.editor); }
      else if c == L_f { ApStr(st.filename); }
      else if c == L_i { ApKnown(Some(st.fileIndex)); }
      else if c == L_l { ApKnown(if st.currLine(w) != 0 then Some(st.currLine(w)) else None); }
      else if c == L_L { ApLastLine(); }
      else if c == L_m { ApKnown(Some(st.fileCount)); }
      else if c == L_p { ApPercent(w); }
      else if c == L_s || c == L_B { ApKnown(st.length); }
      else if c == L_t { TruncateSpaces(); }
      else if c == L_x {
        if st.nextFile.Some? { ApStr(st.nextFile.value); } else { ApKnown(None); }
      }
    }

    /** Build the message of a non-empty or empty prompt `proto`. */
    method PrExpand(proto: seq<byte>, maxwidth: int) returns (shown: Shown)
      requires NUL !in proto
      modifies this
      ensures proto == [] ==> shown == EmptyProto && st == old(st)
      ensures shown == PastEnd <==> Expand(old(st), proto, []).None?
      ensures proto != [] && shown != PastEnd ==>
        shown == Present(Expand(old(st), proto, []).value, maxwidth) && st == old(st).(newFile := false)
      ensures proto != [] && shown != PastEnd ==>
        var msg := Expand(old(st), proto, []).value;
        if msg == [] then shown == Nothing
        else
          && shown.Message? && (exists start :: start + shown.text == msg)
          && |shown.text| == if 0 < maxwidth < |msg| then maxwidth else |msg|
    {
      message := [];
      if proto == [] {
        return EmptyProto;
      }
      var p := 0;
      while p < |proto|
        invariant 0 <= p <= |proto| && st == old(st)
        invariant Expand(st, proto[p..], message) == Expand(st, proto, [])
        decreases |proto| - p
      {
        var past;
        p, past := ExpandOne(proto, p);
        if past {
          return PastEnd;
        }
      }
      st := st.(newFile := false);
      shown := Present(message, maxwidth);
      if message != [] {
        PresentIs(message, maxwidth);
      }
    }

    /** One turn of the loop: read the piece at `start`, and say where the next one is, or that the end is passed. */
    method ExpandOne(proto: seq<byte>, start: nat) returns (next: nat, past: bool)
      requires NUL !in proto && start < |proto|
      modifies `message
      ensures past ==> Expand(st, proto[start..], old(message)).None?
      ensures !past ==>
        start < next <= |proto| && Expand(st, proto[next..], message) == Expand(st, proto[start..], old(message))
    {
      past := false;
      var p := start;
      ghost var s := proto[p..];
      assert s[0] == proto[p] && s[1..] == proto[p + 1..];
      assert |s| > 1 ==> s[1] == proto[p + 1] && s[2..] == proto[p + 2..];
      if proto[p] == BACKSLASH {
        p := p + 1;
        if p == |proto| {
          return p, true;
        }
        message := message + [proto[p]];
      } else if proto[p] == QUEST || proto[p] == PERCENT {
        if p + 1 < |proto| {
          var c := proto[p + 1];
          var w;
          p, w := ReadWhere(proto, p + 1);
          if proto[start] == PERCENT {
            Decode(c, w);
          } else if !Cond(st, c, w, message != []) {
            p, past := SkipCond(proto, p);
          }
        } else {
          assert proto[p + 1..] == [];
        }
      } else if proto[p] == COLON {
        p, past := SkipCond(proto, p);
      } else if proto[p] != DOT {
        message := message + [proto[p]];
      }
      next := p + 1;
    }
  }
}
