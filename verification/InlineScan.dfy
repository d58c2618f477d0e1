/**
 * The substring scan written inline in `prarch_match` (archie/access/prarch_match.c): a skip
 * table indexed by the mismatched character, with a full pattern-length jump of the text
 * cursor whenever the tabulated skip would not move the alignment forward.
 *
 * What the scan finds is always an occurrence.  It ends on every text exactly if the characters
 * of the pattern can be told equal to those of a text (`EndsIffComparable`), and it is complete
 * exactly for the patterns without a "gap" (`CompleteIffNoGap`, `AnswersIff`).  Both conditions
 * depend on the pattern alone, the first one also on whether a plain `char` is signed.
 */
module InlineScan {
  import opened Bytes
  import opened Wrappers

  // ---------------------------------------------------------------- specification

  function Fold(nocase: bool, c: byte): byte { if nocase then ToLower(c) else c }

  function FoldAll(nocase: bool, s: seq<byte>): (r: seq<byte>)
    ensures |r| == |s|
  {
    seq(|s|, i requires 0 <= i < |s| => Fold(nocase, s[i]))
  }

  lemma FoldAt(nocase: bool, s: seq<byte>, i: nat)
    requires i < |s|
    ensures FoldAll(nocase, s)[i] == Fold(nocase, s[i])
  {
  }

  /** Pattern `p` stands in `t` at offset `a`. */
  predicate StandsAt(p: seq<byte>, t: seq<byte>, a: int) {
    0 <= a <= |t| - |p| && forall i :: 0 <= i < |p| ==> t[a + i] == p[i]
  }

  ghost predicate Contains(p: seq<byte>, t: seq<byte>) {
    exists a :: StandsAt(p, t, a)
  }

  /** To stand somewhere is to be that part of the text; after folding, up to the case of letters. */
  lemma StandsIs(p: seq<byte>, t: seq<byte>, a: int)
    ensures StandsAt(p, t, a) <==> 0 <= a <= |t| - |p| && t[a..a + |p|] == p
    ensures StandsAt(FoldAll(true, p), FoldAll(true, t), a) <==> 0 <= a <= |t| - |p| && SameLetters(t[a..a + |p|], p)
  {
    if 0 <= a <= |t| - |p| {
      var part := t[a..a + |p|];
      assert forall i :: 0 <= i < |p| ==> part[i] == t[a + i];
      forall i | 0 <= i < |p|
        ensures FoldAll(true, t)[a + i] == FoldAll(true, p)[i] <==> SameLetter(part[i], p[i])
      {
        LowerIsSame(t[a + i], p[i]);
      }
    }
  }

  // ---------------------------------------------------------------- the scan as a function

  /** The last index before `n` at which `c` stands in the pattern; -1 if there is none. */
  function LastIndex(p: seq<byte>, c: byte, n: nat): (i: int)
    requires n <= |p|
    ensures -1 <= i < n
    ensures i >= 0 ==> p[i] == c
    ensures forall j :: i < j < n ==> p[j] != c
  {
    if n == 0 || p[n - 1] == c then n - 1 else LastIndex(p, c, n - 1)
  }

  function Skip(p: seq<byte>, c: byte): nat { |p| - 1 - LastIndex(p, c, |p|) }

  /** How far the text cursor moves after a mismatch at pattern index `pc`. */
  function Jump(p: seq<byte>, c: byte, pc: nat): (j: nat)
    requires pc < |p| && p[pc] != c
    ensures |p| - 1 - pc < j <= |p|
  {
    if Skip(p, c) < |p| - 1 - pc then |p| else Skip(p, c)
  }

  /** The cursors lie on one alignment, and the pattern after `pc` has been matched there. */
  predicate Matched(p: seq<byte>, t: seq<byte>, tc: int, pc: int) {
    && -1 <= pc < |p| && pc <= tc
    && (pc < |p| - 1 ==> tc - pc + |p| <= |t|)
    && forall i :: pc < i < |p| ==> t[tc - pc + i] == p[i]
  }

  /**
   * The scan from text cursor `tc` and pattern cursor `pc`, both moving left along a match:
   * the offset at which the pattern was found, or -1.
   */
  function Scan(p: seq<byte>, t: seq<byte>, tc: int, pc: int): (r: int)
    requires |p| > 0 && Matched(p, t, tc, pc)
    ensures r >= 0 ==> StandsAt(p, t, r)
    decreases |t| + |p| - (tc - pc), pc + 1
  {
    if pc < 0 then tc + 1
    else if tc >= |t| then -1
    else if t[tc] == p[pc] then Scan(p, t, tc - 1, pc - 1)
    else Scan(p, t, tc + Jump(p, t[tc], pc), |p| - 1)
  }

  /** One comparison, and the move that follows it. */
  lemma ScanStep(p: seq<byte>, t: seq<byte>, tc: int, pc: int)
    requires |p| > 0 && Matched(p, t, tc, pc) && 0 <= pc && tc < |t|
    ensures t[tc] == p[pc] ==>
      Matched(p, t, tc - 1, pc - 1) && Scan(p, t, tc - 1, pc - 1) == Scan(p, t, tc, pc)
    ensures t[tc] != p[pc] ==>
      var tc' := tc + if Skip(p, t[tc]) < |p| - 1 - pc then |p| else Skip(p, t[tc]);
      Matched(p, t, tc', |p| - 1) && Scan(p, t, tc', |p| - 1) == Scan(p, t, tc, pc)
      && tc' - (|p| - 1) > tc - pc
  {
    if t[tc] != p[pc] {
      assert Jump(p, t[tc], pc) > |p| - 1 - pc;
    }
  }

  lemma StartMatched(p: seq<byte>, t: seq<byte>)
    requires 0 < |p| <= |t|
    ensures Matched(p, t, |p| - 1, |p| - 1)
    ensures Find(p, t) == Scan(p, t, |p| - 1, |p| - 1)
  {
  }

  /** Where the scan ends, its value is at hand. */
  lemma ScanEnd(p: seq<byte>, t: seq<byte>, tc: int, pc: int)
    requires |p| > 0 && Matched(p, t, tc, pc) && (pc < 0 || tc >= |t|)
    ensures Scan(p, t, tc, pc) == if pc < 0 then tc + 1 else -1
    ensures pc < 0 ==> StandsAt(p, t, tc + 1)
  {
  }

  /** The scan of one string of the table; strings shorter than the pattern are passed over. */
  function Find(p: seq<byte>, t: seq<byte>): (r: int)
    requires |p| > 0
    ensures r >= 0 ==> StandsAt(p, t, r)
  {
    if |t| < |p| then -1 else Scan(p, t, |p| - 1, |p| - 1)
  }

  // ---------------------------------------------------------------- completeness

  /**
   * A gap at `pc` with earlier index `j`: the part of the pattern after `pc` stands again
   * after `j`, the characters at `j` and `pc` differ, and the one at `j` stands again after `pc`.
   * The jump made on a mismatch at `pc` then passes the alignment that puts `j` there.
   */
  predicate GapAt(p: seq<byte>, j: int, pc: int) {
    && 0 <= j < pc < |p|
    && p[j] != p[pc]
    && (forall i :: pc < i < |p| ==> p[j - pc + i] == p[i])
    && exists l :: pc < l < |p| && p[l] == p[j]
  }

  predicate HasGap(p: seq<byte>) {
    exists pc, j :: 0 <= pc < |p| && 0 <= j < pc && GapAt(p, j, pc)
  }

  /** A jump that passes an occurrence reveals a gap. */
  lemma PassedReveals(p: seq<byte>, t: seq<byte>, tc: int, pc: nat, a: int)
    requires pc < |p| && Matched(p, t, tc, pc) && tc < |t| && t[tc] != p[pc]
    requires StandsAt(p, t, a) && tc - pc <= a < tc + Jump(p, t[tc], pc) - (|p| - 1)
    ensures GapAt(p, tc - a, pc)
  {
    var c, j := t[tc], tc - a;
    assert j >= 0 ==> p[j] == t[a + j] == c;
    var l := LastIndex(p, c, |p|);
    assert pc < l && p[l] == c;
    forall i | pc < i < |p|
      ensures p[j - pc + i] == p[i]
    {
      assert t[tc - pc + i] == p[i];
      assert t[a + (j - pc + i)] == p[j - pc + i];
    }
  }

  /** Without a gap, the scan finds an occurrence no later than any at or after its alignment. */
  lemma {:induction false} ScanLeftmost(p: seq<byte>, t: seq<byte>, tc: int, pc: int, a: int)
    requires |p| > 0 && !HasGap(p)
    requires Matched(p, t, tc, pc)
    requires StandsAt(p, t, a) && tc - pc <= a
    ensures 0 <= Scan(p, t, tc, pc) <= a
    decreases |t| + |p| - (tc - pc), pc + 1
  {
    if pc >= 0 {
      if t[tc] == p[pc] {
        ScanLeftmost(p, t, tc - 1, pc - 1, a);
      } else {
        if a < tc + Jump(p, t[tc], pc) - (|p| - 1) {
          PassedReveals(p, t, tc, pc, a);
        }
        ScanLeftmost(p, t, tc + Jump(p, t[tc], pc), |p| - 1, a);
      }
    }
  }

  /** While the characters agree the scan walks left along the first alignment. */
  lemma {:induction false} WalkLeft(p: seq<byte>, t: seq<byte>, pc: nat, from: int)
    requires pc <= from < |p| <= |t|
    requires Matched(p, t, pc, pc)
    ensures Matched(p, t, from, from)
    ensures Scan(p, t, from, from) == Scan(p, t, pc, pc)
    decreases from - pc
  {
    if pc < from {
      assert t[from] == p[from];
      WalkLeft(p, t, pc, from - 1);
    }
  }

  /** A text whose first alignment fails at a gap, and which ends before the jump lands, is given up. */
  lemma GapEndsScan(p: seq<byte>, t: seq<byte>, j: int, pc: int)
    requires GapAt(p, j, pc) && |p| <= |t| <= pc + |p|
    requires Matched(p, t, pc, pc) && t[pc] == p[j]
    ensures Find(p, t) == -1
  {
    WalkLeft(p, t, pc, |p| - 1);
    assert LastIndex(p, p[j], |p|) > pc;
    assert Jump(p, t[pc], pc) == |p|;
  }

  /** A pattern with a gap is missed in the text made of its own first `pc - j` characters and itself. */
  lemma GapIsMissed(p: seq<byte>, j: int, pc: int) returns (t: seq<byte>)
    requires GapAt(p, j, pc)
    ensures StandsAt(p, t, pc - j) && Find(p, t) == -1
  {
    t := p[..pc - j] + p;
    assert Matched(p, t, pc, pc) by {
      forall i | pc < i < |p|
        ensures t[i] == p[i]
      {
        assert p[j - pc + i] == p[i];
      }
    }
    GapEndsScan(p, t, j, pc);
  }

  /**
   * The exact guarantee of the scan: a pattern is found in every text that contains it if and
   * only if it has no gap.  What is found is always an occurrence, whatever the pattern.
   */
  lemma CompleteIffNoGap(p: seq<byte>)
    requires |p| > 0
    ensures (forall t: seq<byte> :: Find(p, t) >= 0 <==> Contains(p, t)) <==> !HasGap(p)
  {
    if HasGap(p) {
      var pc, j :| 0 <= pc < |p| && 0 <= j < pc && GapAt(p, j, pc);
      var t := GapIsMissed(p, j, pc);
      assert Contains(p, t) && Find(p, t) < 0;
    } else {
      forall t: seq<byte>
        ensures Find(p, t) >= 0 <==> Contains(p, t)
      {
        if a :| StandsAt(p, t, a) {
          ScanLeftmost(p, t, |p| - 1, |p| - 1, a);
        }
      }
    }
  }

  /** Without a gap the occurrence found is the leftmost. */
  lemma FindsLeftmost(p: seq<byte>, t: seq<byte>, a: int)
    requires |p| > 0 && !HasGap(p) && StandsAt(p, t, a)
    ensures 0 <= Find(p, t) <= a
  {
    ScanLeftmost(p, t, |p| - 1, |p| - 1, a);
  }

  lemma NoneMissed(p: seq<byte>, t: seq<byte>)
    requires |p| > 0
    ensures !HasGap(p) ==> forall a :: StandsAt(p, t, a) ==> 0 <= Find(p, t) <= a
  {
    if !HasGap(p) {
      forall a | StandsAt(p, t, a)
        ensures 0 <= Find(p, t) <= a
      {
        FindsLeftmost(p, t, a);
      }
    }
  }

  /** A pattern without a repeated character has no gap. */
  lemma DistinctHasNoGap(p: seq<byte>)
    requires forall i, j :: 0 <= i < j < |p| ==> p[i] != p[j]
    ensures !HasGap(p)
  {
  }

  /** "ttyt" has a gap: the scan misses it in "xxttyt". */
  lemma RepeatedPatternMissed()
    ensures var p: seq<byte>, t: seq<byte> := [116, 116, 121, 116], [120, 120, 116, 116, 121, 116];
      StandsAt(p, t, 2) && Find(p, t) == -1
  {
    var p: seq<byte>, t: seq<byte> := [116, 116, 121, 116], [120, 120, 116, 116, 121, 116];
    assert LastIndex(p, 116, 4) == 3;
    assert t[3] == 116 && t[2] == 116;
    assert Scan(p, t, 3, 3) == Scan(p, t, 2, 2) == -1;
  }

  // ---------------------------------------------------------------- signed characters

  /** The value of a plain `char` that holds the byte `b`. */
  function CharValue(signedChar: bool, b: byte): int { if signedChar && b >= 128 then b - 256 else b }

  /** The code compares an unsigned character of the text with a plain one of the pattern. */
  predicate SameChar(signedChar: bool, c: byte, x: byte) { c as int == CharValue(signedChar, x) }

  /** Every character of the pattern is the same as itself. */
  predicate Comparable(signedChar: bool, p: seq<byte>) {
    signedChar ==> forall i :: 0 <= i < |p| ==> p[i] < 128
  }

  /** One turn of the code's loop. */
  function Turn(signedChar: bool, p: seq<byte>, t: seq<byte>, tc: int, pc: int): (r: (int, int))
    requires 0 <= pc < |p| && pc <= tc < |t|
    ensures -1 <= r.1 < |p| && r.1 <= r.0
  {
    if SameChar(signedChar, t[tc], p[pc]) then (tc - 1, pc - 1)
    else (tc + if Skip(p, t[tc]) < |p| - 1 - pc then |p| else Skip(p, t[tc]), |p| - 1)
  }

  /** What the loop gives within `n` turns; `None` while it runs on. */
  function RunFor(signedChar: bool, p: seq<byte>, t: seq<byte>, tc: int, pc: int, n: nat): Option<int>
    requires -1 <= pc < |p| && pc <= tc
    decreases n
  {
    if pc < 0 then Some(tc + 1)
    else if tc >= |t| then Some(-1)
    else if n == 0 then None
    else
      var (tc', pc') := Turn(signedChar, p, t, tc, pc);
      RunFor(signedChar, p, t, tc', pc', n - 1)
  }

  /** The same from the start of the scan. */
  function RunAll(signedChar: bool, p: seq<byte>, t: seq<byte>, n: nat): Option<int>
    requires |p| > 0
  {
    RunFor(signedChar, p, t, |p| - 1, |p| - 1, n)
  }

  /** The scan of `t` ends with `r`. */
  ghost predicate EndsWith(signedChar: bool, p: seq<byte>, t: seq<byte>, r: int)
    requires |p| > 0
  {
    if |t| < |p| then r == -1
    else exists n: nat :: RunAll(signedChar, p, t, n) == Some(r)
  }

  ghost predicate Ends(signedChar: bool, p: seq<byte>, t: seq<byte>)
    requires |p| > 0
  {
    exists r :: EndsWith(signedChar, p, t, r)
  }

  /** Where the characters can be compared, the loop gives what the scan gives. */
  lemma {:induction false} RunIsScan(signedChar: bool, p: seq<byte>, t: seq<byte>, tc: int, pc: int) returns (n: nat)
    requires |p| > 0 && Comparable(signedChar, p) && Matched(p, t, tc, pc)
    ensures RunFor(signedChar, p, t, tc, pc, n) == Some(Scan(p, t, tc, pc))
    decreases |t| + |p| - (tc - pc), pc + 1
  {
    if pc < 0 || tc >= |t| {
      n := 0;
    } else {
      ScanStep(p, t, tc, pc);
      var (tc', pc') := Turn(signedChar, p, t, tc, pc);
      n := RunIsScan(signedChar, p, t, tc', pc');
      n := n + 1;
    }
  }

  lemma {:induction false} RunTwice(signedChar: bool, p: seq<byte>, t: seq<byte>, tc: int, pc: int, m: nat, n: nat)
    requires -1 <= pc < |p| && pc <= tc
    requires RunFor(signedChar, p, t, tc, pc, m).Some? && RunFor(signedChar, p, t, tc, pc, n).Some?
    ensures RunFor(signedChar, p, t, tc, pc, m) == RunFor(signedChar, p, t, tc, pc, n)
    decreases m
  {
    if pc >= 0 && tc < |t| {
      var (tc', pc') := Turn(signedChar, p, t, tc, pc);
      RunTwice(signedChar, p, t, tc', pc', m - 1, n - 1);
    }
  }

  /** Then the scan ends on every text, with `Find`. */
  lemma EndsWithFind(signedChar: bool, p: seq<byte>, t: seq<byte>)
    requires |p| > 0 && Comparable(signedChar, p)
    ensures forall r :: EndsWith(signedChar, p, t, r) <==> r == Find(p, t)
  {
    if |t| >= |p| {
      var n := RunIsScan(signedChar, p, t, |p| - 1, |p| - 1);
      assert RunAll(signedChar, p, t, n) == Some(Find(p, t));
      forall r | EndsWith(signedChar, p, t, r)
        ensures r == Find(p, t)
      {
        var m: nat :| RunAll(signedChar, p, t, m) == Some(r);
        RunTwice(signedChar, p, t, |p| - 1, |p| - 1, m, n);
      }
    }
  }

  /** The scan of a pattern in itself comes back to its start at the last character that differs from itself. */
  lemma {:induction false} LoopsForEver(p: seq<byte>, h: nat, pc: nat, n: nat)
    requires h <= pc < |p| && p[h] >= 128 && forall i :: h < i < |p| ==> p[i] < 128
    ensures RunFor(true, p, p, pc, pc, n).None?
    decreases n
  {
    if n > 0 {
      if pc > h {
        LoopsForEver(p, h, pc - 1, n - 1);
      } else {
        assert LastIndex(p, p[h], |p|) == h;
        LoopsForEver(p, h, |p| - 1, n - 1);
      }
    }
  }

  lemma {:induction false} LastHigh(p: seq<byte>, n: nat) returns (h: nat)
    requires n <= |p| && exists i :: 0 <= i < n && p[i] >= 128
    ensures h < n && p[h] >= 128 && forall i :: h < i < n ==> p[i] < 128
  {
    if p[n - 1] >= 128 {
      h := n - 1;
    } else {
      h := LastHigh(p, n - 1);
    }
  }

  lemma SelfNeverEnds(p: seq<byte>)
    requires |p| > 0 && !Comparable(true, p)
    ensures !Ends(true, p, p)
  {
    var h := LastHigh(p, |p|);
    forall n: nat
      ensures RunAll(true, p, p, n).None?
    {
      LoopsForEver(p, h, |p| - 1, n);
    }
  }

  /**
   * The scan ends on every text if and only if plain characters are unsigned or the pattern has
   * none from 128 on.
   */
  lemma EndsIffComparable(signedChar: bool, p: seq<byte>)
    requires |p| > 0
    ensures (forall t: seq<byte> :: Ends(signedChar, p, t)) <==> Comparable(signedChar, p)
  {
    if Comparable(signedChar, p) {
      forall t: seq<byte>
        ensures Ends(signedChar, p, t)
      {
        EndsWithFind(signedChar, p, t);
        assert EndsWith(signedChar, p, t, Find(p, t));
      }
    } else {
      SelfNeverEnds(p);
    }
  }

  /** A one-character pattern from 128 on, searched in itself where plain characters are signed. */
  lemma HighCharacterLoops()
    ensures !Ends(true, [233], [233]) && Ends(false, [233], [233])
  {
    var p: seq<byte> := [233];
    assert p[0] >= 128;
    SelfNeverEnds(p);
    EndsIffComparable(false, p);
  }

  /** The scan ends, and finds the pattern exactly if it is there. */
  ghost predicate Answered(signedChar: bool, p: seq<byte>, t: seq<byte>)
    requires |p| > 0
  {
    exists r :: EndsWith(signedChar, p, t, r) && (r >= 0 <==> Contains(p, t))
  }

  /**
   * The whole guarantee: the scan ends on every text and finds the pattern exactly where it is
   * contained, if and only if the pattern can be compared and has no gap.
   */
  lemma AnswersIff(signedChar: bool, p: seq<byte>)
    requires |p| > 0
    ensures (forall t: seq<byte> :: Answered(signedChar, p, t)) <==> Comparable(signedChar, p) && !HasGap(p)
  {
    if !Comparable(signedChar, p) {
      SelfNeverEnds(p);
      assert !Answered(signedChar, p, p);
    } else {
      CompleteIffNoGap(p);
      forall t: seq<byte>
        ensures Answered(signedChar, p, t) <==> (Find(p, t) >= 0 <==> Contains(p, t))
      {
        EndsWithFind(signedChar, p, t);
        assert EndsWith(signedChar, p, t, Find(p, t));
      }
    }
  }

  lemma FoldComparable(signedChar: bool, nocase: bool, s: seq<byte>)
    ensures Comparable(signedChar, FoldAll(nocase, s)) <==> Comparable(signedChar, s)
    ensures FoldAll(false, s) == s
  {
    var p := FoldAll(nocase, s);
    forall i | 0 <= i < |s|
      ensures p[i] < 128 <==> s[i] < 128
    {
      FoldAt(nocase, s, i);
    }
  }

  // ---------------------------------------------------------------- the scan as code

  /** Fill the skip table; with `nocase` the upper-case form of every letter is entered as well. */
  method InitSkip(pattern: array<byte>, plen: nat, nocase: bool) returns (skiptab: array<int>)
    requires plen <= pattern.Length
    requires nocase ==> forall i :: 0 <= i < plen ==> ToLower(pattern[i]) == pattern[i]
    ensures fresh(skiptab) && skiptab.Length == 256
    ensures forall c: byte :: skiptab[c] == Skip(pattern[..plen], Fold(nocase, c))
  {
    skiptab := new int[256](_ => plen);
    ghost var p := pattern[..plen];
    for i := 0 to plen
      invariant forall c: byte :: skiptab[c] == plen - 1 - LastIndex(p, Fold(nocase, c), i)
    {
      var tchar := pattern[i];
      skiptab[tchar] := plen - 1 - i;
      if nocase && 97 <= tchar <= 122 {
        skiptab[tchar - 97 + 65] := plen - 1 - i;
      }
    }
  }

  /**
   * The inline scan of one string of length `tlen`, for patterns it ends on.  (With `nocase` the
   * others would be folded through a negative index.)
   */
  method FindInString(signedChar: bool, sString: array<byte>, plen: nat, text: array<byte>, tlen: nat, nocase: bool)
    returns (found: bool, at: int)
    requires 0 < plen <= sString.Length && tlen <= text.Length && Comparable(signedChar, sString[..plen])
    ensures at == Find(FoldAll(nocase, sString[..plen]), FoldAll(nocase, text[..tlen]))
    ensures found <==> at >= 0
    ensures found ==> StandsAt(FoldAll(nocase, sString[..plen]), FoldAll(nocase, text[..tlen]), at)
    ensures !HasGap(FoldAll(nocase, sString[..plen])) ==>
      forall a :: StandsAt(FoldAll(nocase, sString[..plen]), FoldAll(nocase, text[..tlen]), a) ==> found && at <= a
  {
    var pattern := new byte[plen];
    for pc := 0 to plen
      invariant forall i :: 0 <= i < pc ==> pattern[i] == Fold(nocase, sString[i])
    {
      pattern[pc] := if nocase then ToLower(sString[pc]) else sString[pc];
    }
    var skiptab := InitSkip(pattern, plen, nocase);
    ghost var p, t := FoldAll(nocase, sString[..plen]), FoldAll(nocase, text[..tlen]);
    assert pattern[..plen] == p;
    NoneMissed(p, t);
    FoldComparable(signedChar, nocase, sString[..plen]);
    if tlen < plen {
      return false, -1;
    }
    at := ScanLoop(signedChar, pattern, plen, text, tlen, nocase, skiptab, p, t);
    found := at >= 0;
  }

  /** Comparing with a character of such a pattern is telling whether the (folded) characters are equal. */
  lemma CompareChars(signedChar: bool, c: byte, p: seq<byte>, pc: nat)
    requires Comparable(signedChar, p) && pc < |p|
    ensures c as int == CharValue(signedChar, p[pc]) <==> Fold(false, c) == p[pc]
    ensures CharValue(signedChar, Fold(true, c)) == CharValue(signedChar, p[pc]) <==> Fold(true, c) == p[pc]
  {
  }

  /** The scan itself, over a folded pattern and its skip table. */
  method ScanLoop(signedChar: bool, pattern: array<byte>, plen: nat, text: array<byte>, tlen: nat, nocase: bool,
                  skiptab: array<int>, ghost p: seq<byte>, ghost t: seq<byte>) returns (at: int)
    requires Comparable(signedChar, p)
    requires 0 < plen <= pattern.Length && plen <= tlen <= text.Length
    requires pattern[..plen] == p && FoldAll(nocase, text[..tlen]) == t
    requires skiptab.Length == 256 && forall c: byte :: skiptab[c] == Skip(p, Fold(nocase, c))
    ensures at == Find(p, t)
  {
    hide *;
    var plen1 := plen - 1;
    StartMatched(p, t);
    var pc, tc := plen1, plen1;
    while true
      invariant 0 <= pc < plen && pc <= tc < tlen && Matched(p, t, tc, pc)
      invariant Scan(p, t, tc, pc) == Find(p, t)
      decreases tlen + plen - (tc - pc), pc
    {
      ScanStep(p, t, tc, pc);
      var tchar := text[tc];
      assert t[tc] == FoldAll(nocase, text[..tlen])[tc];
      FoldAt(nocase, text[..tlen], tc);
      assert p[pc] == pattern[pc];
      CompareChars(signedChar, tchar, p, pc);
      var value := if nocase then CharValue(signedChar, Fold(true, tchar)) else tchar as int;
      if value == CharValue(signedChar, pattern[pc]) {
        pc, tc := pc - 1, tc - 1;
      } else {
        var skip := skiptab[tchar];
        tc := tc + if skip < plen1 - pc then plen else skip;
        pc := plen1;
      }
      if !(pc >= 0 && tc < tlen) {
        break;
      }
    }
    ScanEnd(p, t, tc, pc);
    at := if pc < 0 then tc + 1 else -1;
  }
}
