/**
 * The tuned Boyer-Moore scanner of archie/access/casesrch.c.
 *
 * The text is a run of NUL-terminated strings.  The specification, `Hits`, is the list of
 * leftmost occurrences, one for each string that contains the pattern.  `Searcher` is the
 * static `pat` structure; `Prep`, `CsExec` and `CiExec` are its three operations.
 */
module Scanner {
  import opened Bytes

  const MAXPAT := 256

  // ---------------------------------------------------------------- specification

  predicate CharEq(fold: bool, y: byte, p: byte) {
    if fold then ToLower(y) == ToLower(p) else y == p
  }

  /** The pattern matches the text at offset `a`. */
  predicate OccursAt(fold: bool, text: seq<byte>, pat: seq<byte>, a: int) {
    && 0 <= a <= |text| - |pat|
    && forall i :: 0 <= i < |pat| ==> CharEq(fold, text[a + i], pat[i])
  }

  /** No string ends between offsets `a` and `b`. */
  predicate SameString(text: seq<byte>, a: int, b: int) {
    forall k :: 0 <= a <= k < b && k < |text| ==> text[k] != NUL
  }

  /** `a` is the leftmost occurrence within its own string. */
  predicate IsHit(fold: bool, text: seq<byte>, pat: seq<byte>, a: int) {
    && OccursAt(fold, text, pat, a)
    && forall b :: 0 <= b < a && OccursAt(fold, text, pat, b) ==> !SameString(text, b, a)
  }

  /** All hits before offset `hi`, in order. */
  function Hits(fold: bool, text: seq<byte>, pat: seq<byte>, hi: nat): seq<int> {
    if hi == 0 then []
    else Hits(fold, text, pat, hi - 1) + if IsHit(fold, text, pat, hi - 1) then [hi - 1] else []
  }

  /** `Hits` lists exactly the hits, each once, in ascending order. */
  lemma {:induction false} HitsExact(fold: bool, text: seq<byte>, pat: seq<byte>, hi: nat)
    ensures var hs := Hits(fold, text, pat, hi);
      && (forall a :: a in hs <==> 0 <= a < hi && IsHit(fold, text, pat, a))
      && (forall i, j :: 0 <= i < j < |hs| ==> hs[i] < hs[j])
  {
    hide IsHit;
    if hi > 0 {
      HitsExact(fold, text, pat, hi - 1);
      var hs := Hits(fold, text, pat, hi - 1);
      assert forall i :: 0 <= i < |hs| ==> hs[i] in hs;
    }
  }

  /** The leftmost occurrence in the string that holds the occurrence `a`. */
  lemma {:induction false} LeftmostInString(fold: bool, text: seq<byte>, pat: seq<byte>, a: nat) returns (h: nat)
    requires OccursAt(fold, text, pat, a)
    ensures h <= a && IsHit(fold, text, pat, h) && SameString(text, h, a)
  {
    h := a;
    if b :| 0 <= b < a && OccursAt(fold, text, pat, b) && SameString(text, b, a) {
      h := LeftmostInString(fold, text, pat, b);
    }
  }

  /**
   * One hit for every string that contains the pattern and none for any other:
   * every occurrence shares its string with a hit, and no two hits share a string.
   */
  lemma OneHitPerString(fold: bool, text: seq<byte>, pat: seq<byte>)
    ensures var hs := Hits(fold, text, pat, |text|);
      && (forall a :: 0 <= a < |text| && OccursAt(fold, text, pat, a) ==>
            exists h :: h in hs && 0 <= h <= a && SameString(text, h, a))
      && (forall i, j :: 0 <= i < j < |hs| ==> !SameString(text, hs[i], hs[j]))
  {
    HitsExact(fold, text, pat, |text|);
    var hs := Hits(fold, text, pat, |text|);
    forall a | 0 <= a < |text| && OccursAt(fold, text, pat, a)
      ensures exists h :: h in hs && 0 <= h <= a && SameString(text, h, a)
    {
      var h := LeftmostInString(fold, text, pat, a);
      assert h in hs;
    }
    forall i, j | 0 <= i < j < |hs|
      ensures !SameString(text, hs[i], hs[j])
    {
      assert hs[i] in hs && hs[j] in hs;
    }
  }

  // ---------------------------------------------------------------- the strings of a text

  /** The text made of strings, each with its NUL. */
  function Join(ss: seq<seq<byte>>): seq<byte> {
    if ss == [] then [] else (ss[0] + [NUL]) + Join(ss[1..])
  }

  /** The pattern stands in the string at `a`, exactly or up to the case of letters. */
  predicate Stands(fold: bool, pat: seq<byte>, s: seq<byte>, a: int) {
    && 0 <= a <= |s| - |pat|
    && if fold then SameLetters(s[a..a + |pat|], pat) else s[a..a + |pat|] == pat
  }

  /** Where the pattern first stands in a string, from `a` on; -1 if nowhere. */
  function FirstIn(fold: bool, pat: seq<byte>, s: seq<byte>, a: nat): (r: int)
    requires a <= |s| + 1
    ensures r == -1 || (a <= r && Stands(fold, pat, s, r))
    ensures forall b :: a <= b && (r == -1 || b < r) ==> !Stands(fold, pat, s, b)
    decreases |s| + 1 - a
  {
    if a > |s| then -1 else if Stands(fold, pat, s, a) then a else FirstIn(fold, pat, s, a + 1)
  }

  /** For each string that holds the pattern where it first stands, counted from the start of the text. */
  function FirstInEach(fold: bool, pat: seq<byte>, ss: seq<seq<byte>>, base: nat): seq<int> {
    if ss == [] then []
    else
      var r := FirstIn(fold, pat, ss[0], 0);
      (if r >= 0 then [base + r] else []) + FirstInEach(fold, pat, ss[1..], base + |ss[0]| + 1)
  }

  /** A string of the text: from `base` to its NUL. */
  predicate StringAt(text: seq<byte>, base: nat, s: seq<byte>) {
    && base + |s| < |text| && text[base..base + |s|] == s && text[base + |s|] == NUL
    && NUL !in s && (base == 0 || text[base - 1] == NUL)
  }

  /** Without a NUL in it the pattern occurs in the text exactly where it stands in the string. */
  lemma OccursInString(fold: bool, text: seq<byte>, pat: seq<byte>, base: nat, s: seq<byte>, a: int)
    requires StringAt(text, base, s) && 0 <= a <= |s| && |pat| > 0 && NUL !in pat
    ensures OccursAt(fold, text, pat, base + a) <==> Stands(fold, pat, s, a)
  {
    if a + |pat| <= |s| {
      assert forall j :: 0 <= j < |s| ==> s[j] == text[base..base + |s|][j] == text[base + j];
      var part := s[a..a + |pat|];
      assert forall i :: 0 <= i < |pat| ==> part[i] == s[a + i];
      forall i | 0 <= i < |pat|
        ensures CharEq(fold, text[base + a + i], pat[i]) ==
          if fold then SameLetter(s[a + i], pat[i]) else s[a + i] == pat[i]
      {
        LowerIsSame(s[a + i], pat[i]);
      }
    } else {
      var i := |s| - a;
      assert pat[i] in pat;
      assert !CharEq(fold, text[(base + a) + i], pat[i]);
    }
  }

  lemma WithinString(text: seq<byte>, base: nat, s: seq<byte>, b: nat, a: nat)
    requires StringAt(text, base, s) && b < a <= base + |s| && base <= a
    ensures SameString(text, b, a) <==> base <= b
  {
    if base <= b {
      forall k | b <= k < a && k < |text|
        ensures text[k] != NUL
      {
        assert text[k] == text[base..base + |s|][k - base] == s[k - base];
      }
    } else {
      assert text[base - 1] == NUL;
    }
  }

  /** The hits of a text in one of its strings. */
  lemma HitInString(fold: bool, text: seq<byte>, pat: seq<byte>, base: nat, s: seq<byte>, a: nat)
    requires StringAt(text, base, s) && base <= a <= base + |s| && |pat| > 0 && NUL !in pat
    ensures IsHit(fold, text, pat, a) <==> a - base == FirstIn(fold, pat, s, 0)
  {
    OccursInString(fold, text, pat, base, s, a - base);
    forall b: nat | b < a
      ensures SameString(text, b, a) <==> base <= b
      ensures base <= b ==> (OccursAt(fold, text, pat, b) <==> Stands(fold, pat, s, b - base))
    {
      WithinString(text, base, s, b, a);
      if base <= b {
        OccursInString(fold, text, pat, base, s, b - base);
      }
    }
    hide OccursAt, SameString, StringAt;
    var r := FirstIn(fold, pat, s, 0);
    if r >= 0 && r < a - base {
      assert OccursAt(fold, text, pat, base + r) && SameString(text, base + r, a);
    }
  }

  lemma OneHit(fold: bool, text: seq<byte>, pat: seq<byte>, a: nat)
    requires IsHit(fold, text, pat, a)
    ensures Hits(fold, text, pat, a + 1) == Hits(fold, text, pat, a) + [a]
  {
    hide IsHit;
  }

  lemma HitsOfString(fold: bool, text: seq<byte>, pat: seq<byte>, base: nat, s: seq<byte>)
    requires StringAt(text, base, s) && |pat| > 0 && NUL !in pat
    ensures var r := FirstIn(fold, pat, s, 0);
      Hits(fold, text, pat, base + |s| + 1) == Hits(fold, text, pat, base) + if r >= 0 then [base + r] else []
  {
    hide IsHit, FirstIn, Hits, StringAt;
    var r := FirstIn(fold, pat, s, 0);
    var end := base + |s| + 1;
    forall a: nat | base <= a < end
      ensures IsHit(fold, text, pat, a) <==> a - base == r
    {
      HitInString(fold, text, pat, base, s, a);
    }
    if r >= 0 {
      HitsSkip(fold, text, pat, base, base + r);
      OneHit(fold, text, pat, base + r);
      HitsSkip(fold, text, pat, base + r + 1, end);
    } else {
      HitsSkip(fold, text, pat, base, end);
    }
  }

  /**
   * What the scans report, for a text made of strings: for each string that holds the pattern the
   * place where it first stands, and nothing else.
   */
  lemma HitsOfStrings(fold: bool, pat: seq<byte>, ss: seq<seq<byte>>)
    requires |pat| > 0 && NUL !in pat && forall k :: 0 <= k < |ss| ==> NUL !in ss[k]
    ensures Hits(fold, Join(ss), pat, |Join(ss)|) == FirstInEach(fold, pat, ss, 0)
  {
    assert [] + Join(ss) == Join(ss);
    HitsOfRest(fold, pat, [], ss);
  }

  lemma {:induction false} HitsOfRest(fold: bool, pat: seq<byte>, before: seq<byte>, ss: seq<seq<byte>>)
    requires |pat| > 0 && NUL !in pat && forall k :: 0 <= k < |ss| ==> NUL !in ss[k]
    requires before == [] || before[|before| - 1] == NUL
    ensures var text := before + Join(ss);
      Hits(fold, text, pat, |text|) == Hits(fold, text, pat, |before|) + FirstInEach(fold, pat, ss, |before|)
    decreases |ss|
  {
    hide Hits, FirstIn, FirstInEach, StringAt, Join;
    if ss == [] {
      EachNone(fold, pat, |before|);
      assert before + Join(ss) == before;
    } else {
      var s, rest := ss[0], ss[1..];
      var next := before + (s + [NUL]);
      EachBegins(fold, pat, ss, |before|);
      Assoc(before, s + [NUL], Join(rest));
      var text := next + Join(rest);
      assert text == before + Join(ss);
      StringBehind(before, s, Join(rest));
      HitsOfString(fold, text, pat, |before|, s);
      HitsOfRest(fold, pat, next, rest);
      var r := FirstIn(fold, pat, s, 0);
      var one := if r >= 0 then [|before| + r] else [];
      var more := FirstInEach(fold, pat, rest, |next|);
      assert Hits(fold, text, pat, |text|) == (Hits(fold, text, pat, |before|) + one) + more;
    }
  }

  lemma EachNone(fold: bool, pat: seq<byte>, base: nat)
    requires |pat| > 0
    ensures FirstInEach(fold, pat, [], base) == [] && Join([]) == []
  {
  }

  lemma EachBegins(fold: bool, pat: seq<byte>, ss: seq<seq<byte>>, base: nat)
    requires |pat| > 0 && ss != []
    ensures Join(ss) == (ss[0] + [NUL]) + Join(ss[1..])
    ensures var r := FirstIn(fold, pat, ss[0], 0);
      FirstInEach(fold, pat, ss, base) ==
      (if r >= 0 then [base + r] else []) + FirstInEach(fold, pat, ss[1..], base + |ss[0]| + 1)
  {
    hide FirstIn;
  }

  lemma StringBehind(before: seq<byte>, s: seq<byte>, rest: seq<byte>)
    requires NUL !in s && (before == [] || before[|before| - 1] == NUL)
    ensures StringAt((before + (s + [NUL])) + rest, |before|, s)
  {
    var text := (before + (s + [NUL])) + rest;
    assert text[|before|..|before| + |s|] == s;
  }

  lemma {:induction false} HitsSkip(fold: bool, text: seq<byte>, pat: seq<byte>, lo: nat, hi: nat)
    requires lo <= hi
    requires forall a :: lo <= a < hi ==> !IsHit(fold, text, pat, a)
    ensures Hits(fold, text, pat, hi) == Hits(fold, text, pat, lo)
    decreases hi
  {
    if lo < hi {
      HitsSkip(fold, text, pat, lo, hi - 1);
    }
  }

  lemma {:induction false} HitsPrefix(fold: bool, text: seq<byte>, pat: seq<byte>, lo: nat, hi: nat)
    requires lo <= hi
    ensures Hits(fold, text, pat, lo) <= Hits(fold, text, pat, hi)
    decreases hi
  {
    if lo < hi {
      HitsPrefix(fold, text, pat, lo, hi - 1);
    }
  }

  // ---------------------------------------------------------------- the tables

  /** The last index not beyond `r` whose pattern character equals `c`; -1 if there is none. */
  function LastMatch(fold: bool, pat: seq<byte>, r: int, c: byte): (i: int)
    requires -1 <= r < |pat|
    ensures -1 <= i <= r
    ensures i >= 0 ==> CharEq(fold, c, pat[i])
    ensures forall j :: i < j <= r ==> !CharEq(fold, c, pat[j])
    decreases r + 1
  {
    if r < 0 || CharEq(fold, c, pat[r]) then r else LastMatch(fold, pat, r - 1, c)
  }

  /** A skip is an unsigned char: the full-width skip of a 256-character pattern wraps round to 0. */
  function Skip(fold: bool, pat: seq<byte>, r: int, i: int, c: byte): byte
    requires -1 <= i < |pat|
  {
    (r - LastMatch(fold, pat, i, c)) % 256
  }

  /** The skip table for loop index `r`. */
  function SkipTable(fold: bool, pat: seq<byte>, r: int): seq<byte>
    requires 0 <= r < |pat|
  {
    seq(256, c requires 0 <= c < 256 => Skip(fold, pat, r, r, c))
  }

  /** The distance from the loop character to its nearest recurrence on the left. */
  function SecondShiftFor(fold: bool, pat: seq<byte>, r: int): int
    requires 0 <= r < |pat|
  {
    r - LastMatch(fold, pat, r - 1, pat[r])
  }

  /** The exact contents of the tables for loop index `r`. */
  predicate Tables(fold: bool, pat: seq<byte>, r: int, delta: seq<byte>, md2: int) {
    && 0 <= r < |pat| <= MAXPAT
    && delta == SkipTable(fold, pat, r)
    && md2 == SecondShiftFor(fold, pat, r)
  }

  /** A skip from cursor `s` passes no occurrence. */
  lemma SkipIsSafe(fold: bool, text: seq<byte>, pat: seq<byte>, r: int, delta: seq<byte>, md2: int, s: nat, a: int)
    requires Tables(fold, pat, r, delta, md2)
    requires s < |text|
    requires s - r <= a && OccursAt(fold, text, pat, a)
    ensures s - r + delta[text[s]] <= a
  {
    if a <= s {
      var i := s - a;
      assert CharEq(fold, text[a + i], pat[i]);
    }
  }

  /** After a mismatch the second shift passes no occurrence either. */
  lemma Md2IsSafe(fold: bool, text: seq<byte>, pat: seq<byte>, r: int, delta: seq<byte>, md2: int, s: nat, a: int)
    requires Tables(fold, pat, r, delta, md2)
    requires s < |text| && delta[text[s]] == 0
    requires s - r < a && OccursAt(fold, text, pat, a)
    ensures s - r + md2 <= a
  {
    if a <= s {
      var i := s - a;
      assert CharEq(fold, text[a + i], pat[i]);
      // text[s] matches pat[i], so some pattern character up to r matches it and the
      // skip of 0 is not a wrapped one: text[s] is the loop character.
      assert LastMatch(fold, pat, r, text[s]) == r;
      assert CharEq(fold, pat[i], pat[r]);
    }
  }

  /** An occurrence never reaches over a NUL. */
  lemma OccursWithinString(fold: bool, text: seq<byte>, pat: seq<byte>, a: int)
    requires OccursAt(fold, text, pat, a)
    requires forall i :: 0 <= i < |pat| ==> pat[i] != NUL
    ensures SameString(text, a, a + |pat|)
  {
    forall k | a <= k < a + |pat|
      ensures text[k] != NUL
    {
      assert CharEq(fold, text[a + (k - a)], pat[k - a]);
    }
  }

  // ---------------------------------------------------------------- the cursor

  /**
   * The scanner's invariant at cursor `s`: the hits found are all those whose alignment lies
   * before `s - r`, and the string of every earlier occurrence has ended before the cursor.
   */
  ghost predicate Clear(fold: bool, t: seq<byte>, pat: seq<byte>, r: int, s: int, found: seq<int>) {
    && s >= r
    && found == Hits(fold, t, pat, s - r)
    && forall b :: 0 <= b < s - r && OccursAt(fold, t, pat, b) ==> !SameString(t, b, s)
  }

  lemma StartClear(fold: bool, t: seq<byte>, pat: seq<byte>, r: int)
    ensures Clear(fold, t, pat, r, r, [])
  {
  }

  lemma Advance(fold: bool, t: seq<byte>, pat: seq<byte>, r: int, s: int, d: nat, found: seq<int>)
    requires Clear(fold, t, pat, r, s, found)
    requires forall a :: s - r <= a < s - r + d ==> !OccursAt(fold, t, pat, a)
    ensures Clear(fold, t, pat, r, s + d, found)
  {
    HitsSkip(fold, t, pat, s - r, s + d - r);
    forall b | 0 <= b < s + d - r && OccursAt(fold, t, pat, b)
      ensures !SameString(t, b, s + d)
    {
      assert !SameString(t, b, s);
    }
  }

  lemma HopClear(fold: bool, t: seq<byte>, pat: seq<byte>, r: int, delta: seq<byte>, md2: int, s: nat, found: seq<int>)
    requires Tables(fold, pat, r, delta, md2)
    requires s < |t| && Clear(fold, t, pat, r, s, found)
    ensures Clear(fold, t, pat, r, s + delta[t[s]], found)
    ensures delta[t[s]] <= r + 1
  {
    forall a | s - r <= a && OccursAt(fold, t, pat, a)
      ensures s - r + delta[t[s]] <= a
    {
      SkipIsSafe(fold, t, pat, r, delta, md2, s, a);
    }
    Advance(fold, t, pat, r, s, delta[t[s]], found);
  }

  lemma MismatchClear(fold: bool, t: seq<byte>, pat: seq<byte>, r: int, delta: seq<byte>, md2: int, s: nat,
                      found: seq<int>)
    requires Tables(fold, pat, r, delta, md2)
    requires s < |t| && Clear(fold, t, pat, r, s, found)
    requires delta[t[s]] == 0 && !OccursAt(fold, t, pat, s - r)
    ensures 1 <= md2 <= r + 1
    ensures Clear(fold, t, pat, r, s + md2, found)
  {
    forall a | s - r <= a && OccursAt(fold, t, pat, a)
      ensures s - r + md2 <= a
    {
      Md2IsSafe(fold, t, pat, r, delta, md2, s, a);
    }
    Advance(fold, t, pat, r, s, md2, found);
  }

  lemma MatchIsHit(fold: bool, t: seq<byte>, pat: seq<byte>, r: int, s: nat, found: seq<int>)
    requires 0 <= r < |pat| && s < |t| && Clear(fold, t, pat, r, s, found)
    requires OccursAt(fold, t, pat, s - r)
    requires forall i :: 0 <= i < |pat| ==> pat[i] != NUL
    ensures found + [s - r] == Hits(fold, t, pat, s - r + 1)
  {
    OccursWithinString(fold, t, pat, s - r);
    forall b | 0 <= b < s - r && OccursAt(fold, t, pat, b)
      ensures !SameString(t, b, s - r)
    {
      assert !SameString(t, b, s);
      var k :| b <= k < s && t[k] == NUL;
      assert k < s - r;
    }
  }

  lemma RestartClear(fold: bool, t: seq<byte>, pat: seq<byte>, r: int, s: nat, j: nat, found: seq<int>)
    requires 0 <= r < |pat| && s < |t| && Clear(fold, t, pat, r, s, found)
    requires OccursAt(fold, t, pat, s - r)
    requires forall i :: 0 <= i < |pat| ==> pat[i] != NUL
    requires s <= j < |t| && t[j] == NUL && SameString(t, s, j)
    ensures Clear(fold, t, pat, r, j + 1, found + [s - r])
  {
    hide OccursAt, IsHit, SameString;
    MatchIsHit(fold, t, pat, r, s, found);
    NoMoreHits(fold, t, pat, r, s, j);
    HitsSkip(fold, t, pat, s - r + 1, j + 1 - r);
    forall b | 0 <= b < j + 1 - r && OccursAt(fold, t, pat, b)
      ensures !SameString(t, b, j + 1)
    {
      NulBetween(t, b, j);
    }
  }

  lemma NulBetween(t: seq<byte>, b: int, j: nat)
    requires 0 <= b <= j < |t| && t[j] == NUL
    ensures !SameString(t, b, j + 1)
  {
    assert b <= j < j + 1 && t[j] == NUL;
  }

  /** The rest of the string in which the pattern was found has no further hit. */
  lemma NoMoreHits(fold: bool, t: seq<byte>, pat: seq<byte>, r: int, s: nat, j: nat)
    requires 0 <= r < |pat| && r <= s < |t| && OccursAt(fold, t, pat, s - r)
    requires forall i :: 0 <= i < |pat| ==> pat[i] != NUL
    requires s <= j < |t| && SameString(t, s, j)
    ensures forall a :: s - r < a < j + 1 - r ==> !IsHit(fold, t, pat, a)
  {
    OccursWithinString(fold, t, pat, s - r);
    forall a | s - r < a < j + 1 - r
      ensures !IsHit(fold, t, pat, a)
    {
      assert SameString(t, s - r, a);
    }
  }

  /** Past the end no alignment is left. */
  lemma FinishClear(fold: bool, t: seq<byte>, pat: seq<byte>, r: int, s: nat, found: seq<int>)
    requires 0 <= r < |pat| && s >= |t| && Clear(fold, t, pat, r, s, found)
    ensures found == Hits(fold, t, pat, |t|)
  {
    if s - r <= |t| {
      HitsSkip(fold, t, pat, s - r, |t|);
    } else {
      HitsSkip(fold, t, pat, |t|, s - r);
    }
  }

  // ---------------------------------------------------------------- the operations

  /** Fold the first `n` characters of a buffer to lower case, in place. */
  method Lowercase(s: array<byte>, n: nat)
    requires n <= s.Length
    modifies s
    ensures forall i :: 0 <= i < s.Length ==> s[i] == if i < n then ToLower(old(s[i])) else old(s[i])
  {
    for j := 0 to n
      invariant forall i :: 0 <= i < s.Length ==> s[i] == if i < j then ToLower(old(s[i])) else old(s[i])
    {
      s[j] := ToLower(s[j]);
    }
  }

  /** Fold the first `n` characters of a buffer to upper case, in place. */
  method Uppercase(s: array<byte>, n: nat)
    requires n <= s.Length
    modifies s
    ensures forall i :: 0 <= i < s.Length ==> s[i] == if i < n then ToUpper(old(s[i])) else old(s[i])
  {
    for j := 0 to n
      invariant forall i :: 0 <= i < s.Length ==> s[i] == if i < j then ToUpper(old(s[i])) else old(s[i])
    {
      s[j] := ToUpper(s[j]);
    }
  }

  const TCMP := 0.0

  /** The character as `Prep` stores it. */
  function Stored(fold: bool, p: byte): byte { if fold then ToLower(p) else p }

  /** Entering a stored character, and its upper case when case is ignored, covers all that match it. */
  lemma LastMatchStep(fold: bool, pat: seq<byte>, i: nat, c: byte)
    requires i < |pat|
    ensures var p := Stored(fold, pat[i]);
      LastMatch(fold, pat, i, c) == if c == p || (fold && c == ToUpper(p)) then i else LastMatch(fold, pat, i - 1, c)
  {
  }

  lemma SkipStep(fold: bool, pat: seq<byte>, r: int, i: int, c: byte)
    requires 0 <= i <= r < |pat| <= MAXPAT
    ensures var p := Stored(fold, pat[i]);
      Skip(fold, pat, r, i, c) == if c == p || (fold && c == ToUpper(p)) then r - i else Skip(fold, pat, r, i - 1, c)
    ensures Skip(fold, pat, r, -1, c) == (r + 1) % 256
  {
    LastMatchStep(fold, pat, i, c);
  }

  /** The prepared pattern: the static structure `pat`. */
  class Searcher {
    var patlen: int
    const pat: array<byte>
    const upat: array<byte>
    const delta: array<byte>
    var loopoffset: int
    var rarec: byte
    var rareoff: int
    var md2: int

    /** The pattern as the caller gave it, and whether case is ignored. */
    ghost var pattern: seq<byte>
    ghost var fold: bool

    constructor ()
      ensures Buffers()
      ensures fresh(pat) && fresh(upat) && fresh(delta)
    {
      pat, upat, delta := new byte[MAXPAT], new byte[MAXPAT], new byte[256];
      patlen, loopoffset, rarec, rareoff, md2 := 0, 0, 0, 0, 0;
      pattern, fold := [], false;
    }

    ghost predicate Buffers() {
      && pat.Length == upat.Length == MAXPAT && delta.Length == 256
      && pat != upat && pat != delta && upat != delta
    }

    /** The first `patlen` bytes of the pattern buffers hold the (folded) pattern. */
    ghost predicate Holds()
      reads this, pat, upat
    {
      && Buffers()
      && 1 <= patlen == |pattern| <= MAXPAT
      && (forall i :: 0 <= i < patlen ==> pat[i] == Stored(fold, pattern[i]))
      && (fold ==> forall i :: 0 <= i < patlen ==> upat[i] == ToUpper(pattern[i]))
    }

    ghost predicate Prepared()
      reads this, pat, upat, delta
    {
      && Holds()
      && Tables(fold, pattern, patlen - 1 - loopoffset, delta[..], md2)
      && 0 <= rareoff < patlen && rarec == pat[rareoff]
    }

    /** The index of the character tested by the skip loop: the one of least expected cost. */
    method LoopIndex(freq: seq<int>, sd: array<real>) returns (r: int)
      requires Holds()
      requires |freq| == 256 && sd.Length >= patlen
      requires forall j :: 0 <= j < patlen ==> sd[j] != 0.0
      ensures 0 <= r < patlen
    {
      var tmax := 2.0 + TCMP;
      r := 0;
      for pb := 0 to patlen
        invariant 0 <= r < patlen
      {
        var fr := (1.0 + TCMP * freq[pat[pb]] as real) / sd[pb];
        if tmax > fr {
          tmax := fr;
          r := pb;
        }
      }
    }

    /** The skip distances for loop index `r`; later pattern characters overwrite earlier ones. */
    method FillDelta(r: int, ignoreCase: bool)
      requires Holds() && fold == ignoreCase && 0 <= r < patlen
      modifies delta
      ensures delta[..] == SkipTable(fold, pattern, r)
    {
      hide Skip;
      forall c: byte
        ensures Skip(fold, pattern, r, -1, c) == (r + 1) % 256
      {
        SkipStep(fold, pattern, r, 0, c);
      }
      for j := 0 to 256
        invariant forall c: byte :: c < j ==> delta[c] == (r + 1) % 256
      {
        delta[j] := (r + 1) % 256;
      }
      for pb := 0 to r + 1
        invariant forall c: byte :: delta[c] == Skip(fold, pattern, r, pb - 1, c)
      {
        var p := pat[pb];
        delta[p] := r - pb;
        if ignoreCase {
          delta[ToUpper(p)] := r - pb;
        }
        forall c: byte
          ensures delta[c] == Skip(fold, pattern, r, pb, c)
        {
          SkipStep(fold, pattern, r, pb, c);
        }
      }
    }

    /** The distance from the loop character to its nearest recurrence on the left. */
    method SecondShift(r: int, ignoreCase: bool) returns (d: int)
      requires Holds() && fold == ignoreCase && 0 <= r < patlen
      ensures d == SecondShiftFor(fold, pattern, r)
    {
      var pmd2 := r - 1;
      while pmd2 >= 0
        invariant -1 <= pmd2 < r
        invariant LastMatch(fold, pattern, pmd2, pattern[r]) == LastMatch(fold, pattern, r - 1, pattern[r])
      {
        if pat[pmd2] == pat[r] || (ignoreCase && pat[pmd2] == upat[r]) {
          break;
        }
        pmd2 := pmd2 - 1;
      }
      d := r - pmd2;
    }

    /** Copy the pattern in; when case is ignored keep a lower-case and an upper-case copy. */
    method StorePattern(base: array<byte>, m: int, ignoreCase: bool)
      requires Buffers()
      requires base != pat && base != upat && base != delta
      requires 1 <= m <= base.Length && m <= MAXPAT
      modifies this, pat, upat
      ensures Holds() && pattern == old(base[..m]) && fold == ignoreCase
    {
      patlen := m;
      fold := ignoreCase;
      pattern := base[..m];
      forall i | 0 <= i < m {
        pat[i] := base[i];
      }
      if ignoreCase {
        forall i | 0 <= i < m {
          upat[i] := pat[i];
        }
        Lowercase(pat, m);
        Uppercase(upat, m);
      }
    }

    /** Replace the run of zero costs that ends at `m`. */
    static method PatchCosts(sd: array<real>, m: int)
      requires 0 <= m < sd.Length && sd[0] != 0.0
      requires forall i, j :: 0 <= i < j < sd.Length && sd[i] == 0.0 ==> sd[j] == 0.0
      modifies sd
      ensures forall i :: 0 <= i <= m ==> sd[i] != 0.0
    {
      if sd[m] == 0.0 {
        var j := m;
        while sd[j] == 0.0
          invariant 0 <= j <= m
          invariant forall i :: j < i <= m ==> sd[i] == 12.0
          invariant forall i :: 0 <= i <= j ==> sd[i] == old(sd[i])
          decreases j
        {
          sd[j] := 12.0;
          j := j - 1;
        }
      }
    }

    /** The offset of the rarest pattern character: the guard. */
    method RarestOffset(freq: seq<int>) returns (rrr: int)
      requires Holds() && |freq| == 256
      ensures 0 <= rrr < patlen
      ensures forall i :: 0 <= i < patlen ==> freq[pat[rrr]] <= freq[pat[i]]
    {
      rrr := 0;
      for rr := 1 to patlen
        invariant 0 <= rrr < patlen
        invariant forall i :: 0 <= i < rr ==> freq[pat[rrr]] <= freq[pat[i]]
      {
        if freq[pat[rr]] < freq[pat[rrr]] {
          rrr := rr;
        }
      }
    }

    /** Choose the loop and guard characters and compute the skips for them. */
    method FillTables(freq: seq<int>, sd: array<real>, ignoreCase: bool)
      requires Holds() && fold == ignoreCase
      requires |freq| == 256 && sd.Length >= patlen
      requires forall j :: 0 <= j < patlen ==> sd[j] != 0.0
      modifies delta, `loopoffset, `rarec, `rareoff, `md2
      ensures Prepared()
    {
      hide SkipTable, SecondShiftFor;
      var r := LoopIndex(freq, sd);
      var rrr := RarestOffset(freq);
      var shift := SecondShift(r, ignoreCase);
      FillDelta(r, ignoreCase);
      loopoffset, rarec, rareoff, md2 := patlen - 1 - r, pat[rrr], rrr, shift;
    }

    /**
     * Prepare a pattern.  `freq` and `sd` are the character-frequency and cost tables; they
     * choose the loop and guard characters, and nothing below depends on the choice.  `past`
     * says that the cost table is read past its end: only patterns beyond MAXPAT are refused.
     */
    method Prep(base: array<byte>, m: int, ignoreCase: bool, freq: seq<int>, sd: array<real>)
      returns (ok: int, past: bool)
      requires Buffers()
      requires base != pat && base != upat && base != delta
      requires 1 <= m <= base.Length
      requires |freq| == 256 && sd.Length > 0 && sd[0] != 0.0
      requires forall i, j :: 0 <= i < j < sd.Length && sd[i] == 0.0 ==> sd[j] == 0.0
      modifies this, pat, upat, delta, sd
      ensures past <==> sd.Length <= m <= 256
      ensures !past ==> ok == if m > 256 then 0 else 1
      ensures !past && ok == 1 ==> Prepared() && pattern == old(base[..m]) && fold == ignoreCase
    {
      past := false;
      if m > MAXPAT {
        patlen := m;
        return 0, false;
      }
      StorePattern(base, m, ignoreCase);
      if m >= sd.Length {
        return 0, true;
      }
      PatchCosts(sd, m);
      FillTables(freq, sd, ignoreCase);
      ok := 1;
    }

    /** The text, the hit list and the tables occupy different storage. */
    ghost predicate Apart(base: array<byte>, hitList: array<int>) {
      && base != pat && base != upat && base != delta
      && hitList as object !in {base, pat, upat, delta}
    }

    /**
     * The scan reports the first `max(1, maxHits)` hits of text `t`: they are in place of the
     * beginning of the list as it was before.
     */
    ghost predicate Reported(t: seq<byte>, before: seq<int>, after: seq<int>, maxHits: int, nmatch: int)
      reads this
    {
      var all := Hits(fold, t, pattern, |t|);
      && nmatch == Min(|all|, Max(1, maxHits)) && nmatch <= |before|
      && after == all[..nmatch] + before[nmatch..]
    }

    /**
     * For a text made of strings, what is reported is where the pattern first stands in each of
     * the first `maxHits` strings that hold it; one string is reported even if none is asked for.
     */
    lemma ReportedStrings(ss: seq<seq<byte>>, before: seq<int>, after: seq<int>, maxHits: int, nmatch: int)
      requires |pattern| > 0 && NUL !in pattern && forall k :: 0 <= k < |ss| ==> NUL !in ss[k]
      requires Reported(Join(ss), before, after, maxHits, nmatch)
      ensures var all, limit := FirstInEach(fold, pattern, ss, 0), if maxHits > 1 then maxHits else 1;
        && nmatch == (if |all| <= limit then |all| else limit)
        && |after| == |before| && after[..nmatch] == all[..nmatch] && after[nmatch..] == before[nmatch..]
    {
      HitsOfStrings(fold, pattern, ss);
    }

    /** The hits found so far stand at the beginning of the list. */
    static ghost predicate Listed(found: seq<int>, before: seq<int>, after: seq<int>) {
      |found| <= |before| && after == found + before[|found|..]
    }

    static lemma NoneListed(before: seq<int>)
      ensures Listed([], before, before)
    {
    }

    static lemma OneMore(found: seq<int>, before: seq<int>, after: seq<int>, a: int)
      requires Listed(found, before, after) && |found| < |before|
      ensures |after| == |before| && Listed(found + [a], before, after[|found| := a])
    {
    }

    /** What is listed are all the hits, or as many of them as are wanted. */
    lemma ListedIsReported(t: seq<byte>, found: seq<int>, before: seq<int>, after: seq<int>, maxHits: int)
      requires Listed(found, before, after) && found <= Hits(fold, t, pattern, |t|)
      requires |found| == Max(1, maxHits) || (|found| < Max(1, maxHits) && found == Hits(fold, t, pattern, |t|))
      ensures Reported(t, before, after, maxHits, |found|)
    {
      hide Hits;
      var all := Hits(fold, t, pattern, |t|);
      assert all[..|found|] == found;
    }

    /** The text is in place with the sentinel written past its end. */
    ghost predicate Ready(base: array<byte>, n: nat, t: seq<byte>)
      reads this, pat, upat, delta, base
    {
      && Prepared()
      && (forall i :: 0 <= i < patlen ==> pattern[i] != NUL)
      && n + patlen <= base.Length && |t| == n
      && (n > 0 ==> t[n - 1] == NUL)
      && base[..n] == t
      && forall i :: n <= i < n + patlen ==> base[i] == pat[patlen - 1 - loopoffset]
    }

    /** Write the sentinel: the loop character, `patlen` times, past the end of the text. */
    method WriteSentinel(base: array<byte>, n: nat)
      requires Prepared()
      requires base != pat && base != upat && base != delta
      requires forall i :: 0 <= i < patlen ==> pattern[i] != NUL
      requires n + patlen <= base.Length
      requires n > 0 ==> base[n - 1] == NUL
      modifies base
      ensures Ready(base, n, old(base[..n]))
      ensures base[..n] == old(base[..n]) && base[n + patlen..] == old(base[n + patlen..])
    {
      var c := pat[patlen - 1 - loopoffset];
      forall i | n <= i < n + patlen {
        base[i] := c;
      }
    }

    lemma OnSentinel(base: array<byte>, n: nat, t: seq<byte>, s: int)
      requires Ready(base, n, t) && n <= s < n + patlen
      ensures delta[base[s]] == 0
    {
      var r := patlen - 1 - loopoffset;
      assert LastMatch(fold, pattern, r, pat[r]) == r;
      assert delta[..][pat[r]] == 0;
    }

    /** One hop of the skip loop; it stays put once it stands on the sentinel. */
    method Hop(base: array<byte>, n: nat, ghost t: seq<byte>, s: int, k: int, ghost found: seq<int>)
      returns (s': int, k': int)
      requires Ready(base, n, t)
      requires patlen - 1 - loopoffset <= s < n + patlen && k == delta[base[s]]
      requires Clear(fold, t, pattern, patlen - 1 - loopoffset, s, found)
      ensures s' == s + k && s' < n + patlen && k' == delta[base[s']]
      ensures Clear(fold, t, pattern, patlen - 1 - loopoffset, s', found)
    {
      hide Clear, LastMatch, Hits, OccursAt;
      ghost var r := patlen - 1 - loopoffset;
      if s < n {
        assert base[s] == t[s];
        HopClear(fold, t, pattern, r, delta[..], md2, s, found);
      } else {
        OnSentinel(base, n, t, s);
      }
      s' := s + k;
      k' := delta[base[s']];
    }

    /** The skip loop, unrolled three times: run until the skip is 0. */
    method SkipLoop(base: array<byte>, n: nat, ghost t: seq<byte>, s0: int, ghost found: seq<int>) returns (s: int)
      requires Ready(base, n, t)
      requires patlen - 1 - loopoffset <= s0 < n
      requires Clear(fold, t, pattern, patlen - 1 - loopoffset, s0, found)
      ensures s0 <= s < n + patlen && delta[base[s]] == 0
      ensures Clear(fold, t, pattern, patlen - 1 - loopoffset, s, found)
    {
      hide Clear, Ready;
      ReadyBounds(base, n, t);
      s := s0;
      var k: int := delta[base[s]];
      while k != 0
        invariant s0 <= s < n + patlen && k == delta[base[s]]
        invariant Clear(fold, t, pattern, patlen - 1 - loopoffset, s, found)
        decreases n + patlen - s
      {
        s, k := Hop(base, n, t, s, k, found);
        s, k := Hop(base, n, t, s, k, found);
        s, k := Hop(base, n, t, s, k, found);
      }
    }

    /** After a hit at `s - r`, move to the character after the NUL that ends its string. */
    method NextString(base: array<byte>, n: nat, ghost t: seq<byte>, s0: int, ghost found: seq<int>) returns (s: int)
      requires Ready(base, n, t)
      requires patlen - 1 - loopoffset <= s0 < n
      requires Clear(fold, t, pattern, patlen - 1 - loopoffset, s0, found)
      requires OccursAt(fold, t, pattern, s0 - (patlen - 1 - loopoffset))
      ensures s0 < s <= n
      ensures Clear(fold, t, pattern, patlen - 1 - loopoffset, s, found + [s0 - (patlen - 1 - loopoffset)])
    {
      hide Clear, OccursAt, SkipTable, SecondShiftFor;
      s := s0;
      assert forall i :: 0 <= i < n ==> base[i] == t[i];
      while base[s] != NUL
        invariant s0 <= s < n && SameString(t, s0, s)
        decreases n - s
      {
        s := s + 1;
      }
      RestartClear(fold, t, pattern, patlen - 1 - loopoffset, s0, s, found);
      s := s + 1;
    }

    /** Comparing a whole alignment that starts inside the text decides whether the pattern occurs there. */
    lemma Aligned(base: array<byte>, n: nat, t: seq<byte>, q: int)
      requires Ready(base, n, t) && 0 <= q < n
      ensures OccursAt(fold, t, pattern, q) <==>
        forall i :: 0 <= i < patlen ==> CharEq(fold, base[q + i], pattern[i])
    {
      if q + patlen > n {
        // the alignment covers the final NUL, which matches no pattern character
        assert !CharEq(fold, base[q + (n - 1 - q)], pattern[n - 1 - q]);
      } else {
        forall i | 0 <= i < patlen
          ensures CharEq(fold, base[q + i], pattern[i]) == CharEq(fold, t[q + i], pattern[i])
        {
        }
      }
    }

    /** A guard character that differs rules the alignment out. */
    lemma GuardRejects(base: array<byte>, n: nat, t: seq<byte>, q: int)
      requires Ready(base, n, t) && 0 <= q < n
      requires base[q + rareoff] != rarec && (fold ==> base[q + rareoff] != ToUpper(rarec))
      ensures !OccursAt(fold, t, pattern, q)
    {
      assert !CharEq(fold, base[q + rareoff], pattern[rareoff]);
      Aligned(base, n, t, q);
    }

    lemma ReadyBounds(base: array<byte>, n: nat, t: seq<byte>)
      requires Ready(base, n, t)
      ensures 0 <= patlen - 1 - loopoffset < patlen && 0 <= rareoff < patlen && n + patlen <= base.Length
      ensures |t| == n && delta.Length == 256
      ensures |pattern| == patlen && forall i :: 0 <= i < patlen ==> pattern[i] != NUL
    {
    }

    /** Compare from the beginning of the pattern. */
    method CsMatch(base: array<byte>, n: nat, ghost t: seq<byte>, q: int) returns (same: bool)
      requires Ready(base, n, t) && !fold && 0 <= q < n
      ensures same <==> OccursAt(fold, t, pattern, q)
    {
      Aligned(base, n, t, q);
      for p := 0 to patlen
        invariant forall i :: 0 <= i < p ==> CharEq(fold, base[q + i], pattern[i])
      {
        if base[q + p] != pat[p] {
          return false;
        }
      }
      same := true;
    }

    /** Compare from the beginning of the pattern, in either case. */
    method CiMatch(base: array<byte>, n: nat, ghost t: seq<byte>, q: int) returns (same: bool)
      requires Ready(base, n, t) && fold && 0 <= q < n
      ensures same <==> OccursAt(fold, t, pattern, q)
    {
      Aligned(base, n, t, q);
      for p := 0 to patlen
        invariant forall i :: 0 <= i < p ==> CharEq(fold, base[q + i], pattern[i])
      {
        var y, z := base[q + p], upat[p];
        if y != pat[p] && y != z {
          return false;
        }
      }
      same := true;
    }

    /** After a mismatch at the loop character, the second shift. */
    method Shift(base: array<byte>, n: nat, ghost t: seq<byte>, s0: int, ghost found: seq<int>) returns (s: int)
      requires Ready(base, n, t)
      requires patlen - 1 - loopoffset <= s0 < n && delta[base[s0]] == 0
      requires Clear(fold, t, pattern, patlen - 1 - loopoffset, s0, found)
      requires !OccursAt(fold, t, pattern, s0 - (patlen - 1 - loopoffset))
      ensures s > s0
      ensures Clear(fold, t, pattern, patlen - 1 - loopoffset, s, found)
    {
      hide Clear, OccursAt, SkipTable, SecondShiftFor;
      assert base[s0] == t[s0];
      MismatchClear(fold, t, pattern, patlen - 1 - loopoffset, delta[..], md2, s0, found);
      s := s0 + md2;
    }

    /** Store one hit. */
    static method Record(hitList: array<int>, nmatch: int, a: int)
      requires 0 <= nmatch < hitList.Length
      modifies hitList
      ensures hitList[..] == old(hitList[..])[nmatch := a]
    {
      hitList[nmatch] := a;
    }

    /** From cursor `s0`, the scan up to the next match, or past the end. */
    method CsNext(base: array<byte>, n: nat, ghost t: seq<byte>, s0: int, ghost found: seq<int>) returns (s: int)
      requires Ready(base, n, t) && !fold
      requires s0 >= patlen - 1 - loopoffset
      requires Clear(fold, t, pattern, patlen - 1 - loopoffset, s0, found)
      ensures s >= s0 && Clear(fold, t, pattern, patlen - 1 - loopoffset, s, found)
      ensures s < n ==> OccursAt(fold, t, pattern, s - (patlen - 1 - loopoffset))
    {
      hide *;
      ReadyBounds(base, n, t);
      var r := patlen - 1 - loopoffset;
      var ro, rc := rareoff - r, rarec;
      s := s0;
      while s < n
        invariant s >= s0 && Clear(fold, t, pattern, r, s, found)
        decreases n - s
      {
        s := SkipLoop(base, n, t, s, found);
        if s >= n {
          return;
        }
        var mismatch := base[s + ro] != rc;
        if mismatch {
          GuardRejects(base, n, t, s - r);
        } else {
          var same := CsMatch(base, n, t, s - r);
          mismatch := !same;
        }
        if !mismatch {
          return;
        }
        s := Shift(base, n, t, s, found);
      }
    }

    /** Case-sensitive search of the `n` bytes of text at `base`. */
    method CsExec(base: array<byte>, n: nat, hitList: array<int>, maxHits: int) returns (nmatch: int)
      requires Prepared() && !fold
      requires Apart(base, hitList)
      requires forall i :: 0 <= i < patlen ==> pattern[i] != NUL
      requires n + patlen <= base.Length
      requires n > 0 ==> base[n - 1] == NUL
      requires Max(1, maxHits) <= hitList.Length
      modifies base, hitList
      ensures Reported(old(base[..n]), old(hitList[..]), hitList[..], maxHits, nmatch)
      ensures base[..n] == old(base[..n]) && base[n + patlen..] == old(base[n + patlen..])
    {
      hide Clear, OccursAt, Hits, Tables;
      ghost var t := base[..n];
      WriteSentinel(base, n);
      ghost var all := base[..];
      assert base[..n] == all[..n] && base[n + patlen..] == all[n + patlen..];
      nmatch := CsScan(base, n, t, hitList, maxHits);
      assert base[..] == all;
      assert base[..n] == all[..n] && base[n + patlen..] == all[n + patlen..];
    }

    /** The scan of a text with its sentinel: record the first of its hits. */
    method CsScan(base: array<byte>, n: nat, ghost t: seq<byte>, hitList: array<int>, maxHits: int)
      returns (nmatch: int)
      requires Ready(base, n, t) && !fold && Apart(base, hitList) && Max(1, maxHits) <= hitList.Length
      modifies hitList
      ensures Reported(t, old(hitList[..]), hitList[..], maxHits, nmatch)
    {
      hide Clear, OccursAt, Hits, Listed, Reported, Ready;
      ReadyBounds(base, n, t);
      nmatch := 0;
      ghost var found: seq<int>, before := [], hitList[..];
      NoneListed(before);
      var r := patlen - 1 - loopoffset;
      var s := r;
      StartClear(fold, t, pattern, r);
      while s < n
        invariant r <= s && 0 <= nmatch == |found| < Max(1, maxHits) && Ready(base, n, t)
        invariant Clear(fold, t, pattern, r, s, found) && Listed(found, before, hitList[..])
        invariant |before| == hitList.Length
        decreases n - s
      {
        s := CsNext(base, n, t, s, found);
        if s >= n {
          break;
        }
        MatchIsHit(fold, t, pattern, r, s, found);
        ghost var a := s - r;
        OneMore(found, before, hitList[..], a);
        Record(hitList, nmatch, s - r);
        nmatch := nmatch + 1;
        if nmatch >= maxHits {
          HitsPrefix(fold, t, pattern, a + 1, n);
          ListedIsReported(t, found + [a], before, hitList[..], maxHits);
          return;
        }
        s := NextString(base, n, t, s, found);
        found := found + [a];
      }
      FinishClear(fold, t, pattern, r, s, found);
      ListedIsReported(t, found, before, hitList[..], maxHits);
    }

    /** From cursor `s0`, the case-insensitive scan up to the next match, or past the end. */
    method CiNext(base: array<byte>, n: nat, ghost t: seq<byte>, s0: int, ghost found: seq<int>) returns (s: int)
      requires Ready(base, n, t) && fold
      requires s0 >= patlen - 1 - loopoffset
      requires Clear(fold, t, pattern, patlen - 1 - loopoffset, s0, found)
      ensures s >= s0 && Clear(fold, t, pattern, patlen - 1 - loopoffset, s, found)
      ensures s < n ==> OccursAt(fold, t, pattern, s - (patlen - 1 - loopoffset))
    {
      hide *;
      ReadyBounds(base, n, t);
      var r := patlen - 1 - loopoffset;
      var ro, rc := rareoff - r, rarec;
      var urc := ToUpper(rc);
      s := s0;
      while s < n
        invariant s >= s0 && Clear(fold, t, pattern, r, s, found)
        decreases n - s
      {
        s := SkipLoop(base, n, t, s, found);
        if s >= n {
          return;
        }
        var mismatch := base[s + ro] != rc && base[s + ro] != urc;
        if mismatch {
          GuardRejects(base, n, t, s - r);
        } else {
          var same := CiMatch(base, n, t, s - r);
          mismatch := !same;
        }
        if !mismatch {
          return;
        }
        s := Shift(base, n, t, s, found);
      }
    }

    /** Case-insensitive search of the `n` bytes of text at `base`. */
    method CiExec(base: array<byte>, n: nat, hitList: array<int>, maxHits: int) returns (nmatch: int)
      requires Prepared() && fold
      requires Apart(base, hitList)
      requires forall i :: 0 <= i < patlen ==> pattern[i] != NUL
      requires n + patlen <= base.Length
      requires n > 0 ==> base[n - 1] == NUL
      requires Max(1, maxHits) <= hitList.Length
      modifies base, hitList
      ensures Reported(old(base[..n]), old(hitList[..]), hitList[..], maxHits, nmatch)
      ensures base[..n] == old(base[..n]) && base[n + patlen..] == old(base[n + patlen..])
    {
      hide Clear, OccursAt, Hits, Tables;
      ghost var t := base[..n];
      WriteSentinel(base, n);
      ghost var all := base[..];
      assert base[..n] == all[..n] && base[n + patlen..] == all[n + patlen..];
      nmatch := CiScan(base, n, t, hitList, maxHits);
      assert base[..] == all;
      assert base[..n] == all[..n] && base[n + patlen..] == all[n + patlen..];
    }

    /** The scan of a text with its sentinel: record the first of its hits. */
    method CiScan(base: array<byte>, n: nat, ghost t: seq<byte>, hitList: array<int>, maxHits: int)
      returns (nmatch: int)
      requires Ready(base, n, t) && fold && Apart(base, hitList) && Max(1, maxHits) <= hitList.Length
      modifies hitList
      ensures Reported(t, old(hitList[..]), hitList[..], maxHits, nmatch)
    {
      hide Clear, OccursAt, Hits, Listed, Reported, Ready;
      ReadyBounds(base, n, t);
      nmatch := 0;
      ghost var found: seq<int>, before := [], hitList[..];
      NoneListed(before);
      var r := patlen - 1 - loopoffset;
      var s := r;
      StartClear(fold, t, pattern, r);
      while s < n
        invariant r <= s && 0 <= nmatch == |found| < Max(1, maxHits) && Ready(base, n, t)
        invariant Clear(fold, t, pattern, r, s, found) && Listed(found, before, hitList[..])
        invariant |before| == hitList.Length
        decreases n - s
      {
        s := CiNext(base, n, t, s, found);
        if s >= n {
          break;
        }
        MatchIsHit(fold, t, pattern, r, s, found);
        ghost var a := s - r;
        OneMore(found, before, hitList[..], a);
        Record(hitList, nmatch, s - r);
        nmatch := nmatch + 1;
        if nmatch >= maxHits {
          HitsPrefix(fold, t, pattern, a + 1, n);
          ListedIsReported(t, found + [a], before, hitList[..], maxHits);
          return;
        }
        s := NextString(base, n, t, s, found);
        found := found + [a];
      }
      FinishClear(fold, t, pattern, r, s, found);
      ListedIsReported(t, found, before, hitList[..], maxHits);
    }
  }
}
