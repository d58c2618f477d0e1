/**
 * Command tables: the byte format of archie/less/cmd.h, and its decoder, `cmd_search` and
 * `cmd_decode` of archie/less/decode.c.
 *
 * A table is a list of records packed into bytes.  The decoder never sees the records: it walks
 * the bytes and the typed command in lockstep.  `Lookup` is what it should answer.
 */
module KeyTable {
  import opened Bytes
  import opened Wrappers

  const A_EXTRA: byte := 128
  const A_PREFIX: byte := 22
  const A_INVALID: byte := 100

  // ---------------------------------------------------------------- records and what they mean

  datatype Record = Record(cmd: seq<byte>, action: byte, extra: Option<seq<byte>>)

  datatype Answer = Invalid | Prefix | Found(action: byte, extra: Option<seq<byte>>)

  /** The first record that begins with the typed command decides. */
  function Lookup(recs: seq<Record>, typed: seq<byte>): Answer {
    if recs == [] then Invalid
    else if typed == recs[0].cmd then Found(recs[0].action, recs[0].extra)
    else if typed <= recs[0].cmd then Prefix
    else Lookup(recs[1..], typed)
  }

  lemma {:induction false} FirstDecides(recs: seq<Record>, typed: seq<byte>, k: nat)
    requires k < |recs| && typed <= recs[k].cmd
    requires forall j :: 0 <= j < k ==> !(typed <= recs[j].cmd)
    ensures Lookup(recs, typed) == if typed == recs[k].cmd then Found(recs[k].action, recs[k].extra) else Prefix
    decreases k
  {
    if k > 0 {
      assert !(typed <= recs[0].cmd);
      FirstDecides(recs[1..], typed, k - 1);
    }
  }

  lemma {:induction false} NoneDecides(recs: seq<Record>, typed: seq<byte>)
    ensures Lookup(recs, typed) == Invalid <==> forall j :: 0 <= j < |recs| ==> !(typed <= recs[j].cmd)
  {
    if recs != [] {
      NoneDecides(recs[1..], typed);
      assert forall j :: 0 <= j < |recs[1..]| ==> recs[1..][j] == recs[j + 1];
      if Lookup(recs, typed) == Invalid {
        forall j | 0 <= j < |recs| ensures !(typed <= recs[j].cmd) {
          if j > 0 { assert recs[j] == recs[1..][j - 1]; }
        }
      }
    }
  }

  // ---------------------------------------------------------------- the bytes

  function Encode(r: Record): seq<byte>
    requires r.action < A_EXTRA
  {
    r.cmd + ([NUL] + (if r.extra.None? then [r.action] else [A_EXTRA + r.action] + (r.extra.value + [NUL])))
  }

  /** A NUL behind the command, the action, and behind an action plus 128 the extra string and its NUL. */
  lemma EncodeIs(r: Record)
    requires r.action < 128
    ensures r.extra.None? ==> Encode(r) == r.cmd + [0, r.action]
    ensures r.extra.Some? ==> Encode(r) == r.cmd + [0, 128 + r.action] + r.extra.value + [0]
  {
  }

  /** Actions that fit the byte, and extra strings that are C strings. */
  predicate Packable(r: Record) {
    r.action < A_EXTRA && (r.extra.Some? ==> NUL !in r.extra.value)
  }

  /** The format also wants the command to be a C string. */
  predicate Clean(r: Record) { Packable(r) && NUL !in r.cmd }

  predicate AllClean(recs: seq<Record>) { forall k :: 0 <= k < |recs| ==> Clean(recs[k]) }

  predicate ActionsFit(recs: seq<Record>) { forall k :: 0 <= k < |recs| ==> recs[k].action < A_EXTRA }

  function EncodeAll(recs: seq<Record>): seq<byte>
    requires ActionsFit(recs)
  {
    if recs == [] then [] else Encode(recs[0]) + EncodeAll(recs[1..])
  }

  // ---------------------------------------------------------------- reading the bytes

  /** The C string at the start of `t` and the bytes behind its NUL; `None` when there is no NUL. */
  function CString(t: seq<byte>): Option<(seq<byte>, seq<byte>)> {
    if t == [] then None
    else if t[0] == NUL then Some(([], t[1..]))
    else
      match CString(t[1..])
      case None => None
      case Some((s, rest)) => Some(([t[0]] + s, rest))
  }

  lemma {:induction false} CStringReads(s: seq<byte>, rest: seq<byte>)
    requires NUL !in s
    ensures CString(s + ([NUL] + rest)) == Some((s, rest))
  {
    if s == [] {
      assert s + ([NUL] + rest) == [NUL] + rest;
    } else {
      assert (s + ([NUL] + rest))[1..] == s[1..] + ([NUL] + rest);
      CStringReads(s[1..], rest);
      assert s == [s[0]] + s[1..];
    }
  }

  lemma {:induction false} CStringShrinks(t: seq<byte>)
    requires CString(t).Some?
    ensures NUL !in CString(t).value.0
    ensures t == CString(t).value.0 + ([NUL] + CString(t).value.1)
  {
    if t[0] != NUL {
      CStringShrinks(t[1..]);
    }
  }

  /** The byte of the typed command at `q`, whose end is a NUL. */
  function At(typed: seq<byte>, q: nat): byte { if q < |typed| then typed[q] else NUL }

  /**
   * Go from inside a command string to the next record.  `None` here and below means that the
   * walk has run off the end of the table.
   */
  function NextRecord(t: seq<byte>): (r: Option<seq<byte>>)
    ensures r.Some? ==> |r.value| < |t|
  {
    match CString(t)
    case None => None
    case Some((_, u)) =>
      assert |u| < |t| by { CStringShrinks(t); }
      if u == [] then None
      else if u[0] < A_EXTRA then Some(u[1..])
      else
        match CString(u[1..])
        case None => None
        case Some((_, v)) =>
          assert |v| < |u| by { CStringShrinks(u[1..]); }
          Some(v)
  }

  /** The action, and the extra string where the action byte announces one. */
  function ReadAction(t: seq<byte>): Option<Answer> {
    if t == [] then None
    else if t[0] < A_EXTRA then Some(Found(t[0], None))
    else
      match CString(t[1..])
      case None => None
      case Some((s, _)) => Some(Found(t[0] - A_EXTRA, Some(s)))
  }

  /** Walk the table from `t` with the typed command at `q`. */
  function Search(t: seq<byte>, typed: seq<byte>, q: nat): Option<Answer>
    requires NUL !in typed && q <= |typed|
    decreases |t|
  {
    if t == [] then Some(Invalid)
    else if t[0] == At(typed, q) then
      if t[0] == NUL then ReadAction(t[1..]) else Search(t[1..], typed, q + 1)
    else if q == |typed| then Some(Prefix)
    else
      match NextRecord(t)
      case None => None
      case Some(u) => Search(u, typed, 0)
  }

  // ---------------------------------------------------------------- the bytes of a clean record

  /** What is packed behind the command string. */
  function Packed(r: Record): seq<byte>
    requires Packable(r)
  {
    if r.extra.None? then [r.action] else [A_EXTRA + r.action] + (r.extra.value + [NUL])
  }

  lemma EncodeBegins(r: Record, x: seq<byte>, q: nat)
    requires Packable(r) && q <= |r.cmd|
    ensures (Encode(r) + x)[q..] == r.cmd[q..] + ([NUL] + (Packed(r) + x))
  {
  }

  lemma ReadPacked(r: Record, x: seq<byte>)
    requires Packable(r)
    ensures ReadAction(Packed(r) + x) == Some(Found(r.action, r.extra))
  {
    var t := Packed(r) + x;
    if r.extra.Some? {
      assert t[1..] == r.extra.value + ([NUL] + x);
      CStringReads(r.extra.value, x);
    }
  }

  lemma SkipPacked(r: Record, s: seq<byte>, x: seq<byte>)
    requires Packable(r) && NUL !in s
    ensures NextRecord(s + ([NUL] + (Packed(r) + x))) == Some(x)
  {
    var u := Packed(r) + x;
    CStringReads(s, u);
    if r.extra.Some? {
      assert u[1..] == r.extra.value + ([NUL] + x);
      CStringReads(r.extra.value, x);
    } else {
      assert u[1..] == x;
    }
  }

  /** Searching from inside a record whose command agrees with the typed one so far. */
  lemma {:induction false} SearchRecord(r: Record, x: seq<byte>, typed: seq<byte>, q: nat)
    requires Clean(r) && NUL !in typed && q <= |typed| && q <= |r.cmd| && typed[..q] == r.cmd[..q]
    ensures var t := r.cmd[q..] + ([NUL] + (Packed(r) + x));
            Search(t, typed, q) ==
              (if typed == r.cmd then Some(Found(r.action, r.extra))
               else if typed <= r.cmd then Some(Prefix)
               else Search(x, typed, 0))
    decreases |r.cmd| - q
  {
    var t := r.cmd[q..] + ([NUL] + (Packed(r) + x));
    if q == |r.cmd| {
      assert t == [NUL] + (Packed(r) + x);
      assert t[1..] == Packed(r) + x;
      if q == |typed| {
        assert typed == typed[..q] && r.cmd == r.cmd[..q];
        ReadPacked(r, x);
      } else {
        SkipPacked(r, [], x);
        assert [] + ([NUL] + (Packed(r) + x)) == t;
      }
    } else {
      assert t[0] == r.cmd[q];
      if q == |typed| {
        assert typed == r.cmd[..q];
      } else if t[0] == typed[q] {
        assert t[1..] == r.cmd[q + 1..] + ([NUL] + (Packed(r) + x));
        assert typed[..q + 1] == typed[..q] + [typed[q]];
        assert r.cmd[..q + 1] == r.cmd[..q] + [r.cmd[q]];
        SearchRecord(r, x, typed, q + 1);
      } else {
        SkipPacked(r, r.cmd[q..], x);
      }
    }
  }

  /** For every table of clean records, walking the bytes finds what the records say. */
  lemma {:induction false} SearchIsLookup(recs: seq<Record>, typed: seq<byte>)
    requires AllClean(recs) && NUL !in typed
    ensures Search(EncodeAll(recs), typed, 0) == Some(Lookup(recs, typed))
  {
    if recs != [] {
      SearchIsLookup(recs[1..], typed);
      EncodeBegins(recs[0], EncodeAll(recs[1..]), 0);
      SearchRecord(recs[0], EncodeAll(recs[1..]), typed, 0);
      assert recs[0].cmd[0..] == recs[0].cmd;
      var t := Encode(recs[0]) + EncodeAll(recs[1..]);
      assert t[0..] == t;
    }
  }

  /** The built-in entry for ESC and a slash, which searches with an asterisk before what is typed. */
  lemma EscSlash(x: seq<byte>)
    ensures var table := [27, '/' as int, 0, 128 + 15, '*' as int, 0] + x;
      && Search(table, [27, '/' as int], 0) == Some(Found(15, Some(['*' as int])))
      && Search(table, [27], 0) == Some(Prefix)
      && Search(table, [], 0) == Some(Prefix)
  {
    var r := Record([27, 47], 15, Some([42]));
    assert Encode(r) == [27, 47, 0, 143, 42, 0];
    EncodeBegins(r, x, 0);
    assert (Encode(r) + x)[0..] == Encode(r) + x && r.cmd[0..] == r.cmd;
    SearchRecord(r, x, [27, 47], 0);
    SearchRecord(r, x, [27], 0);
    SearchRecord(r, x, [], 0);
  }

  // ---------------------------------------------------------------- the format

  lemma {:induction false} EncodeSplits(r: Record, x: seq<byte>, r': Record, x': seq<byte>)
    requires Clean(r) && Clean(r') && Encode(r) + x == Encode(r') + x'
    ensures r == r' && x == x'
  {
    EncodeBegins(r, x, 0);
    EncodeBegins(r', x', 0);
    assert r.cmd[0..] == r.cmd && r'.cmd[0..] == r'.cmd;
    var t := Encode(r) + x;
    assert t[0..] == t;
    CStringReads(r.cmd, Packed(r) + x);
    CStringReads(r'.cmd, Packed(r') + x');
    ReadPacked(r, x);
    ReadPacked(r', x');
    SkipPacked(r, r.cmd, x);
    SkipPacked(r', r'.cmd, x');
  }

  /** No two lists of clean records have the same bytes. */
  lemma {:induction false} EncodeInjective(recs: seq<Record>, recs': seq<Record>)
    requires AllClean(recs) && AllClean(recs') && EncodeAll(recs) == EncodeAll(recs')
    ensures recs == recs'
  {
    if recs != [] && recs' != [] {
      EncodeSplits(recs[0], EncodeAll(recs[1..]), recs'[0], EncodeAll(recs'[1..]));
      EncodeInjective(recs[1..], recs'[1..]);
      assert recs == [recs[0]] + recs[1..];
      assert recs' == [recs'[0]] + recs'[1..];
    }
  }

  /** The part of a string before its first NUL. */
  function BeforeNul(s: seq<byte>): (r: seq<byte>)
    ensures r <= s && NUL !in r
    ensures NUL in s ==> |r| < |s| && s[|r|] == NUL
  {
    if s == [] || s[0] == NUL then [] else [s[0]] + BeforeNul(s[1..])
  }

  lemma {:induction false} SearchUpTo(s: seq<byte>, x: seq<byte>, typed: seq<byte>, q: nat)
    requires NUL !in typed && q <= |typed| && s == typed[q..]
    ensures Search(s + ([NUL] + x), typed, q) == ReadAction(x)
    decreases |s|
  {
    var t := s + ([NUL] + x);
    if s == [] {
      assert t == [NUL] + x && t[1..] == x;
    } else {
      assert t[1..] == s[1..] + ([NUL] + x);
      assert s[1..] == typed[q + 1..];
      SearchUpTo(s[1..], x, typed, q + 1);
    }
  }

  lemma {:induction false} CStringExists(t: seq<byte>)
    requires NUL in t
    ensures CString(t).Some?
  {
    if t[0] != NUL {
      assert NUL in t[1..];
      CStringExists(t[1..]);
    }
  }

  /**
   * A command with a NUL in it: typing what stands before the NUL is taken for the whole command,
   * where it is only the beginning of one.
   */
  lemma NulMisread(r: Record)
    requires Packable(r) && NUL in r.cmd
    ensures var typed := BeforeNul(r.cmd);
            && Lookup([r], typed) == Prefix
            && Search(Encode(r), typed, 0).Some? && Search(Encode(r), typed, 0).value.Found?
  {
    var typed := BeforeNul(r.cmd);
    var tail := r.cmd[|typed| + 1..];
    SplitAtNul(r);
    assert typed == typed[0..];
    SearchUpTo(typed, tail + ([NUL] + Packed(r)), typed, 0);
    ActionExists(tail, Packed(r));
  }

  lemma SplitAtNul(r: Record)
    requires Packable(r) && NUL in r.cmd
    ensures var typed := BeforeNul(r.cmd);
            Encode(r) == typed + ([NUL] + (r.cmd[|typed| + 1..] + ([NUL] + Packed(r))))
  {
    var typed := BeforeNul(r.cmd);
    var tail := r.cmd[|typed| + 1..];
    assert r.cmd == typed + ([NUL] + tail);
    assert (typed + ([NUL] + tail)) + ([NUL] + Packed(r)) == typed + ([NUL] + (tail + ([NUL] + Packed(r))));
  }

  lemma ActionExists(tail: seq<byte>, rest: seq<byte>)
    requires rest != []
    ensures ReadAction(tail + ([NUL] + rest)).Some? && ReadAction(tail + ([NUL] + rest)).value.Found?
  {
    var x := tail + ([NUL] + rest);
    if tail != [] && x[0] >= A_EXTRA {
      assert x[1..] == tail[1..] + ([NUL] + rest);
      assert x[1..][|tail[1..]|] == NUL;
      CStringExists(x[1..]);
    }
  }

  /** A record is read back as it was meant, for every command typed, exactly if its command is a C string. */
  lemma ReadableIffClean(r: Record)
    requires Packable(r)
    ensures NUL !in r.cmd
       <==> forall typed: seq<byte> | NUL !in typed :: Search(Encode(r), typed, 0) == Some(Lookup([r], typed))
  {
    assert EncodeAll([r]) == Encode(r);
    if NUL in r.cmd {
      NulMisread(r);
      assert NUL !in BeforeNul(r.cmd);
    } else {
      forall typed: seq<byte> | NUL !in typed
        ensures Search(Encode(r), typed, 0) == Some(Lookup([r], typed))
      {
        SearchIsLookup([r], typed);
      }
    }
  }

  // ---------------------------------------------------------------- the decoder

  /** What the caller's pointer to the extra string is left as. */
  datatype Pointer = Untouched | Null | To(pos: nat)

  /** The number the C function returns for an answer. */
  function Code(a: Answer): byte {
    match a
    case Invalid => A_INVALID
    case Prefix => A_PREFIX
    case Found(action, _) => action
  }

  /** What the caller is left with agrees with the answer about the extra string. */
  predicate PointsTo(table: seq<byte>, sp: Pointer, a: Answer) {
    && (sp.Untouched? <==> !a.Found?)
    && (sp.Null? <==> a.Found? && a.extra.None?)
    && (sp.To? ==>
        && sp.pos <= |table|
        && CString(table[sp.pos..]).Some?
        && a.Found? && a.extra == Some(CString(table[sp.pos..]).value.0))
  }

  /** The pointer is null for no extra string, points to the C string there is, and is left alone without an action. */
  lemma PointerIs(table: seq<byte>, sp: Pointer, a: Answer)
    requires PointsTo(table, sp, a)
    ensures !a.Found? ==> sp == Untouched
    ensures a.Found? && a.extra.None? ==> sp == Null
    ensures a.Found? && a.extra.Some? ==>
      && sp.To? && sp.pos + |a.extra.value| < |table|
      && table[sp.pos..sp.pos + |a.extra.value|] == a.extra.value && table[sp.pos + |a.extra.value|] == 0
      && 0 !in a.extra.value
  {
    if sp.To? {
      CStringShrinks(table[sp.pos..]);
    }
  }

  /** Walk over the rest of a C string: the position of its NUL. */
  method ToNul(table: seq<byte>, start: nat) returns (p: nat)
    requires start <= |table| && CString(table[start..]).Some?
    ensures start <= p < |table| && table[p] == NUL
    ensures CString(table[start..]).value.1 == table[p + 1..]
  {
    p := start;
    while true
      invariant start <= p <= |table|
      invariant CString(table[p..]).Some?
      invariant CString(table[p..]).value.1 == CString(table[start..]).value.1
      decreases |table| - p
    {
      assert table[p..][0] == table[p] && table[p..][1..] == table[p + 1..];
      if table[p] == NUL { return; }
      p := p + 1;
    }
  }

  /** Leave a record that does not match: the position where the next one starts. */
  method SkipRecord(table: seq<byte>, start: nat) returns (p: nat)
    requires start < |table| && NextRecord(table[start..]).Some?
    ensures start < p <= |table|
    ensures NextRecord(table[start..]) == Some(table[p..])
  {
    p := ToNul(table, start);
    p := p + 1;
    ghost var u := table[p..];
    assert u[0] == table[p] && u[1..] == table[p + 1..];
    if table[p] >= A_EXTRA {
      p := ToNul(table, p + 1);
    }
    p := p + 1;
  }

  method CmdSearch(cmd: seq<byte>, table: seq<byte>) returns (action: byte, sp: Pointer)
    requires NUL !in cmd && Search(table, cmd, 0).Some?
    ensures var a := Search(table, cmd, 0).value;
      && action == Code(a) && PointsTo(table, sp, a)
      && (a.Found? ==> action == a.action) && (a.Prefix? ==> action == 22) && (a.Invalid? ==> action == 100)
  {
    var p, q := 0, 0;
    assert table[0..] == table;
    while p < |table|
      invariant 0 <= p <= |table| && q <= |cmd|
      invariant Search(table[p..], cmd, q) == Search(table, cmd, 0)
      decreases |table| - p
    {
      ghost var t := table[p..];
      assert t[0] == table[p] && t[1..] == table[p + 1..];
      if table[p] == At(cmd, q) {
        if table[p] == NUL {
          assert t[1..][0] == table[p + 1] && t[1..][1..] == table[p + 2..];
          action := table[p + 1];
          if action >= A_EXTRA {
            sp := To(p + 2);
            action := action - A_EXTRA;
          } else {
            sp := Null;
          }
          return;
        }
        p, q := p + 1, q + 1;
      } else if q == |cmd| {
        return A_PREFIX, Untouched;
      } else {
        p := SkipRecord(table, p);
        q := 0;
      }
    }
    return A_INVALID, Untouched;
  }

  // ---------------------------------------------------------------- a list of tables

  /** The answer of the first table that has one. */
  function Decode(tables: seq<seq<byte>>, typed: seq<byte>): Answer
    requires NUL !in typed
    requires forall t :: t in tables ==> Search(t, typed, 0).Some?
  {
    if tables == [] then Invalid
    else
      var a := Search(tables[0], typed, 0).value;
      if Code(a) != A_INVALID then a else Decode(tables[1..], typed)
  }

  /** What `add_cmdtable` asks of the bytes of a lesskey file. */
  predicate Plausible(content: seq<byte>) {
    |content| >= 3 && (content[|content| - 1] == NUL || content[|content| - 2] == NUL)
  }

  class Tables {
    var tables: seq<seq<byte>>

    constructor (builtin: seq<byte>)
      ensures tables == [builtin]
    {
      tables := [builtin];
    }

    /** Put the table of a lesskey file before the others, unless it does not look like one. */
    method AddCmdTable(content: seq<byte>) returns (ok: bool)
      modifies this
      ensures ok <==> |content| >= 3 && (content[|content| - 1] == 0 || content[|content| - 2] == 0)
      ensures tables == if ok then [content] + old(tables) else old(tables)
    {
      if |content| < 3 { return false; }
      if content[|content| - 1] != NUL && content[|content| - 2] != NUL { return false; }
      tables := [content] + tables;
      return true;
    }

    /** The action for a command, and the table and place of its extra string. */
    method CmdDecode(cmd: seq<byte>) returns (action: byte, sp: Pointer, ghost which: nat)
      requires NUL !in cmd && tables != []
      requires forall t :: t in tables ==> Search(t, cmd, 0).Some?
      ensures var a := Decode(tables, cmd);
        && action == Code(a)
        && (a.Found? ==> action == a.action) && (a.Prefix? ==> action == 22) && (a.Invalid? ==> action == 100)
      ensures action != A_INVALID ==> which < |tables| && PointsTo(tables[which], sp, Decode(tables, cmd))
    {
      var k := 0;
      action, sp, which := A_INVALID, Untouched, 0;
      assert tables[0..] == tables;
      while k < |tables|
        invariant 0 <= k <= |tables|
        invariant Decode(tables[k..], cmd) == Decode(tables, cmd)
        invariant k > 0 ==> action == A_INVALID
      {
        assert tables[k..][0] == tables[k] && tables[k..][1..] == tables[k + 1..];
        assert tables[k] in tables;
        action, sp := CmdSearch(cmd, tables[k]);
        if action != A_INVALID {
          which := k;
          return;
        }
        k := k + 1;
      }
    }
  }

  /** No record asks for the action that means there is none. */
  predicate Actions(recs: seq<Record>) { forall k :: 0 <= k < |recs| ==> recs[k].action != A_INVALID }

  /** Two tables searched in order answer like one table with all their records. */
  lemma {:induction false} LookupConcat(recs: seq<Record>, more: seq<Record>, typed: seq<byte>)
    ensures Lookup(recs + more, typed)
         == if Lookup(recs, typed) == Invalid then Lookup(more, typed) else Lookup(recs, typed)
  {
    if recs == [] {
      assert recs + more == more;
    } else {
      assert (recs + more)[1..] == recs[1..] + more;
      LookupConcat(recs[1..], more, typed);
    }
  }

  lemma {:induction false} LookupCode(recs: seq<Record>, typed: seq<byte>)
    requires Actions(recs)
    ensures Code(Lookup(recs, typed)) == A_INVALID <==> Lookup(recs, typed) == Invalid
  {
    if recs != [] { LookupCode(recs[1..], typed); }
  }

  function EncodeTables(lists: seq<seq<Record>>): seq<seq<byte>>
    requires forall l :: l in lists ==> AllClean(l)
  {
    if lists == [] then []
    else
      assert lists[0] in lists && AllClean(lists[0]);
      [EncodeAll(lists[0])] + EncodeTables(lists[1..])
  }

  function Flatten(lists: seq<seq<Record>>): seq<Record> {
    if lists == [] then [] else lists[0] + Flatten(lists[1..])
  }

  /** Decoding over the list of tables is looking up in all the records, in order. */
  lemma {:induction false} DecodeIsLookup(lists: seq<seq<Record>>, typed: seq<byte>)
    requires forall l :: l in lists ==> AllClean(l) && Actions(l)
    requires NUL !in typed
    ensures forall t :: t in EncodeTables(lists) ==> Search(t, typed, 0).Some?
    ensures Decode(EncodeTables(lists), typed) == Lookup(Flatten(lists), typed)
  {
    if lists != [] {
      DecodeIsLookup(lists[1..], typed);
      SearchIsLookup(lists[0], typed);
      LookupConcat(lists[0], Flatten(lists[1..]), typed);
      LookupCode(lists[0], typed);
      assert EncodeTables(lists)[1..] == EncodeTables(lists[1..]);
    }
  }

  /** Tables with a command in them pass the test for lesskey files. */
  lemma {:induction false} EncodedIsPlausible(recs: seq<Record>)
    requires AllClean(recs) && recs != [] && recs[0].cmd != []
    ensures Plausible(EncodeAll(recs))
  {
    EndsInRecord(recs);
  }

  lemma {:induction false} EndsInRecord(recs: seq<Record>)
    requires AllClean(recs) && recs != []
    ensures var t := EncodeAll(recs);
            |t| >= |recs[0].cmd| + 2 && (t[|t| - 1] == NUL || t[|t| - 2] == NUL)
  {
    if |recs| > 1 {
      EndsInRecord(recs[1..]);
    }
  }
}
