/**
 * What the query cache of archie/access/prarch_match.c promises: over every run of queries,
 * the answer given is the answer an uncached search would give.
 *
 * The database is fixed.  A search enumerates the files of every matching string in table
 * order and stops at a limit; each file record is then turned into a link, which can fail.
 */
module QueryCache {
  import opened Bytes
  import opened Wrappers
  import InlineScan

  // ---------------------------------------------------------------- the database

  datatype SearchSel =
    | FullRegex | Exact | SubNcase | SubCase
    | ExactOrFullRegex | ExactOrSubNcase | ExactOrSubCase
    | Unknown

  datatype FileRecord = FileRecord(site: int, recno: int)

  datatype LinkData = LinkData(name: seq<byte>, host: seq<byte>, archiedir: int)

  /** A string of the table with its file list; no list when the file index is -1. */
  datatype TableEntry = TableEntry(text: seq<byte>, files: Option<seq<FileRecord>>)

  datatype Database = Database(
    table: seq<TableEntry>,
    index: map<seq<byte>, TableEntry>,
    badRegex: seq<byte> -> bool,
    regexMatches: (seq<byte>, seq<byte>) -> bool,
    signedChar: bool,
    atoplink: (FileRecord, int) -> Option<LinkData>)

  function Files(e: TableEntry): seq<FileRecord> {
    if e.files.Some? then e.files.value else []
  }

  predicate Matches(db: Database, sel: SearchSel, arg: seq<byte>, text: seq<byte>) {
    match sel
    case SubCase => |arg| > 0 && InlineScan.Find(arg, text) >= 0
    case SubNcase => |arg| > 0 && InlineScan.Find(InlineScan.FoldAll(true, arg), InlineScan.FoldAll(true, text)) >= 0
    case _ => db.regexMatches(arg, text)
  }

  /** The files of all matching strings of the first `n` table entries. */
  function TableFiles(db: Database, sel: SearchSel, arg: seq<byte>, n: nat): seq<FileRecord>
    requires n <= |db.table|
  {
    if n == 0 then [] else
      var matched := Matches(db, sel, arg, db.table[n - 1].text);
      TableFiles(db, sel, arg, n - 1) + (if matched then Files(db.table[n - 1]) else [])
  }

  /** The method tried when the exact search does not know the string. */
  function Alternate(sel: SearchSel): SearchSel {
    match sel
    case ExactOrSubCase => SubCase
    case ExactOrSubNcase => SubNcase
    case ExactOrFullRegex => FullRegex
    case _ => Exact
  }

  predicate ExactFirst(sel: SearchSel) {
    sel in {Exact, ExactOrSubCase, ExactOrSubNcase, ExactOrFullRegex}
  }

  /** The search method an uncached search ends up with. */
  function Resolve(db: Database, sel: SearchSel, arg: seq<byte>): SearchSel {
    if ExactFirst(sel) && sel != Exact && arg !in db.index then Alternate(sel) else sel
  }

  /** The complete answer, in order. */
  function Full(db: Database, sel: SearchSel, arg: seq<byte>): seq<FileRecord> {
    var s := Resolve(db, sel, arg);
    if ExactFirst(s) then (if arg in db.index then Files(db.index[arg]) else [])
    else TableFiles(db, s, arg, |db.table|)
  }

  // ---------------------------------------------------------------- queries

  /** `queue` is the length of the server's request queue when the query is answered. */
  datatype Query = Query(arg: seq<byte>, maxHits: int, offset: int, sel: SearchSel, archiedir: int, queue: int)

  datatype Answer = BadArgument | BadRegex | Links(links: seq<LinkData>)

  const META: set<byte> := {92, 94, 36, 46, 44, 91, 93, 60, 62, 42, 43, 63, 124, 40, 41, 123, 125, 47}

  predicate HasMeta(arg: seq<byte>) { exists i :: 0 <= i < |arg| && arg[i] in META }

  /** A regular expression without a special character is searched for as a substring. */
  function Cheapest(sel: SearchSel, arg: seq<byte>): SearchSel {
    if sel == FullRegex && !HasMeta(arg) then SubCase
    else if sel == ExactOrFullRegex && !HasMeta(arg) then ExactOrSubCase
    else sel
  }

  function Slice<T>(s: seq<T>, offset: nat, n: nat): seq<T> {
    if offset >= |s| then [] else s[offset..Min(offset + n, |s|)]
  }

  /** Turn records into links, leaving out those that have none. */
  function Convert(db: Database, rs: seq<FileRecord>, archiedir: int): seq<LinkData> {
    if rs == [] then []
    else
      var l := db.atoplink(rs[0], archiedir);
      (if l.Some? then [l.value] else []) + Convert(db, rs[1..], archiedir)
  }

  /** The outcome of a search that is not answered from the cache; `None` is no error. */
  function Error(db: Database, sel: SearchSel, arg: seq<byte>): Option<Answer> {
    if sel == Unknown then Some(BadArgument)
    else if Resolve(db, sel, arg) == FullRegex && db.badRegex(arg) then Some(BadRegex)
    else None
  }

  /** The answer of an uncached search: the specification. */
  function Uncached(db: Database, q: Query): Answer
    requires Proper(db, q)
  {
    var sel := Cheapest(q.sel, q.arg);
    if |q.arg| == 0 then BadArgument
    else if Error(db, sel, q.arg).Some? then Error(db, sel, q.arg).value
    else Links(Convert(db, Slice(Full(db, sel, q.arg), q.offset, q.maxHits), q.archiedir))
  }

  /** The scan for the argument ends on every string, if the search comes to scanning for it. */
  predicate Scannable(db: Database, sel: SearchSel, arg: seq<byte>) {
    Resolve(db, sel, arg) in {SubCase, SubNcase} ==> InlineScan.Comparable(db.signedChar, arg)
  }

  predicate Proper(db: Database, q: Query) {
    q.maxHits >= 1 && q.offset >= 0 && Scannable(db, Cheapest(q.sel, q.arg), q.arg)
  }

  // ---------------------------------------------------------------- what a search means

  /** The files of the strings that satisfy a condition, in the order of the table. */
  ghost function Gather(table: seq<TableEntry>, holds: seq<byte> -> bool): seq<FileRecord> {
    if table == [] then []
    else (if holds(table[0].text) then Files(table[0]) else []) + Gather(table[1..], holds)
  }

  /** A record is gathered exactly if it is a file of a string that satisfies the condition. */
  lemma {:induction false} GatherMembers(table: seq<TableEntry>, holds: seq<byte> -> bool, r: FileRecord)
    ensures r in Gather(table, holds) <==>
      exists k :: 0 <= k < |table| && holds(table[k].text) && table[k].files.Some? && r in table[k].files.value
  {
    if table != [] {
      GatherMembers(table[1..], holds, r);
      if k :| 0 <= k < |table| && holds(table[k].text) && table[k].files.Some? && r in table[k].files.value {
        assert k > 0 ==> table[1..][k - 1] == table[k];
      }
      if k :| 0 <= k < |table[1..]| && holds(table[1..][k].text) && table[1..][k].files.Some?
              && r in table[1..][k].files.value {
        assert table[k + 1] == table[1..][k];
      }
    }
  }

  lemma {:induction false} GatherLast(table: seq<TableEntry>, holds: seq<byte> -> bool, n: nat)
    requires n < |table|
    ensures Gather(table[..n + 1], holds) ==
      Gather(table[..n], holds) + if holds(table[n].text) then Files(table[n]) else []
  {
    var rest := if holds(table[n].text) then Files(table[n]) else [];
    if n == 0 {
      assert table[..1][1..] == [];
      assert Gather(table[..1], holds) == rest + [];
    } else {
      GatherLast(table[1..], holds, n - 1);
      assert table[..n + 1][1..] == table[1..][..n] && table[..n][1..] == table[1..][..n - 1];
    }
  }

  lemma {:induction false} TableIsGathered(db: Database, sel: SearchSel, arg: seq<byte>, n: nat)
    requires n <= |db.table|
    ensures TableFiles(db, sel, arg, n) == Gather(db.table[..n], text => Matches(db, sel, arg, text))
  {
    if n > 0 {
      TableIsGathered(db, sel, arg, n - 1);
      GatherLast(db.table, text => Matches(db, sel, arg, text), n - 1);
    }
  }

  lemma {:induction false} GatherSame(table: seq<TableEntry>, f: seq<byte> -> bool, g: seq<byte> -> bool)
    requires forall k :: 0 <= k < |table| ==> f(table[k].text) == g(table[k].text)
    ensures Gather(table, f) == Gather(table, g)
  {
    if table != [] {
      assert forall k :: 0 <= k < |table[1..]| ==> table[1..][k] == table[k + 1];
      GatherSame(table[1..], f, g);
    }
  }

  /** The answer comes from the index, or from the strings that hold the argument or match it. */
  lemma FullIs(db: Database, sel: SearchSel, arg: seq<byte>)
    requires |arg| > 0
    ensures sel in {Exact, ExactOrSubCase, ExactOrSubNcase, ExactOrFullRegex} && arg in db.index ==>
      Full(db, sel, arg) == if db.index[arg].files.Some? then db.index[arg].files.value else []
    ensures sel == Exact && arg !in db.index ==> Full(db, sel, arg) == []
    ensures sel == SubCase || (sel == ExactOrSubCase && arg !in db.index) ==>
      Full(db, sel, arg) == Gather(db.table, text => InlineScan.Find(arg, text) >= 0)
    ensures sel == SubNcase || (sel == ExactOrSubNcase && arg !in db.index) ==>
      Full(db, sel, arg) == Gather(db.table, text =>
        InlineScan.Find(InlineScan.FoldAll(true, arg), InlineScan.FoldAll(true, text)) >= 0)
    ensures sel == FullRegex || (sel == ExactOrFullRegex && arg !in db.index) ==>
      Full(db, sel, arg) == Gather(db.table, text => db.regexMatches(arg, text))
  {
    hide InlineScan.Find, InlineScan.FoldAll, Gather, TableFiles;
    var s := Resolve(db, sel, arg);
    if !ExactFirst(s) {
      TableIsGathered(db, s, arg, |db.table|);
      assert db.table[..|db.table|] == db.table;
      var matches := (text: seq<byte>) => Matches(db, s, arg, text);
      if s == SubCase {
        GatherSame(db.table, matches, text => InlineScan.Find(arg, text) >= 0);
      } else if s == SubNcase {
        GatherSame(db.table, matches, text =>
          InlineScan.Find(InlineScan.FoldAll(true, arg), InlineScan.FoldAll(true, text)) >= 0);
      } else {
        GatherSame(db.table, matches, text => db.regexMatches(arg, text));
      }
    }
  }

  /** A string of the table has a file and satisfies a condition. */
  ghost predicate FileOf(db: Database, r: FileRecord, holds: seq<byte> -> bool) {
    exists k :: 0 <= k < |db.table| && holds(db.table[k].text)
                && db.table[k].files.Some? && r in db.table[k].files.value
  }

  /**
   * What substring searches find, also after a failed exact search: only files of strings that
   * contain the argument, with or without regard to case, and all of them if it has no gap.
   */
  lemma SubstringFiles(db: Database, sel: SearchSel, arg: seq<byte>, r: FileRecord)
    requires |arg| > 0
    ensures sel == SubCase || (sel == ExactOrSubCase && arg !in db.index) ==>
      var contains := text => InlineScan.Contains(arg, text);
      && (r in Full(db, sel, arg) ==> FileOf(db, r, contains))
      && (!InlineScan.HasGap(arg) && FileOf(db, r, contains) ==> r in Full(db, sel, arg))
    ensures sel == SubNcase || (sel == ExactOrSubNcase && arg !in db.index) ==>
      var low := InlineScan.FoldAll(true, arg);
      var contains := text => InlineScan.Contains(low, InlineScan.FoldAll(true, text));
      && (r in Full(db, sel, arg) ==> FileOf(db, r, contains))
      && (!InlineScan.HasGap(low) && FileOf(db, r, contains) ==> r in Full(db, sel, arg))
    ensures sel == FullRegex || (sel == ExactOrFullRegex && arg !in db.index) ==>
      (r in Full(db, sel, arg) <==> FileOf(db, r, text => db.regexMatches(arg, text)))
  {
    hide Full, Gather, InlineScan.HasGap, InlineScan.FoldAll;
    var low := InlineScan.FoldAll(true, arg);
    FullIs(db, sel, arg);
    GatherMembers(db.table, text => InlineScan.Find(arg, text) >= 0, r);
    GatherMembers(db.table, text => InlineScan.Find(low, InlineScan.FoldAll(true, text)) >= 0, r);
    GatherMembers(db.table, text => db.regexMatches(arg, text), r);
    InlineScan.CompleteIffNoGap(arg);
    InlineScan.CompleteIffNoGap(low);
  }

  /** The characters that make an argument a regular expression. */
  const SPECIALS: string := "\\^$.,[]<>*+?|(){}/"

  /** A regular expression is searched for as a substring exactly if none of them stands in it. */
  lemma CheapestIs(sel: SearchSel, arg: seq<byte>)
    ensures var special := exists i, j :: 0 <= i < |arg| && 0 <= j < |SPECIALS| && arg[i] as int == SPECIALS[j] as int;
      && Cheapest(FullRegex, arg) == (if special then FullRegex else SubCase)
      && Cheapest(ExactOrFullRegex, arg) == (if special then ExactOrFullRegex else ExactOrSubCase)
      && (sel != FullRegex && sel != ExactOrFullRegex ==> Cheapest(sel, arg) == sel)
  {
    if HasMeta(arg) {
      var i :| 0 <= i < |arg| && arg[i] in META;
      var j := MetaAt(arg[i]);
    }
    forall i, j | 0 <= i < |arg| && 0 <= j < |SPECIALS| && arg[i] as int == SPECIALS[j] as int
      ensures HasMeta(arg)
    {
      assert arg[i] in META;
    }
  }

  lemma MetaAt(c: byte) returns (j: nat)
    requires c in META
    ensures j < |SPECIALS| && c as int == SPECIALS[j] as int
  {
    var codes := [92, 94, 36, 46, 44, 91, 93, 60, 62, 42, 43, 63, 124, 40, 41, 123, 125, 47];
    assert |SPECIALS| == |codes| && forall k :: 0 <= k < |codes| ==> SPECIALS[k] as int == codes[k];
    assert c as int in codes;
    j :| 0 <= j < |codes| && codes[j] == c as int;
  }

  // ---------------------------------------------------------------- the cache as a value

  const MATCH_CACHE_SIZE := 15

  /**
   * One cached result.  The first `cut` links are `matches`, the others `more`.  A negative
   * `maxHits` records that the search found everything there is after the offset.
   */
  datatype Cached = Cached(arg: seq<byte>, maxHits: int, offset: int, searchType: SearchSel, reqType: SearchSel,
                           archiedir: int, links: seq<LinkData>, cut: nat)

  predicate Hit(e: Cached, arg: seq<byte>, maxHits: int, offset: int, qtype: SearchSel, archiedir: int) {
    && (qtype == e.searchType || qtype == e.reqType)
    && e.offset == offset
    && (e.maxHits < 0 || maxHits <= e.maxHits)
    && e.arg == arg
    && e.archiedir == archiedir
  }

  /** The index of the first entry that answers the query, or the length of the cache. */
  function FirstHit(c: seq<Cached>, arg: seq<byte>, maxHits: int, offset: int, qtype: SearchSel, archiedir: int)
    : (i: nat)
    ensures i <= |c|
    ensures i < |c| ==> Hit(c[i], arg, maxHits, offset, qtype, archiedir)
    ensures forall j :: 0 <= j < i ==> !Hit(c[j], arg, maxHits, offset, qtype, archiedir)
  {
    if c == [] || Hit(c[0], arg, maxHits, offset, qtype, archiedir) then 0
    else 1 + FirstHit(c[1..], arg, maxHits, offset, qtype, archiedir)
  }

  /** Where the links are cut when `n` of them are asked for. */
  function CutFor(n: int, total: nat, cut: nat): nat {
    if cut == 0 then 0 else if n <= 0 then total else Min(n, total)
  }

  function Recut(e: Cached, n: int): Cached { e.(cut := CutFor(n, |e.links|, e.cut)) }

  /** Entry `i`, re-cut for `n` links, moves to the front. */
  function Touch(c: seq<Cached>, i: nat, n: int): seq<Cached>
    requires i < |c|
  {
    [Recut(c[i], n)] + c[..i] + c[i + 1..]
  }

  /** A new entry goes to the front; a full cache loses its last entry. */
  function Add(c: seq<Cached>, e: Cached): seq<Cached> {
    if |c| < MATCH_CACHE_SIZE then [e] + c else [e] + c[..|c| - 1]
  }

  function NewEntry(db: Database, q: Query): Cached
    requires Proper(db, q)
  {
    var sel := Cheapest(q.sel, q.arg);
    var full := Full(db, sel, q.arg);
    var links := Convert(db, Slice(full, q.offset, q.maxHits), q.archiedir);
    Cached(q.arg, if |full| >= q.maxHits + q.offset then q.maxHits else -q.maxHits, q.offset,
           Resolve(db, sel, q.arg), sel, q.archiedir, links, |links|)
  }

  /** One query against the cache. */
  function Step(db: Database, c: seq<Cached>, q: Query): (seq<Cached>, Answer)
    requires Proper(db, q)
  {
    var sel := Cheapest(q.sel, q.arg);
    if |q.arg| == 0 then (c, BadArgument)
    else
      var i := FirstHit(c, q.arg, q.maxHits, q.offset, sel, q.archiedir);
      if i < |c| then
        var c' := Touch(c, i, q.maxHits);
        (c', Links(c'[0].links[..Min(c'[0].cut, |c'[0].links|)]))
      else if Error(db, sel, q.arg).Some? then (c, Error(db, sel, q.arg).value)
      else
        var e := NewEntry(db, q);
        (if e.searchType == Exact && q.queue > MATCH_CACHE_SIZE - 5 then c else Add(c, e), Links(e.links))
  }

  /** The answers to a run of queries. */
  function Run(db: Database, c: seq<Cached>, qs: seq<Query>): seq<Answer>
    requires forall q :: q in qs ==> Proper(db, q)
    decreases |qs|
  {
    if qs == [] then []
    else
      var (c', a) := Step(db, c, qs[0]);
      [a] + Run(db, c', qs[1..])
  }

  function RunUncached(db: Database, qs: seq<Query>): seq<Answer>
    requires forall q :: q in qs ==> Proper(db, q)
  {
    if qs == [] then [] else [Uncached(db, qs[0])] + RunUncached(db, qs[1..])
  }

  // ---------------------------------------------------------------- what a query gets

  lemma {:induction false} AllLinked(db: Database, rs: seq<FileRecord>, archiedir: int)
    requires forall r :: r in rs ==> db.atoplink(r, archiedir).Some?
    ensures var links := Convert(db, rs, archiedir);
      |links| == |rs| && forall i :: 0 <= i < |rs| ==> links[i] == db.atoplink(rs[i], archiedir).value
  {
    if rs != [] {
      AllLinked(db, rs[1..], archiedir);
      assert forall i :: 0 <= i < |rs[1..]| ==> rs[1..][i] == rs[i + 1];
    }
  }

  /** No argument or no known method is an error, and so is an expression that cannot be compiled. */
  lemma ErrorsAre(db: Database, q: Query)
    requires Proper(db, q)
    ensures |q.arg| == 0 || q.sel == Unknown ==> Uncached(db, q) == BadArgument
    ensures |q.arg| > 0 && q.sel != Unknown ==>
      var compiled := q.sel == FullRegex || (q.sel == ExactOrFullRegex && q.arg !in db.index);
      && (Uncached(db, q) == BadRegex || Uncached(db, q).Links?)
      && (Uncached(db, q) == BadRegex <==> compiled && HasMeta(q.arg) && db.badRegex(q.arg))
  {
  }

  /** The links are those of the records asked for: `maxHits` of them from `offset` on, as far as there are so many. */
  lemma LinksAre(db: Database, q: Query)
    requires Proper(db, q) && Uncached(db, q).Links?
    requires forall r: FileRecord :: db.atoplink(r, q.archiedir).Some?
    ensures var full, links := Full(db, Cheapest(q.sel, q.arg), q.arg), Uncached(db, q).links;
      && |links| == Max(0, Min(q.maxHits, |full| - q.offset))
      && forall i :: 0 <= i < |links| ==> links[i] == db.atoplink(full[q.offset + i], q.archiedir).value
  {
    AllLinked(db, Slice(Full(db, Cheapest(q.sel, q.arg), q.arg), q.offset, q.maxHits), q.archiedir);
  }

  /**
   * The cache holds at most fifteen entries, the most recently used first.  An exact search of a
   * busy server, with more than ten requests waiting, is not cached.
   */
  lemma RecencyOrder(db: Database, c: seq<Cached>, q: Query)
    requires Proper(db, q) && |q.arg| > 0
    ensures var sel, c' := Cheapest(q.sel, q.arg), Step(db, c, q).0;
      var i := FirstHit(c, q.arg, q.maxHits, q.offset, sel, q.archiedir);
      && (i < |c| ==> c'[0] == Recut(c[i], q.maxHits) && c'[1..] == c[..i] + c[i + 1..])
      && (i == |c| && Error(db, sel, q.arg).None? ==>
            if Resolve(db, sel, q.arg) == Exact && q.queue > 10 then c' == c
            else c' == [NewEntry(db, q)] + c[..Min(|c|, if |c| < 15 then |c| else |c| - 1)])
      && (i == |c| && Error(db, sel, q.arg).Some? ==> c' == c)
  {
    hide *;
    StepCache(db, c, q);
    var sel := Cheapest(q.sel, q.arg);
    var i := FirstHit(c, q.arg, q.maxHits, q.offset, sel, q.archiedir);
    if i < |c| {
      TouchOrder(c, i, q.maxHits);
    } else {
      AddOrder(c, NewEntry(db, q));
    }
  }

  lemma StepCache(db: Database, c: seq<Cached>, q: Query)
    requires Proper(db, q) && |q.arg| > 0
    ensures var sel, c' := Cheapest(q.sel, q.arg), Step(db, c, q).0;
      var i := FirstHit(c, q.arg, q.maxHits, q.offset, sel, q.archiedir);
      c' == if i < |c| then Touch(c, i, q.maxHits)
            else if Error(db, sel, q.arg).Some? || (Resolve(db, sel, q.arg) == Exact && q.queue > 10) then c
            else Add(c, NewEntry(db, q))
  {
    hide Full, Convert, Slice, FirstHit, Error, Cheapest, Resolve, Recut, Touch, Add;
  }

  lemma TouchOrder(c: seq<Cached>, i: nat, n: int)
    requires i < |c|
    ensures Touch(c, i, n) != [] && Touch(c, i, n)[0] == Recut(c[i], n) && Touch(c, i, n)[1..] == c[..i] + c[i + 1..]
  {
    hide Recut;
    assert Touch(c, i, n) == [Recut(c[i], n)] + (c[..i] + c[i + 1..]);
  }

  lemma AddOrder(c: seq<Cached>, e: Cached)
    ensures Add(c, e) == [e] + c[..Min(|c|, if |c| < 15 then |c| else |c| - 1)]
  {
    assert c[..|c|] == c;
  }

  /**
   * After an answer has been cached, the same query is answered from the cache, and so is one for
   * fewer hits; if all there was to find has been found, one for more hits is too.
   */
  lemma RepeatHits(db: Database, c: seq<Cached>, q: Query, maxHits: int)
    requires Proper(db, q) && |q.arg| > 0 && Uncached(db, q).Links?
    requires var sel := Cheapest(q.sel, q.arg);
      && FirstHit(c, q.arg, q.maxHits, q.offset, sel, q.archiedir) == |c|
      && (Resolve(db, sel, q.arg) == Exact ==> q.queue <= 10)
      && (maxHits <= q.maxHits || |Full(db, sel, q.arg)| < q.maxHits + q.offset)
    ensures FirstHit(Step(db, c, q).0, q.arg, maxHits, q.offset, Cheapest(q.sel, q.arg), q.archiedir) == 0
  {
    hide Full, Convert, Slice, Resolve, Cheapest;
    RecencyOrder(db, c, q);
    var c' := Step(db, c, q).0;
    assert c'[0] == NewEntry(db, q);
  }

  /** An entry answers for the same argument, offset and kind of link, by either of its methods, if it has enough. */
  lemma HitWhen(e: Cached, arg: seq<byte>, maxHits: int, offset: int, qtype: SearchSel, archiedir: int)
    ensures Hit(e, arg, maxHits, offset, qtype, archiedir) <==>
      && (arg, offset, archiedir) == (e.arg, e.offset, e.archiedir) && qtype in {e.searchType, e.reqType}
      && (e.maxHits >= 0 ==> maxHits <= e.maxHits)
  {
  }

  // ---------------------------------------------------------------- soundness

  /**
   * Every record that has a link comes before every record that has none.  (It holds in
   * particular when every record has a link.)
   */
  predicate Orderly(db: Database, rs: seq<FileRecord>, archiedir: int) {
    forall i, j :: 0 <= i < j < |rs| && db.atoplink(rs[i], archiedir).None? ==> db.atoplink(rs[j], archiedir).None?
  }

  ghost predicate OrderlyAnswers(db: Database) {
    forall q: Query :: Proper(db, q) && Uncached(db, q).Links? ==>
      Orderly(db, Full(db, Cheapest(q.sel, q.arg), q.arg), q.archiedir)
  }

  /** The cache never outgrows its bound and every entry holds what an uncached search found. */
  ghost predicate Truthful(db: Database, e: Cached) {
    && e.maxHits != 0 && e.offset >= 0 && |e.arg| > 0
    && Cheapest(e.reqType, e.arg) == e.reqType
    && Error(db, e.reqType, e.arg).None?
    && e.searchType == Resolve(db, e.reqType, e.arg)
    && (var full, m := Full(db, e.reqType, e.arg), if e.maxHits < 0 then -e.maxHits else e.maxHits;
        && e.links == Convert(db, Slice(full, e.offset, m), e.archiedir)
        && (e.maxHits < 0 ==> |full| < m + e.offset))
    && e.cut <= |e.links| && (e.cut == 0 ==> e.links == [])
  }

  ghost predicate Sound(db: Database, c: seq<Cached>) {
    |c| <= MATCH_CACHE_SIZE && forall e :: e in c ==> Truthful(db, e)
  }

  lemma {:induction false} ConvertAppend(db: Database, a: seq<FileRecord>, b: seq<FileRecord>, archiedir: int)
    ensures Convert(db, a + b, archiedir) == Convert(db, a, archiedir) + Convert(db, b, archiedir)
  {
    if a == [] {
      assert a + b == b;
    } else {
      assert (a + b)[1..] == a[1..] + b;
      ConvertAppend(db, a[1..], b, archiedir);
    }
  }

  lemma {:induction false} ConvertSize(db: Database, rs: seq<FileRecord>, archiedir: int)
    ensures |Convert(db, rs, archiedir)| <= |rs|
    ensures (forall r :: r in rs ==> db.atoplink(r, archiedir).None?) ==> Convert(db, rs, archiedir) == []
    ensures (forall r :: r in rs ==> db.atoplink(r, archiedir).Some?) ==> |Convert(db, rs, archiedir)| == |rs|
  {
    if rs != [] {
      ConvertSize(db, rs[1..], archiedir);
    }
  }

  /** Past an unlinked record of an orderly list nothing has a link. */
  lemma RestUnlinked(db: Database, rs: seq<FileRecord>, i: nat, n: nat, archiedir: int)
    requires Orderly(db, rs, archiedir) && i < n <= |rs| && db.atoplink(rs[i], archiedir).None?
    ensures Convert(db, rs[n..], archiedir) == []
  {
    forall r | r in rs[n..]
      ensures db.atoplink(r, archiedir).None?
    {
      var j :| 0 <= j < |rs[n..]| && rs[n..][j] == r;
      assert rs[n + j] == r;
    }
    ConvertSize(db, rs[n..], archiedir);
  }

  /** Cutting the links of an orderly list at `n` is converting its first `n` records. */
  lemma CutIsPrefix(db: Database, rs: seq<FileRecord>, n: nat, archiedir: int)
    requires Orderly(db, rs, archiedir)
    ensures var links := Convert(db, rs, archiedir);
      links[..Min(n, |links|)] == Convert(db, rs[..Min(n, |rs|)], archiedir)
  {
    if n < |rs| {
      assert rs == rs[..n] + rs[n..];
      ConvertAppend(db, rs[..n], rs[n..], archiedir);
      ConvertSize(db, rs[..n], archiedir);
      if i :| 0 <= i < n && db.atoplink(rs[i], archiedir).None? {
        RestUnlinked(db, rs, i, n, archiedir);
      }
    } else {
      assert rs[..|rs|] == rs;
      ConvertSize(db, rs, archiedir);
    }
  }

  /** The double key is sound: searching by the method a search resolved to gives the same answer. */
  lemma ResolveKeepsAnswer(db: Database, sel: SearchSel, arg: seq<byte>)
    ensures var s := Resolve(db, sel, arg);
      Full(db, s, arg) == Full(db, sel, arg) && Error(db, s, arg) == Error(db, sel, arg) && Resolve(db, s, arg) == s
  {
  }

  lemma SliceOfSlice<T>(s: seq<T>, offset: nat, m: nat, n: nat)
    requires n <= m || |s| < m + offset
    ensures var rs := Slice(s, offset, m);
      rs[..Min(n, |rs|)] == Slice(s, offset, n)
  {
  }

  lemma SliceOrderly(db: Database, full: seq<FileRecord>, offset: nat, m: nat, archiedir: int)
    requires Orderly(db, full, archiedir)
    ensures Orderly(db, Slice(full, offset, m), archiedir)
  {
    var rs := Slice(full, offset, m);
    assert forall i :: 0 <= i < |rs| ==> rs[i] == full[offset + i];
  }

  /** A hit on a truthful entry returns the uncached answer. */
  lemma HitIsUncached(db: Database, e: Cached, q: Query)
    requires Truthful(db, e) && Proper(db, q) && OrderlyAnswers(db)
    requires Hit(e, q.arg, q.maxHits, q.offset, Cheapest(q.sel, q.arg), q.archiedir)
    ensures var e' := Recut(e, q.maxHits);
      Truthful(db, e') && Uncached(db, q) == Links(e'.links[..e'.cut])
  {
    var sel := Cheapest(q.sel, q.arg);
    ResolveKeepsAnswer(db, e.reqType, e.arg);
    var full, m := Full(db, e.reqType, e.arg), if e.maxHits < 0 then -e.maxHits else e.maxHits;
    assert Full(db, sel, q.arg) == full;
    assert Uncached(db, q).Links?;
    assert Orderly(db, full, q.archiedir);
    var rs := Slice(full, q.offset, m);
    SliceOrderly(db, full, q.offset, m, q.archiedir);
    CutIsPrefix(db, rs, q.maxHits, q.archiedir);
    SliceOfSlice(full, q.offset, m, q.maxHits);
  }

  /** A search leaves a truthful new entry. */
  lemma NewEntryTruthful(db: Database, q: Query)
    requires Proper(db, q) && Uncached(db, q).Links?
    ensures Truthful(db, NewEntry(db, q)) && Links(NewEntry(db, q).links) == Uncached(db, q)
  {
  }

  /** Every step keeps the cache sound and answers as an uncached search does. */
  lemma StepSound(db: Database, c: seq<Cached>, q: Query)
    requires Sound(db, c) && Proper(db, q) && OrderlyAnswers(db)
    ensures Sound(db, Step(db, c, q).0) && Step(db, c, q).1 == Uncached(db, q)
  {
    var sel := Cheapest(q.sel, q.arg);
    var i := FirstHit(c, q.arg, q.maxHits, q.offset, sel, q.archiedir);
    if |q.arg| > 0 {
      if i < |c| {
        assert c[i] in c;
        HitIsUncached(db, c[i], q);
      } else if Error(db, sel, q.arg).None? {
        NewEntryTruthful(db, q);
      }
    }
  }

  lemma {:induction false} RunSoundFrom(db: Database, c: seq<Cached>, qs: seq<Query>)
    requires Sound(db, c) && OrderlyAnswers(db)
    requires forall q :: q in qs ==> Proper(db, q)
    ensures Run(db, c, qs) == RunUncached(db, qs)
    decreases |qs|
  {
    if qs != [] {
      StepSound(db, c, qs[0]);
      RunSoundFrom(db, Step(db, c, qs[0]).0, qs[1..]);
    }
  }

  /** Two queries that betray the cache when a record without a link comes before one with a link. */
  lemma DisorderBetrays(db: Database, q: Query, i: nat, j: nat) returns (qs: seq<Query>)
    requires Proper(db, q) && Uncached(db, q).Links?
    requires var full := Full(db, Cheapest(q.sel, q.arg), q.arg);
      && i < j < |full|
      && db.atoplink(full[i], q.archiedir).None? && db.atoplink(full[j], q.archiedir).Some?
    ensures forall x :: x in qs ==> Proper(db, x)
    ensures Run(db, [], qs) != RunUncached(db, qs)
  {
    hide Uncached, Step, NewEntry, Full, Cheapest, Proper;
    var first := Widened(q, i, j);
    var second := Narrowed(q, i);
    qs := [first, second];
    WidenedStep(db, q, i, j);
    NarrowedAnswers(db, q, i, j);
    var e := NewEntry(db, first);
    assert qs[1..] == [second];
    assert Run(db, [e], [second])[0] == Step(db, [e], second).1;
    assert RunUncached(db, [second])[0] == Uncached(db, second);
    assert Run(db, [], qs)[1] != RunUncached(db, qs)[1];
  }

  /** The query for the records `i` to `j`, and the one for record `i` alone. */
  function Widened(q: Query, i: nat, j: nat): Query { q.(maxHits := j - i + 1, offset := i, queue := 0) }

  function Narrowed(q: Query, i: nat): Query { q.(maxHits := 1, offset := i, queue := 0) }

  /** The first query is cached with at least one link. */
  lemma WidenedStep(db: Database, q: Query, i: nat, j: nat)
    requires Proper(db, q) && Uncached(db, q).Links?
    requires var full := Full(db, Cheapest(q.sel, q.arg), q.arg);
      i < j < |full| && db.atoplink(full[j], q.archiedir).Some?
    ensures Proper(db, Widened(q, i, j)) && Step(db, [], Widened(q, i, j)).0 == [NewEntry(db, Widened(q, i, j))]
    ensures |NewEntry(db, Widened(q, i, j)).links| > 0
  {
    hide Full;
    var full := Full(db, Cheapest(q.sel, q.arg), q.arg);
    assert full[i..j + 1] == full[i..j] + [full[j]];
    ConvertAppend(db, full[i..j], [full[j]], q.archiedir);
  }

  /** The second query is answered from the cache with a link, where an uncached search finds none. */
  lemma NarrowedAnswers(db: Database, q: Query, i: nat, j: nat)
    requires Proper(db, q) && Uncached(db, q).Links?
    requires var full := Full(db, Cheapest(q.sel, q.arg), q.arg);
      && i < j < |full|
      && db.atoplink(full[i], q.archiedir).None? && db.atoplink(full[j], q.archiedir).Some?
    ensures var e, second := NewEntry(db, Widened(q, i, j)), Narrowed(q, i);
      Proper(db, second) && (|e.links| > 0 ==> Step(db, [e], second).1 != Uncached(db, second))
  {
    hide Full;
    var full := Full(db, Cheapest(q.sel, q.arg), q.arg);
    var e, second := NewEntry(db, Widened(q, i, j)), Narrowed(q, i);
    assert Slice(full, i, 1) == [full[i]];
    assert Convert(db, [full[i]], q.archiedir) == [];
    assert FirstHit([e], q.arg, 1, i, Cheapest(q.sel, q.arg), q.archiedir) == 0;
    assert Uncached(db, second) == Links([]);
  }

  /**
   * Every run of queries is answered as by uncached searches.  This is the case of the real
   * database, whose `atoplink` makes a link of every record.
   */
  lemma CacheSound(db: Database)
    requires forall r: FileRecord, a: int :: db.atoplink(r, a).Some?
    ensures forall qs: seq<Query> :: (forall q :: q in qs ==> Proper(db, q)) ==>
      Run(db, [], qs) == RunUncached(db, qs)
  {
    assert OrderlyAnswers(db);
    CacheSoundIffOrderly(db);
  }

  /**
   * The exact guarantee of the cache: every run of queries from an empty cache is answered as
   * by uncached searches if and only if every answer is orderly.
   */
  lemma CacheSoundIffOrderly(db: Database)
    ensures OrderlyAnswers(db) <==>
      forall qs: seq<Query> :: (forall q :: q in qs ==> Proper(db, q)) ==> Run(db, [], qs) == RunUncached(db, qs)
  {
    if OrderlyAnswers(db) {
      forall qs: seq<Query> | forall q :: q in qs ==> Proper(db, q)
        ensures Run(db, [], qs) == RunUncached(db, qs)
      {
        RunSoundFrom(db, [], qs);
      }
    } else {
      var q :| Proper(db, q) && Uncached(db, q).Links? &&
        !Orderly(db, Full(db, Cheapest(q.sel, q.arg), q.arg), q.archiedir);
      var full := Full(db, Cheapest(q.sel, q.arg), q.arg);
      var i, j :| 0 <= i < j < |full| &&
        db.atoplink(full[i], q.archiedir).None? && db.atoplink(full[j], q.archiedir).Some?;
      var qs := DisorderBetrays(db, q, i, j);
    }
  }
}
