/**
 * `prarch_match` itself (archie/access/prarch_match.c): choose the cheapest method, try the
 * cache, otherwise search up to the limit, turn the records into a list of links and cache it.
 */
module PrarchMatch {
  import opened Bytes
  import opened Wrappers
  import InlineScan
  import opened QueryCache
  import opened MatchCache

  datatype Status = Success | BadArg | BadRegularExpression

  predicate Reports(s: Status, a: Answer) {
    match a
    case BadArgument => s == BadArg
    case BadRegex => s == BadRegularExpression
    case Links(_) => s == Success
  }

  /** Whether a string of the table matches; substrings are looked for by the inline scan. */
  method MatchText(db: Database, sel: SearchSel, arg: seq<byte>, text: seq<byte>) returns (matches: bool)
    requires sel in {SubCase, SubNcase} ==> InlineScan.Comparable(db.signedChar, arg)
    ensures matches == Matches(db, sel, arg, text)
  {
    if sel != SubCase && sel != SubNcase {
      return db.regexMatches(arg, text);
    }
    if |arg| == 0 {
      return false;
    }
    var sString := new byte[|arg|](i requires 0 <= i < |arg| => arg[i]);
    var str := new byte[|text|](i requires 0 <= i < |text| => text[i]);
    assert sString[..|arg|] == arg && str[..|text|] == text;
    InlineScan.FoldComparable(db.signedChar, false, arg);
    InlineScan.FoldComparable(db.signedChar, false, text);
    var at;
    matches, at := InlineScan.FindInString(db.signedChar, sString, |arg|, str, |text|, sel == SubNcase);
  }

  /** The files of the matching strings of the table, up to a limit. */
  method SearchTable(db: Database, sel: SearchSel, arg: seq<byte>, limit: nat) returns (found: seq<FileRecord>)
    requires limit > 0 && (sel in {SubCase, SubNcase} ==> InlineScan.Comparable(db.signedChar, arg))
    ensures found == Slice(TableFiles(db, sel, arg, |db.table|), 0, limit)
  {
    found := [];
    for i := 0 to |db.table|
      invariant found == TableFiles(db, sel, arg, i) && |found| < limit
    {
      var matches := MatchText(db, sel, arg, db.table[i].text);
      if matches {
        found := GetMatchList(found, Files(db.table[i]), limit);
        if |found| >= limit {
          TableFilesGrow(db, sel, arg, i + 1, |db.table|);
          return;
        }
      }
    }
  }

  /** Append one string's files to what was found, up to a limit. */
  function GetMatchList(found: seq<FileRecord>, files: seq<FileRecord>, limit: nat): (r: seq<FileRecord>)
    requires |found| <= limit
    ensures r == Slice(found + files, 0, limit)
  {
    found + files[..Min(|files|, limit - |found|)]
  }

  lemma {:induction false} TableFilesGrow(db: Database, sel: SearchSel, arg: seq<byte>, m: nat, n: nat)
    requires m <= n <= |db.table|
    ensures TableFiles(db, sel, arg, m) <= TableFiles(db, sel, arg, n)
  {
    if m < n {
      TableFilesGrow(db, sel, arg, m, n - 1);
    }
  }

  /** An uncached search; an exact search of an unknown string starts again with the alternate method. */
  method Search(db: Database, sel: SearchSel, arg: seq<byte>, limit: nat)
    returns (status: Status, searchType: SearchSel, found: seq<FileRecord>)
    requires limit > 0 && Scannable(db, sel, arg)
    ensures Error(db, sel, arg).Some? ==> Reports(status, Error(db, sel, arg).value)
    ensures Error(db, sel, arg).None? ==>
      && status == Success && searchType == Resolve(db, sel, arg)
      && found == Slice(Full(db, sel, arg), 0, limit)
  {
    searchType, found := sel, [];
    while ExactFirst(searchType)
      invariant searchType == sel || (searchType == Resolve(db, sel, arg) && !ExactFirst(searchType))
      decreases ExactFirst(searchType)
    {
      if arg in db.index {
        return Success, searchType, GetMatchList([], Files(db.index[arg]), limit);
      } else if searchType != Exact {
        searchType := Alternate(searchType);
      } else {
        return Success, searchType, [];
      }
    }
    if searchType == Unknown {
      return BadArg, searchType, [];
    }
    if searchType == FullRegex && db.badRegex(arg) {
      return BadRegularExpression, searchType, [];
    }
    found := SearchTable(db, searchType, arg, limit);
    status := Success;
  }

  /** Append a link to the list at `head`; the head's `previous` points to the last link. */
  method AppendItem(head: VLink?, link: VLink, ghost vs: seq<VLink>, ghost links: seq<LinkData>) returns (head': VLink)
    requires Unowned(head, vs, links) && (vs != [] ==> vs[0].previous == vs[|vs| - 1])
    requires link !in vs && link.owner == null
    modifies link`next, link`previous, vs`next, vs`previous
    ensures Unowned(head', vs + [link], links + [link.data])
    ensures (vs + [link])[0].previous == link
  {
    if head != null {
      link.previous := head.previous;
      head.previous := link;
      link.next := null;
      link.previous.next := link;
      head' := head;
    } else {
      head' := link;
      link.previous := link;
      link.next := null;
    }
  }

  /** The links made of the records before `i`, and of one more. */
  lemma ConvertNext(db: Database, found: seq<FileRecord>, offset: nat, i: nat, archiedir: int)
    requires i < |found|
    ensures Convert(db, Slice(found[..i + 1], offset, |found|), archiedir) ==
      Convert(db, Slice(found[..i], offset, |found|), archiedir)
      + if i >= offset && db.atoplink(found[i], archiedir).Some? then [db.atoplink(found[i], archiedir).value] else []
  {
    if i >= offset {
      assert Slice(found[..i], offset, |found|) == found[offset..i];
      assert Slice(found[..i + 1], offset, |found|) == found[offset..i + 1] == found[offset..i] + [found[i]];
      ConvertAppend(db, Slice(found[..i], offset, |found|), [found[i]], archiedir);
    } else {
      assert Slice(found[..i + 1], offset, |found|) == Slice(found[..i], offset, |found|);
    }
  }

  /** Turn the records from `offset` on into a list of links. */
  method BuildLinks(db: Database, found: seq<FileRecord>, offset: nat, archiedir: int)
    returns (head: VLink?, data: seq<LinkData>, ghost vs: seq<VLink>)
    ensures data == Convert(db, Slice(found, offset, |found|), archiedir)
    ensures Unowned(head, vs, data) && fresh(vs)
  {
    hide Unowned, Convert, Slice;
    head, data, vs := null, [], [];
    NothingBuilt(db, found, offset, archiedir);
    for i := 0 to |found|
      invariant fresh(vs) && Unowned(head, vs, data)
      invariant vs != [] ==> vs[0].previous == vs[|vs| - 1]
      invariant data == Convert(db, Slice(found[..i], offset, |found|), archiedir)
    {
      ConvertNext(db, found, offset, i, archiedir);
      if i >= offset {
        var l := db.atoplink(found[i], archiedir);
        if l.Some? {
          var link := new VLink(l.value);
          head := AppendItem(head, link, vs, data);
          vs, data := vs + [link], data + [l.value];
        }
      }
    }
    assert found[..|found|] == found;
  }

  lemma NothingBuilt(db: Database, found: seq<FileRecord>, offset: nat, archiedir: int)
    ensures Unowned(null, [], []) && Convert(db, Slice(found[..0], offset, |found|), archiedir) == []
  {
  }

  /** The limit `maxHits + offset` loses none of the records asked for and shows whether there may be more. */
  lemma LimitSuffices(full: seq<FileRecord>, maxHits: nat, offset: nat)
    ensures var found := Slice(full, 0, maxHits + offset);
      && Slice(found, offset, |found|) == Slice(full, offset, maxHits)
      && (|found| >= maxHits + offset <==> |full| >= maxHits + offset)
  {
  }

  /** The part of `prarch_match` after a cache miss. */
  method SearchAndCache(db: Database, cache: Cache, q: Query, sel: SearchSel)
    returns (status: Status, links: VLink?, ghost vs: seq<VLink>)
    requires cache.Valid() && Proper(db, q) && |q.arg| > 0 && sel == Cheapest(q.sel, q.arg)
    modifies cache.repr
    ensures cache.Valid() && fresh(cache.repr - old(cache.repr))
    ensures var ms, error := old(Models(cache.entries)), Error(db, sel, q.arg);
      if error.Some? then Reports(status, error.value) && Models(cache.entries) == ms
      else
        var e := NewEntry(db, q);
        && status == Success && IsList(links, vs, e.links)
        && Models(cache.entries) == if e.searchType == Exact && q.queue > MATCH_CACHE_SIZE - 5 then ms else Add(ms, e)
  {
    hide Linked, Models, Slice, Convert, Full, Add;
    var st, searchType, found := Search(db, sel, q.arg, q.maxHits + q.offset);
    if st != Success {
      return st, null, [];
    }
    LimitSuffices(Full(db, sel, q.arg), q.maxHits, q.offset);
    var head, data, nodes := BuildLinks(db, found, q.offset, q.archiedir);
    UnownedIsList(head, nodes, data);
    var hitsExceeded := |found| >= q.maxHits + q.offset;
    if !(searchType == Exact && q.queue > MATCH_CACHE_SIZE - 5) {
      var e := Cached(q.arg, if hitsExceeded then q.maxHits else -q.maxHits, q.offset, searchType, sel,
                      q.archiedir, data, |data|);
      assert e == NewEntry(db, q);
      assert forall i :: 0 <= i < |nodes| ==> nodes[i] !in cache.repr;
      cache.AddToCache(head, nodes, e);
    }
    return Success, head, nodes;
  }

  lemma UnownedIsList(head: VLink?, vs: seq<VLink>, links: seq<LinkData>)
    requires Unowned(head, vs, links)
    ensures IsList(head, vs, links)
  {
  }

  /** Answer a query: one step of the value model, and the list of links it calls for. */
  method PrarchMatch(db: Database, cache: Cache, q: Query) returns (status: Status, links: VLink?, ghost vs: seq<VLink>)
    requires cache.Valid() && Proper(db, q)
    modifies cache.repr
    ensures cache.Valid() && fresh(cache.repr - old(cache.repr))
    ensures var (c, a) := Step(db, old(Models(cache.entries)), q);
      && Models(cache.entries) == c && Reports(status, a)
      && (a.Links? ==> IsList(links, vs, a.links))
    ensures Sound(db, old(Models(cache.entries))) && OrderlyAnswers(db) ==>
      && Sound(db, Models(cache.entries)) && Reports(status, Uncached(db, q))
      && (Uncached(db, q).Links? ==> IsList(links, vs, Uncached(db, q).links))
  {
    hide Cache.Valid, Linked, Models, Sound, OrderlyAnswers, Uncached, NewEntry, Recut, FirstHit;
    status, links, vs := BadArg, null, [];
    if Sound(db, Models(cache.entries)) && OrderlyAnswers(db) {
      StepSound(db, Models(cache.entries), q);
    }
    if |q.arg| == 0 {
      return;
    }
    var sel := Cheapest(q.sel, q.arg);
    var hit, linkp := cache.CheckCache(q.arg, q.maxHits, q.offset, sel, q.archiedir);
    if hit {
      vs := cache.FrontMatches();
      return Success, linkp, vs;
    }
    status, links, vs := SearchAndCache(db, cache, q, sel);
  }
}
