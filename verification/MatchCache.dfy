/**
 * The linked structures of the query cache in archie/access/prarch_match.c.
 *
 * A cached result is one run of links, held as two lists, `matches` and `more`, which
 * `check_cache` cuts and rejoins in place.  The cache itself is a singly linked list of at
 * most fifteen entries, most recently used first.  Everything here is proved against the
 * value model of module `QueryCache`.
 */
module MatchCache {
  import opened Bytes
  import opened QueryCache

  class VLink {
    var data: LinkData
    var next: VLink?
    var previous: VLink?
    var expanded: bool
    var dontfree: bool

    /** The cache entry that holds this link. */
    ghost var owner: Entry?

    constructor (data: LinkData)
      ensures this.data == data && next == null && previous == null && owner == null
    {
      this.data := data;
      next, previous, expanded, dontfree, owner := null, null, false, false, null;
    }
  }

  ghost predicate Distinct<T>(s: seq<T>) {
    forall i, j :: 0 <= i < j < |s| ==> s[i] != s[j]
  }

  /** The nodes are chained in order, the chain being cut before indices `c` and `t`. */
  ghost predicate Linked(nodes: seq<VLink>, c: int, t: int)
    reads nodes`next, nodes`previous
  {
    && (forall i {:trigger nodes[i].next} :: 0 <= i < |nodes| ==>
          nodes[i].next == if i + 1 == |nodes| || i + 1 == c || i + 1 == t then null else nodes[i + 1])
    && (forall i {:trigger nodes[i].previous} :: 1 <= i < |nodes| ==>
          nodes[i].previous == if i == c || i == t then null else nodes[i - 1])
  }

  lemma NextLinked(nodes: seq<VLink>, c: int, t: int, i: nat)
    requires Linked(nodes, c, t) && i < |nodes|
    ensures nodes[i].next == if i + 1 == |nodes| || i + 1 == c || i + 1 == t then null else nodes[i + 1]
  {
  }

  /** `head` is a list of exactly these links. */
  ghost predicate IsList(head: VLink?, nodes: seq<VLink>, links: seq<LinkData>)
    reads nodes`data, nodes`next
  {
    && |nodes| == |links|
    && head == (if nodes == [] then null else nodes[0])
    && (forall i :: 0 <= i < |nodes| ==> nodes[i].data == links[i])
    && (forall i {:trigger nodes[i].next} :: 0 <= i < |nodes| ==>
          nodes[i].next == if i + 1 == |nodes| then null else nodes[i + 1])
  }

  /** `vl` is a list of exactly these links, and no cache entry holds them. */
  ghost predicate Unowned(vl: VLink?, vs: seq<VLink>, links: seq<LinkData>)
    reads vs
  {
    && |vs| == |links| && Distinct(vs)
    && (forall i :: 0 <= i < |vs| ==> vs[i].data == links[i] && vs[i].owner == null)
    && vl == (if vs == [] then null else vs[0])
    && Linked(vs, |vs|, 0)
  }

  class Entry {
    var arg: seq<byte>
    var maxHits: int
    var offset: int
    var searchType: SearchSel
    var reqType: SearchSel
    var matches: VLink?
    var more: VLink?
    var archiedir: int
    var next: Entry?

    /** All the links of the result, those of `matches` before those of `more`, and the value they represent. */
    ghost var nodes: seq<VLink>
    ghost var m: Cached

    ghost predicate Valid()
      reads `arg, `maxHits, `offset, `searchType, `reqType, `matches, `more, `archiedir, `nodes, `m
      reads nodes`data, nodes`next, nodes`previous, nodes`owner
    {
      && arg == m.arg && maxHits == m.maxHits && offset == m.offset
      && searchType == m.searchType && reqType == m.reqType && archiedir == m.archiedir
      && |nodes| == |m.links| && m.cut <= |nodes| && (m.cut == 0 ==> nodes == [])
      && Distinct(nodes)
      && (forall i :: 0 <= i < |nodes| ==> nodes[i].data == m.links[i] && nodes[i].owner == this)
      && matches == (if nodes == [] then null else nodes[0])
      && more == (if m.cut < |nodes| then nodes[m.cut] else null)
      && Linked(nodes, m.cut, 0)
    }

    constructor ()
      ensures nodes == [] && next == null
    {
      arg, maxHits, offset, searchType, reqType, archiedir := [], 0, 0, Unknown, Unknown, 0;
      matches, more, next, nodes := null, null, null, [];
      m := Cached([], 0, 0, Unknown, Unknown, 0, [], 0);
    }

    /** Give the entry a result: a list of links that no entry holds yet. */
    method Fill(vl: VLink?, ghost vs: seq<VLink>, m: Cached)
      requires Unowned(vl, vs, m.links) && m.cut == |m.links|
      modifies `arg, `maxHits, `offset, `searchType, `reqType, `matches, `more, `archiedir, `nodes, `m, vs`owner
      ensures Valid() && this.m == m && nodes == vs
    {
      arg, maxHits, offset := m.arg, m.maxHits, m.offset;
      searchType, reqType, archiedir := m.searchType, m.reqType, m.archiedir;
      matches, more := vl, null;
      nodes := vs;
      this.m := m;
      forall i | 0 <= i < |vs| {
        vs[i].owner := this;
      }
    }

    /** The links belong to a set of objects. */
    ghost predicate Within(repr: set<object>)
      reads `nodes
    {
      forall l :: l in nodes ==> l in repr
    }

    /** End the walked list after `cur`; what followed it becomes `rest`. */
    static method CutAfter(cur: VLink, ghost nodes: seq<VLink>, ghost i: nat, ghost c: nat) returns (rest: VLink?)
      requires Distinct(nodes) && i < c <= |nodes| && cur == nodes[i] && Linked(nodes, c, 0)
      modifies cur`next, nodes`previous
      ensures rest == if i + 1 < c then nodes[i + 1] else null
      ensures i + 1 < c ==> Linked(nodes, c, i + 1)
      ensures i + 1 == c ==> Linked(nodes, c, 0)
    {
      rest := cur.next;
      cur.next := null;
      if rest != null {
        rest.previous := null;
      }
    }

    /** Append the list `more` after `cur`, the last link of the walked list. */
    static method JoinAfter(cur: VLink, more: VLink?, ghost nodes: seq<VLink>, ghost c: nat, ghost t: nat)
      requires Distinct(nodes) && t < c <= |nodes| && cur == nodes[c - 1] && Linked(nodes, c, t)
      requires more == if c < |nodes| then nodes[c] else null
      modifies cur`next, nodes`previous
      ensures t > 0 ==> Linked(nodes, t, 0)
      ensures t == 0 ==> Linked(nodes, |nodes|, 0)
      ensures cur.next == more
    {
      cur.next := more;
      if cur.next != null {
        cur.next.previous := cur;
      }
    }

    /**
     * Walk the list `matches`, cutting it after `n` links; links beyond go in front of what
     * was not walked, and when too few are found `more` is joined on and walked as well.
     * `c0` is where the nodes were cut before.
     */
    static method CutLists(matches: VLink?, more0: VLink?, n: int, ghost nodes: seq<VLink>, ghost c0: nat)
      returns (more: VLink?)
      requires Distinct(nodes) && c0 <= |nodes| && (c0 == 0 ==> nodes == []) && Linked(nodes, c0, 0)
      requires matches == if nodes == [] then null else nodes[0]
      requires more0 == if c0 < |nodes| then nodes[c0] else null
      modifies nodes`next, nodes`previous, nodes`expanded
      ensures var cut := CutFor(n, |nodes|, c0);
        && Linked(nodes, cut, 0) && more == (if cut < |nodes| then nodes[cut] else null)
        && forall i :: 0 <= i < cut ==> !nodes[i].expanded
    {
      hide Linked;
      more := more0;
      var count := n;
      var rest: VLink?, next: VLink? := null, null;
      var curLink := matches;
      // `c` is where the list being walked ends, `t` where it has been truncated (0: it has not)
      ghost var i, c, t := 0, c0, 0;
      while curLink != null
        invariant count == n - i && 0 <= t <= i <= c <= |nodes|
        invariant forall k :: 0 <= k < i ==> !nodes[k].expanded
        invariant curLink != null ==>
          && i < c && curLink == nodes[i] && Linked(nodes, c, t) && t in {0, n} && (t == 0 && n > 0 ==> i < n)
          && more == (if c < |nodes| then nodes[c] else null)
          && rest == (if t > 0 then nodes[t] else null)
        invariant curLink == null ==>
          var cut := CutFor(n, |nodes|, c0);
          cut <= i && Linked(nodes, cut, 0) && more == if cut < |nodes| then nodes[cut] else null
        decreases |nodes| - i, curLink != null
      {
        curLink.expanded := false;
        NextLinked(nodes, c, t, i);
        next := curLink.next;
        count := count - 1;
        if count == 0 {
          rest := CutAfter(curLink, nodes, i, c);
          t := if i + 1 < c then i + 1 else 0;
        } else if next == null && rest == null {
          next := more;
          JoinAfter(curLink, next, nodes, c, t);
          more := null;
          c := |nodes|;
        } else if next == null {
          JoinAfter(curLink, more, nodes, c, t);
          more := rest;
        }
        i := i + 1;
        curLink := next;
      }
    }

    static lemma CutForBounds(n: int, total: nat, cut: nat)
      requires cut <= total && (cut == 0 ==> total == 0)
      ensures CutFor(n, total, cut) <= total && (CutFor(n, total, cut) == 0 ==> total == 0)
    {
    }

    /**
     * Cut the result so that `matches` holds the first `n` links and `more` the rest,
     * whatever the cut was before.  No link is lost, added or reordered.
     */
    method Recut(n: int)
      requires Valid()
      modifies this`more, this`m, nodes`next, nodes`previous, nodes`expanded
      ensures Valid() && m == QueryCache.Recut(old(m), n)
      ensures forall i :: 0 <= i < m.cut ==> !nodes[i].expanded
    {
      hide Linked, Distinct, CutFor;
      CutForBounds(n, |nodes|, m.cut);
      more := CutLists(matches, more, n, nodes, m.cut);
      m := QueryCache.Recut(m, n);
    }
  }

  /** The entries are chained from `head` without a cycle, and end with null. */
  ghost predicate Chained(head: Entry?, entries: seq<Entry>)
    reads entries`next
  {
    && Distinct(entries)
    && head == (if entries == [] then null else entries[0])
    && forall i {:trigger entries[i].next} :: 0 <= i < |entries| ==>
         entries[i].next == if i + 1 == |entries| then null else entries[i + 1]
  }

  /** Element `k` moved to the front. */
  ghost function ToFront(s: seq<Entry>, k: nat): seq<Entry>
    requires k < |s|
  {
    [s[k]] + s[..k] + s[k + 1..]
  }

  lemma ToFrontMembers(s: seq<Entry>, k: nat)
    requires k < |s|
    ensures |ToFront(s, k)| == |s| && forall x :: x in ToFront(s, k) ==> x in s
  {
    var t := ToFront(s, k);
    assert s == s[..k] + [s[k]] + s[k + 1..];
  }

  lemma LastToFront(s: seq<Entry>)
    requires s != []
    ensures var es := ToFront(s, |s| - 1); es[0] == s[|s| - 1] && es[1..] == s[..|s| - 1]
  {
  }

  /** What the entries represent, in order. */
  ghost function Models(entries: seq<Entry>): (ms: seq<Cached>)
    reads entries`m
    ensures |ms| == |entries| && forall i :: 0 <= i < |ms| ==> ms[i] == entries[i].m
  {
    if entries == [] then [] else [entries[0].m] + Models(entries[1..])
  }

  /** Unlink entry `k` of a chain and put it at the head. */
  method Relink(head: Entry?, pcachep: Entry?, cachep: Entry, ghost entries: seq<Entry>, ghost k: nat)
    requires Chained(head, entries) && k < |entries|
    requires cachep == entries[k] && pcachep == if k > 0 then entries[k - 1] else null
    modifies entries`next
    ensures Chained(cachep, ToFront(entries, k))
  {
    if pcachep != null {
      pcachep.next := cachep.next;
      cachep.next := head;
    }
  }

  /**
   * Bring the last entry of a chain to the head.  The list is made circular for a moment: the
   * walk that looks for the entry now last runs once round it.
   */
  method RotateLast(head: Entry?, ghost entries: seq<Entry>) returns (last: Entry)
    requires Chained(head, entries) && entries != []
    modifies entries`next
    ensures Chained(last, ToFront(entries, |entries| - 1)) && last == entries[|entries| - 1]
  {
    var pcachep := head;
    ghost var k, n := 0, |entries|;
    while pcachep.next != null
      modifies {}
      invariant 0 <= k < n && pcachep == entries[k]
      decreases n - k
    {
      pcachep, k := pcachep.next, k + 1;
    }
    last := pcachep;
    last.next := head;
    k := -1;
    while pcachep.next != last
      modifies {}
      invariant -1 <= k < n - 1 && pcachep == (if k < 0 then last else entries[k])
      decreases n - k
    {
      pcachep, k := pcachep.next, k + 1;
    }
    pcachep.next := null;
  }

  /** An entry none of whose parts has changed is still valid. */
  twostate lemma Undisturbed(e: Entry)
    requires old(e.Valid()) && unchanged(e) && forall i :: 0 <= i < |e.nodes| ==> unchanged(e.nodes[i])
    ensures e.Valid()
  {
  }

  lemma ModelsAt(entries: seq<Entry>, i: nat)
    requires i < |entries|
    ensures |Models(entries)| == |entries| && Models(entries)[i] == entries[i].m
  {
  }

  lemma {:induction false} ModelsPrefix(entries: seq<Entry>, n: nat)
    requires n <= |entries|
    ensures Models(entries[..n]) == Models(entries)[..n]
  {
  }

  lemma NodesWithin(e: Entry, repr: set<object>)
    requires (set l | l in e.nodes) <= repr
    ensures e.Within(repr)
  {
    assert forall l :: l in e.nodes ==> l in (set l | l in e.nodes);
  }

  lemma WithinMore(e: Entry, small: set<object>, repr: set<object>)
    requires e.Within(small) && small <= repr
    ensures e.Within(repr)
  {
  }

  lemma PushModels(e: Entry, entries: seq<Entry>)
    ensures Models([e] + entries) == [e.m] + Models(entries)
  {
    assert ([e] + entries)[1..] == entries;
  }

  /** Re-cutting entry `k` and moving it to the front is what `Touch` says. */
  lemma ToFrontIsTouch(entries: seq<Entry>, ms: seq<Cached>, k: nat, n: int)
    requires k < |entries| == |ms|
    requires forall i :: 0 <= i < |ms| ==> entries[i].m == if i == k then QueryCache.Recut(ms[k], n) else ms[i]
    ensures Models(ToFront(entries, k)) == Touch(ms, k, n)
  {
    var es := ToFront(entries, k);
    forall i | 0 <= i < |ms|
      ensures Models(es)[i] == Touch(ms, k, n)[i]
    {
      assert es[i] == entries[if i == 0 then k else if i <= k then i - 1 else i];
    }
  }

  /** The cache: the globals `mcache` and `cachecount`. */
  class Cache {
    var mcache: Entry?
    var cachecount: int

    /** The entries in list order, and all the objects the cache is made of. */
    ghost var entries: seq<Entry>
    ghost var repr: set<object>

    constructor ()
      ensures Valid() && Models(entries) == [] && fresh(repr)
    {
      mcache, cachecount := null, 0;
      entries, repr := [], {this};
    }

    ghost predicate Filled()
      reads this, repr
    {
      && this in repr
      && forall e: Entry :: e in entries ==> e in repr && e.Within(repr) && e.Valid()
    }

    ghost predicate Valid()
      reads this, repr
    {
      && Filled()
      && |entries| == cachecount <= MATCH_CACHE_SIZE
      && Chained(mcache, entries)
    }

    /** Cut entry `k` for `n` links; the others are not disturbed. */
    method RecutEntry(cachep: Entry, ghost k: nat, n: int)
      requires Filled() && Distinct(entries) && k < |entries| && cachep == entries[k]
      modifies cachep`more, cachep`m, cachep.nodes`next, cachep.nodes`previous, cachep.nodes`expanded
      ensures Filled()
      ensures Models(ToFront(entries, k)) == Touch(old(Models(entries)), k, n)
    {
      hide Linked;
      ghost var ms := Models(entries);
      cachep.Recut(n);
      forall e: Entry | e in entries && e != cachep
        ensures e.Valid()
      {
        assert forall i :: 0 <= i < |e.nodes| ==> e.nodes[i].owner == e;
        Undisturbed(e);
      }
      ToFrontIsTouch(entries, ms, k, n);
    }

    /** Relink the list so that entry `k` comes first. */
    method MoveToFront(pcachep: Entry?, cachep: Entry, ghost k: nat)
      requires Filled() && Chained(mcache, entries) && k < |entries|
      requires cachep == entries[k] && pcachep == if k > 0 then entries[k - 1] else null
      modifies `mcache, `entries, entries`next
      ensures Filled() && Chained(cachep, entries) && mcache == cachep
      ensures entries == ToFront(old(entries), k) && Models(entries) == old(Models(ToFront(entries, k)))
    {
      hide Entry.Valid, Entry.Within, Distinct, Models, ToFront;
      ghost var es := ToFront(entries, k);
      ToFrontMembers(entries, k);
      label L:
      Relink(mcache, pcachep, cachep, entries, k);
      mcache := cachep;
      entries := es;
      assert Models(es) == old@L(Models(es));
      forall e: Entry | e in es
        ensures e in repr && e.Within(repr) && e.Valid()
      {
        assert old@L(e.Valid()) && old@L(e.Within(repr));
      }
    }

    /** Move entry `k` to the front and cut it for `n` links. */
    method TakeHit(pcachep: Entry?, cachep: Entry, ghost k: nat, n: int)
      requires Valid() && k < |entries|
      requires cachep == entries[k] && pcachep == if k > 0 then entries[k - 1] else null
      modifies repr
      ensures Valid() && repr == old(repr) && mcache == cachep
      ensures Models(entries) == Touch(old(Models(entries)), k, n)
    {
      hide Entry.Valid, Distinct, Models, ToFront;
      assert cachep.Within(repr);
      ToFrontMembers(entries, k);
      RecutEntry(cachep, k, n);
      MoveToFront(pcachep, cachep, k);
    }

    lemma HeadOfChain()
      requires Valid()
      ensures mcache == (if entries == [] then null else entries[0]) && |Models(entries)| == |entries|
    {
    }

    /** What the fields of entry `k` say, and where its link leads. */
    lemma EntryAt(k: nat)
      requires Valid() && k < |entries|
      ensures |Models(entries)| == |entries|
      ensures var e, m := entries[k], Models(entries)[k];
        && e.arg == m.arg && e.maxHits == m.maxHits && e.offset == m.offset
        && e.searchType == m.searchType && e.reqType == m.reqType && e.archiedir == m.archiedir
        && e.next == (if k + 1 == |entries| then null else entries[k + 1])
    {
      hide Linked;
      assert entries[k] in entries;
      ModelsAt(entries, k);
    }

    /** Walk the list to the first entry that answers the query; `k` is its index. */
    method FindEntry(arg: seq<byte>, maxHits: int, offset: int, qtype: SearchSel, archiedir: int)
      returns (pcachep: Entry?, cachep: Entry?, ghost k: nat)
      requires Valid()
      ensures k == FirstHit(Models(entries), arg, maxHits, offset, qtype, archiedir)
      ensures cachep == if k < |entries| then entries[k] else null
      ensures pcachep == if k > 0 then entries[k - 1] else null
    {
      hide Valid, Models, FirstHit;
      HeadOfChain();
      pcachep, cachep, k := null, mcache, 0;
      while cachep != null
        invariant 0 <= k <= |entries|
        invariant cachep == if k < |entries| then entries[k] else null
        invariant pcachep == if k > 0 then entries[k - 1] else null
        invariant k <= FirstHit(Models(entries), arg, maxHits, offset, qtype, archiedir)
        decreases |entries| - k
      {
        EntryAt(k);
        if (qtype == cachep.searchType || qtype == cachep.reqType) && cachep.offset == offset
           && (cachep.maxHits < 0 || maxHits <= cachep.maxHits) && cachep.arg == arg && cachep.archiedir == archiedir {
          return;
        }
        pcachep, cachep, k := cachep, cachep.next, k + 1;
      }
    }

    /** Look for a cached result; on success it moves to the front, cut to the size asked for. */
    method CheckCache(arg: seq<byte>, maxHits: int, offset: int, qtype: SearchSel, archiedir: int)
      returns (found: bool, linkp: VLink?)
      requires Valid()
      modifies repr
      ensures Valid() && repr == old(repr)
      ensures var i := FirstHit(old(Models(entries)), arg, maxHits, offset, qtype, archiedir);
        && found == (i < |old(entries)|)
        && Models(entries) == (if found then Touch(old(Models(entries)), i, maxHits) else old(Models(entries)))
      ensures found ==> |entries| > 0 && linkp == entries[0].matches
      ensures !found ==> linkp == null
    {
      hide Linked, Distinct, FirstHit, Entry.Valid, Touch;
      var pcachep, cachep, k := FindEntry(arg, maxHits, offset, qtype, archiedir);
      if cachep == null {
        return false, null;
      }
      TakeHit(pcachep, cachep, k, maxHits);
      return true, cachep.matches;
    }

    /** The links of the front entry's `matches`. */
    ghost method FrontMatches() returns (vs: seq<VLink>)
      requires Valid() && entries != []
      ensures var m := Models(entries)[0];
        m.cut <= |m.links| && IsList(entries[0].matches, vs, m.links[..m.cut])
    {
      var e := entries[0];
      assert e in entries && e.Valid();
      ModelsAt(entries, 0);
      vs := e.nodes[..e.m.cut];
    }

    /** Put a filled entry at the head of the list of a cache that has room. */
    method PushEntry(e: Entry)
      requires Valid() && cachecount < MATCH_CACHE_SIZE
      requires e.Valid() && e !in entries
      modifies this, e`next
      ensures Valid() && repr == old(repr) + {e} + (set l | l in e.nodes)
      ensures Models(entries) == [e.m] + old(Models(entries))
    {
      hide Linked, Entry.Valid, Entry.Within, Models;
      ghost var es := entries;
      PushModels(e, es);
      Own(e);
      cachecount := cachecount + 1;
      e.next := mcache;
      mcache := e;
      assert Chained(e, [e] + es);
      entries := [e] + es;
    }

    /** An entry and its links become part of what the cache is made of. */
    ghost method Own(e: Entry)
      requires Filled()
      modifies `repr
      ensures Filled() && repr == old(repr) + {e} + (set l | l in e.nodes) && e.Within(repr)
    {
      hide Linked, Entry.Valid, Entry.Within;
      ghost var small := repr;
      repr := repr + {e} + (set l | l in e.nodes);
      NodesWithin(e, repr);
      forall x: Entry | x in entries
        ensures x.Within(repr)
      {
        WithinMore(x, small, repr);
      }
    }

    /** Fill an entry; the other entries of the cache are not disturbed. */
    method FillEntry(e: Entry, vl: VLink?, ghost vs: seq<VLink>, m: Cached)
      requires forall x: Entry :: x in entries && x != e ==> x.Valid()
      requires Unowned(vl, vs, m.links) && m.cut == |m.links|
      modifies e`arg, e`maxHits, e`offset, e`searchType, e`reqType, e`matches, e`more, e`archiedir, e`nodes, e`m
      modifies vs`owner
      ensures e.Valid() && e.m == m && e.nodes == vs
      ensures forall x: Entry :: x in entries && x != e ==> x.Valid()
    {
      hide Linked, Distinct;
      e.Fill(vl, vs, m);
      forall x: Entry | x in entries && x != e
        ensures x.Valid()
      {
        assert forall i :: 0 <= i < |x.nodes| ==> old(x.nodes[i].owner) == x;
        Undisturbed(x);
      }
    }

    /** Refill an entry, whose new links become part of the cache. */
    method Refill(e: Entry, vl: VLink?, ghost vs: seq<VLink>, m: Cached)
      requires Filled() && e in entries
      requires Unowned(vl, vs, m.links) && m.cut == |m.links|
      modifies `repr
      modifies e`arg, e`maxHits, e`offset, e`searchType, e`reqType, e`matches, e`more, e`archiedir, e`nodes, e`m
      modifies vs`owner
      ensures Filled() && repr == old(repr) + (set l | l in vs) && e.m == m
    {
      hide Linked, Entry.Valid, Entry.Within, Unowned;
      ghost var repr0 := repr;
      FillEntry(e, vl, vs, m);
      repr := repr + (set l | l in vs);
      NodesWithin(e, repr);
      forall x: Entry | x in entries && x != e
        ensures x.Within(repr)
      {
        WithinMore(x, repr0, repr);
      }
    }

    /** Refill the entry at the head of the list. */
    method RefillFront(e: Entry, vl: VLink?, ghost vs: seq<VLink>, m: Cached)
      requires Filled() && Distinct(entries) && entries != [] && entries[0] == e
      requires Unowned(vl, vs, m.links) && m.cut == |m.links|
      modifies `repr
      modifies e`arg, e`maxHits, e`offset, e`searchType, e`reqType, e`matches, e`more, e`archiedir, e`nodes, e`m
      modifies vs`owner
      ensures Filled() && repr == old(repr) + (set l | l in vs)
      ensures Models(entries) == [m] + old(Models(entries[1..]))
    {
      hide Filled, Linked, Entry.Valid, Entry.Within, Models, Unowned;
      ghost var rest := entries[1..];
      assert [e] + rest == entries && e !in rest;
      Refill(e, vl, vs, m);
      PushModels(e, rest);
    }

    /** Cache a result: in a new entry while there is room, else in the least recently used one. */
    method AddToCache(vl: VLink?, ghost vs: seq<VLink>, m: Cached)
      requires Valid() && Unowned(vl, vs, m.links) && m.cut == |m.links|
      modifies repr, vs`owner
      ensures Valid() && Models(entries) == Add(old(Models(entries)), m)
      ensures fresh(repr - old(repr) - (set l | l in vs))
    {
      if cachecount < MATCH_CACHE_SIZE {
        AddNew(vl, vs, m);
      } else {
        Recycle(vl, vs, m);
      }
    }

    method AddNew(vl: VLink?, ghost vs: seq<VLink>, m: Cached)
      requires Valid() && cachecount < MATCH_CACHE_SIZE
      requires Unowned(vl, vs, m.links) && m.cut == |m.links|
      modifies this, vs`owner
      ensures Valid() && Models(entries) == [m] + old(Models(entries))
      ensures fresh(repr - old(repr) - (set l | l in vs))
    {
      hide Linked, Entry.Valid, Models, Distinct, Unowned;
      label L:
      var newresults := new Entry();
      FillEntry(newresults, vl, vs, m);
      assert Models(entries) == old@L(Models(entries));
      PushEntry(newresults);
    }

    /** Bring the least recently used entry to the front. */
    method BringLast() returns (last: Entry)
      requires Valid() && entries != []
      modifies `mcache, `entries, entries`next
      ensures Valid() && last == entries[0] && |entries| == |old(entries)|
      ensures Models(entries[1..]) == old(Models(entries))[..|old(entries)| - 1]
    {
      hide Entry.Valid, Entry.Within, Distinct, Models, Chained, ToFront;
      ghost var es := ToFront(entries, |entries| - 1);
      ToFrontMembers(entries, |entries| - 1);
      LastToFront(entries);
      ModelsPrefix(entries, |entries| - 1);
      label L:
      last := RotateLast(mcache, entries);
      mcache := last;
      entries := es;
      assert Models(es[1..]) == old@L(Models(es[1..]));
      forall e: Entry | e in es
        ensures e in repr && e.Within(repr) && e.Valid()
      {
        assert old@L(e.Valid()) && old@L(e.Within(repr));
      }
    }

    method Recycle(vl: VLink?, ghost vs: seq<VLink>, m: Cached)
      requires Valid() && cachecount == MATCH_CACHE_SIZE
      requires Unowned(vl, vs, m.links) && m.cut == |m.links|
      modifies repr, vs`owner
      ensures Valid() && Models(entries) == [m] + old(Models(entries))[..MATCH_CACHE_SIZE - 1]
      ensures repr == old(repr) + (set l | l in vs)
    {
      hide Linked, Entry.Valid, Models, Distinct, Unowned;
      var newresults := BringLast();
      EntriesInRepr();
      RefillFront(newresults, vl, vs, m);
    }

    lemma EntriesInRepr()
      requires Filled()
      ensures forall e: Entry :: e in entries ==> e in repr
    {
    }
  }
}
