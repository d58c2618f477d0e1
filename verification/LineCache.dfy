/**
 * The line-number cache of archie/less/linenum.c: a pool of fifty nodes, on a circular doubly
 * linked list ordered by position, a free list, and one spare.
 */
module LineCache {

  const NPOOL := 50

  class LineNum {
    var next: LineNum?
    var prev: LineNum?
    var pos: int
    var gap: int
    var line: int

    constructor ()
      ensures next == null && prev == null && pos == 0 && gap == 0 && line == 0
    {
      next, prev, pos, gap, line := null, null, 0, 0, 0;
    }
  }

  // ---------------------------------------------------------------- the ring

  /** Element `i` of the ring; the anchor stands both before and after the entries. */
  ghost function At(anchor: LineNum, list: seq<LineNum>, i: int): LineNum {
    if 0 <= i < |list| then list[i] else anchor
  }

  ghost predicate Distinct(s: seq<LineNum>) {
    forall i, j :: 0 <= i < j < |s| ==> s[i] != s[j]
  }

  ghost predicate Ring(anchor: LineNum, list: seq<LineNum>)
    reads anchor`next, anchor`prev, list`next, list`prev
  {
    && anchor !in list && Distinct(list)
    && (forall i {:trigger At(anchor, list, i).next} :: -1 <= i < |list| ==>
          At(anchor, list, i).next == At(anchor, list, i + 1))
    && (forall i {:trigger At(anchor, list, i).prev} :: 0 <= i <= |list| ==>
          At(anchor, list, i).prev == At(anchor, list, i - 1))
  }

  ghost function Inserted(s: seq<LineNum>, k: nat, x: LineNum): seq<LineNum>
    requires k <= |s|
  {
    s[..k] + [x] + s[k..]
  }

  ghost function Removed(s: seq<LineNum>, k: nat): seq<LineNum>
    requires k < |s|
  {
    s[..k] + s[k + 1..]
  }

  lemma InsertedMembers(s: seq<LineNum>, k: nat, x: LineNum)
    requires k <= |s|
    ensures |Inserted(s, k, x)| == |s| + 1 && x in Inserted(s, k, x)
    ensures forall y: LineNum :: y in Inserted(s, k, x) ==> y == x || y in s
    ensures forall y: LineNum :: y in s ==> y in Inserted(s, k, x)
  {
    assert s == s[..k] + s[k..];
  }

  lemma RemovedMembers(s: seq<LineNum>, k: nat)
    requires k < |s| && Distinct(s)
    ensures |Removed(s, k)| == |s| - 1 && s[k] !in Removed(s, k)
    ensures forall y: LineNum :: y in Removed(s, k) ==> y in s
    ensures forall y: LineNum :: y in s && y != s[k] ==> y in Removed(s, k)
  {
    assert s == s[..k] + [s[k]] + s[k + 1..];
  }

  lemma RingAt(anchor: LineNum, list: seq<LineNum>, k: int)
    requires Ring(anchor, list) && -1 <= k < |list|
    ensures At(anchor, list, k).next == At(anchor, list, k + 1)
    ensures At(anchor, list, k + 1).prev == At(anchor, list, k)
    ensures At(anchor, list, k + 1) == anchor <==> k + 1 == |list|
  {
    assert At(anchor, list, k + 1).prev == At(anchor, list, k + 1 - 1);
  }

  /** Link a node in before element `k`. */
  method LinkIn(anchor: LineNum, node: LineNum, nextp: LineNum, prevp: LineNum, ghost list: seq<LineNum>, ghost k: nat)
    requires Ring(anchor, list) && k <= |list| && node != anchor && node !in list
    requires nextp == At(anchor, list, k) && prevp == At(anchor, list, k - 1)
    modifies node`next, node`prev, anchor`next, anchor`prev, list`next, list`prev
    ensures Ring(anchor, Inserted(list, k, node))
  {
    node.next := nextp;
    node.prev := prevp;
    nextp.prev := node;
    prevp.next := node;
    ghost var l' := Inserted(list, k, node);
    forall i | -1 <= i < |l'|
      ensures At(anchor, l', i).next == At(anchor, l', i + 1)
    {
      var o := if i <= k then i else i - 1;
      assert i != k ==> old(At(anchor, list, o).next) == At(anchor, list, o + 1);
    }
    forall i | 0 <= i <= |l'|
      ensures At(anchor, l', i).prev == At(anchor, l', i - 1)
    {
      var o := if i <= k then i else i - 1;
      assert i != k ==> old(At(anchor, list, o).prev) == At(anchor, list, o - 1);
    }
  }

  lemma RemovedRing(anchor: LineNum, list: seq<LineNum>, k: nat, i: int)
    requires k < |list| && -1 <= i < |list|
    ensures |Removed(list, k)| == |list| - 1
    ensures At(anchor, Removed(list, k), i) == At(anchor, list, if i < k then i else i + 1)
  {
  }

  /** Take element `k` out. */
  method Unlink(anchor: LineNum, p: LineNum, ghost list: seq<LineNum>, ghost k: nat)
    requires Ring(anchor, list) && k < |list| && p == list[k]
    modifies anchor`next, anchor`prev, list`next, list`prev
    ensures Ring(anchor, Removed(list, k))
  {
    RingAt(anchor, list, k);
    RingAt(anchor, list, k - 1);
    p.next.prev := p.prev;
    p.prev.next := p.next;
    ghost var l' := Removed(list, k);
    forall i | -1 <= i < |l'|
      ensures At(anchor, l', i).next == At(anchor, l', i + 1)
    {
      RemovedRing(anchor, list, k, i);
      RemovedRing(anchor, list, k, i + 1);
      var o := if i < k then i else i + 1;
      assert old(At(anchor, list, o).next) == At(anchor, list, o + 1);
    }
    forall i | 0 <= i <= |l'|
      ensures At(anchor, l', i).prev == At(anchor, l', i - 1)
    {
      RemovedRing(anchor, list, k, i);
      RemovedRing(anchor, list, k, i - 1);
      var o := if i < k then i else i + 1;
      assert old(At(anchor, list, o).prev) == At(anchor, list, o - 1);
    }
  }

  // ---------------------------------------------------------------- entries, order and gaps

  /** A remembered line: where it starts and its number. */
  datatype Entry = Entry(pos: int, line: int)

  ghost function Entries(list: seq<LineNum>): (es: seq<Entry>)
    reads list`pos, list`line
    ensures |es| == |list| && forall i :: 0 <= i < |es| ==> es[i] == Entry(list[i].pos, list[i].line)
  {
    if list == [] then [] else [Entry(list[0].pos, list[0].line)] + Entries(list[1..])
  }

  /** The entries are in order of position, weakly: a position can occur twice. */
  predicate Sorted(es: seq<Entry>) {
    && (forall i :: 0 <= i < |es| ==> es[i].pos >= 0)
    && (forall i, j :: 0 <= i < j < |es| ==> es[i].pos <= es[j].pos)
  }

  /** The gap that deleting entry `i` would leave; before the first entry stands position 0. */
  function TrueGap(es: seq<Entry>, i: int): int
    requires 0 <= i < |es| - 1
  {
    es[i + 1].pos - if i == 0 then 0 else es[i - 1].pos
  }

  /**
   * The recorded gap of every entry but the last is at most its true gap, and it is exact except
   * for the `stale` ones.
   */
  ghost predicate GapsRecorded(list: seq<LineNum>, stale: set<LineNum>)
    reads list`pos, list`line, list`gap
  {
    forall i :: 0 <= i < |list| - 1 ==> GapRight(list, stale, i)
  }

  /** The recorded gap of entry `i` is right, or only too small if the entry is stale. */
  ghost predicate GapRight(list: seq<LineNum>, stale: set<LineNum>, i: int)
    requires 0 <= i < |list| - 1
    reads list`pos, list`line, list`gap
  {
    && list[i].gap <= TrueGap(Entries(list), i)
    && (list[i] !in stale ==> list[i].gap == TrueGap(Entries(list), i))
  }

  /** The recorded gaps are right except perhaps next to entry `k`. */
  ghost predicate GapsElsewhere(list: seq<LineNum>, stale: set<LineNum>, k: int)
    reads list`pos, list`line, list`gap
  {
    forall i :: 0 <= i < |list| - 1 && (i < k - 1 || i > k + 1) ==> GapRight(list, stale, i)
  }

  /** Entry `k` and its neighbours. */
  ghost function Around(list: seq<LineNum>, k: nat): set<LineNum>
    requires k < |list|
  {
    {list[k]} + Beside(list, k)
  }

  /** The neighbours of entry `k`. */
  ghost function Beside(list: seq<LineNum>, k: nat): set<LineNum>
    requires k < |list|
  {
    (if k > 0 then {list[k - 1]} else {}) + (if k + 1 < |list| then {list[k + 1]} else {})
  }

  /** Where an entry for `pos` belongs: before the first entry that does not precede it. */
  function Slot(es: seq<Entry>, pos: int): (k: nat)
    ensures k <= |es| && (k < |es| ==> es[k].pos >= pos)
    ensures forall i :: 0 <= i < k ==> es[i].pos < pos
  {
    if es == [] || es[0].pos >= pos then 0 else 1 + Slot(es[1..], pos)
  }

  /** The line is already remembered before the place where the position belongs. */
  predicate Known(es: seq<Entry>, line: int, pos: int) {
    exists i :: 0 <= i < Slot(es, pos) && es[i].line == line
  }

  /** The entries with one more at its place. */
  function WithEntry(es: seq<Entry>, e: Entry): seq<Entry> {
    es[..Slot(es, e.pos)] + [e] + es[Slot(es, e.pos)..]
  }

  function WithoutEntry(es: seq<Entry>, v: nat): seq<Entry>
    requires v < |es|
  {
    es[..v] + es[v + 1..]
  }

  /** The new entry is in; if there was no room, one of the entries, the new one perhaps, is out. */
  ghost predicate Added(es: seq<Entry>, es': seq<Entry>, e: Entry) {
    es' == WithEntry(es, e) || exists v: nat :: v < |es| && es' == WithoutEntry(WithEntry(es, e), v)
  }

  /**
   * A new entry goes behind those before its position and before all others, and an old one is
   * taken out of its place.
   */
  lemma EntryGoesWhere(es: seq<Entry>, e: Entry, v: nat)
    requires v < |es|
    ensures exists k :: 0 <= k <= |es| && WithEntry(es, e) == es[..k] + [e] + es[k..]
              && (forall i :: 0 <= i < k ==> es[i].pos < e.pos) && (k < |es| ==> es[k].pos >= e.pos)
    ensures WithoutEntry(es, v)[..v] == es[..v] && WithoutEntry(es, v)[v..] == es[v + 1..]
  {
    var k := Slot(es, e.pos);
    assert WithEntry(es, e) == es[..k] + [e] + es[k..];
  }

  lemma EntryAdded(es: seq<Entry>, e: Entry)
    ensures multiset(WithEntry(es, e)) == multiset(es) + multiset{e}
  {
    hide Slot;
    var k := Slot(es, e.pos);
    assert es == es[..k] + es[k..];
  }

  lemma EntryTakenOut(es: seq<Entry>, v: nat)
    requires v < |es|
    ensures multiset(WithoutEntry(es, v)) + multiset{es[v]} == multiset(es)
  {
    assert es == es[..v] + [es[v]] + es[v + 1..];
  }

  /** In order of position: a line is known if it is remembered at a smaller position. */
  lemma KnownWhen(es: seq<Entry>, line: int, pos: int)
    requires Sorted(es)
    ensures Known(es, line, pos) <==> exists i :: 0 <= i < |es| && es[i].line == line && es[i].pos < pos
  {
    var k := Slot(es, pos);
    if i :| 0 <= i < |es| && es[i].line == line && es[i].pos < pos {
      assert i < k;
    }
  }

  /** The gap of an entry is the distance that is left between its neighbours without it. */
  lemma GapIsLeft(es: seq<Entry>, i: nat)
    requires i < |es| - 1
    ensures var es' := WithoutEntry(es, i);
      TrueGap(es, i) == if i == 0 then es'[0].pos else es'[i].pos - es'[i - 1].pos
  {
  }

  lemma WithEntrySorted(es: seq<Entry>, e: Entry)
    requires Sorted(es) && e.pos >= 0
    ensures Sorted(WithEntry(es, e))
  {
  }

  lemma InsertGap(es: seq<Entry>, e: Entry, k: nat, i: nat)
    requires k <= |es| && i < |es| && (i < k - 1 || i > k + 1)
    ensures var o := if i < k then i else i - 1;
      o < |es| - 1 && TrueGap(es[..k] + [e] + es[k..], i) == TrueGap(es, o)
  {
    var es' := es[..k] + [e] + es[k..];
    assert es'[i + 1] == es[if i < k then i + 1 else i];
    assert i > 0 ==> es'[i - 1] == es[if i < k then i - 1 else i - 2];
  }

  /** Away from the new entry true gaps stay what they were. */
  lemma WithEntryGap(es: seq<Entry>, e: Entry, i: int)
    requires 0 <= i < |es| && (i < Slot(es, e.pos) - 1 || i > Slot(es, e.pos) + 1)
    ensures var o := if i < Slot(es, e.pos) then i else i - 1;
      o < |es| - 1 && TrueGap(WithEntry(es, e), i) == TrueGap(es, o)
  {
    InsertGap(es, e, Slot(es, e.pos), i);
  }

  /** Taking an entry out widens the true gaps of its neighbours, and leaves those of the others. */
  lemma WithoutEntryGap(es: seq<Entry>, v: nat, i: int)
    requires Sorted(es) && v < |es| && 0 <= i < |es| - 2
    ensures TrueGap(WithoutEntry(es, v), i) >= TrueGap(es, if i < v then i else i + 1)
    ensures i != v - 1 && i != v ==> TrueGap(WithoutEntry(es, v), i) == TrueGap(es, if i < v then i else i + 1)
  {
  }

  // ---------------------------------------------------------------- inserting

  /** Recompute the gap of an entry, unless it is the anchor or the last. */
  method CalcGap(anchor: LineNum, p: LineNum, ghost list: seq<LineNum>, ghost i: int)
    requires Ring(anchor, list) && anchor.pos == 0 && -1 <= i <= |list| && p == At(anchor, list, i)
    modifies p`gap
    ensures p.gap == if 0 <= i < |list| - 1 then TrueGap(Entries(list), i) else old(p.gap)
  {
    if i >= 0 {
      RingAt(anchor, list, i - 1);
    }
    if i < |list| {
      RingAt(anchor, list, i);
    }
    if p == anchor || p.next == anchor {
      return;
    }
    p.gap := p.next.pos - p.prev.pos;
  }

  lemma InsertedAt(list: seq<LineNum>, k: nat, node: LineNum, i: int)
    requires k <= |list| && 0 <= i <= |list| && i != k
    ensures |Inserted(list, k, node)| == |list| + 1
    ensures Inserted(list, k, node)[i] == list[if i < k then i else i - 1]
  {
  }

  lemma InsertedThere(list: seq<LineNum>, k: nat, node: LineNum)
    requires k <= |list|
    ensures |Inserted(list, k, node)| == |list| + 1 && Inserted(list, k, node)[k] == node
  {
  }

  lemma EntriesInserted(list: seq<LineNum>, k: nat, node: LineNum)
    requires k == Slot(Entries(list), node.pos)
    ensures Entries(Inserted(list, k, node)) == WithEntry(Entries(list), Entry(node.pos, node.line))
  {
    hide Entries, Slot, Inserted;
    var l', es' := Inserted(list, k, node), WithEntry(Entries(list), Entry(node.pos, node.line));
    InsertedThere(list, k, node);
    forall i | 0 <= i < |l'|
      ensures Entries(l')[i] == es'[i]
    {
      if i != k {
        InsertedAt(list, k, node, i);
      }
    }
  }

  /** Fill the fields of the new entry and link it in at its place. */
  method Place(anchor: LineNum, node: LineNum, nextp: LineNum, prevp: LineNum, pos: int, line: int,
               ghost list: seq<LineNum>, ghost stale: set<LineNum>, ghost k: nat)
    requires Ring(anchor, list) && GapsRecorded(list, stale)
    requires node != anchor && node !in list && k == Slot(Entries(list), pos)
    requires nextp == At(anchor, list, k) && prevp == At(anchor, list, k - 1)
    modifies node`next, node`prev, node`pos, node`line, anchor`next, anchor`prev, list`next, list`prev
    ensures var l' := Inserted(list, k, node);
      && Ring(anchor, l') && GapsElsewhere(l', stale, k)
      && Entries(l') == WithEntry(old(Entries(list)), Entry(pos, line))
  {
    hide Ring, Entries, WithEntry, TrueGap, Inserted, Slot;
    ghost var es, e := Entries(list), Entry(pos, line);
    ghost var l' := Inserted(list, k, node);
    node.pos := pos;
    node.line := line;
    assert Entries(list) == es;
    EntriesInserted(list, k, node);
    assert Entries(l') == WithEntry(es, e);
    label L:
    LinkIn(anchor, node, nextp, prevp, list, k);
    assert Entries(l') == old@L(Entries(l'));
    InsertedMembers(list, k, node);
    forall i | 0 <= i < |l'| - 1 && (i < k - 1 || i > k + 1)
      ensures GapRight(l', stale, i)
    {
      WithEntryGap(es, e, i);
      InsertedAt(list, k, node, i);
      ghost var o := if i < k then i else i - 1;
      assert old(GapRight(list, stale, o));
    }
  }

  /** Recompute the gap of a new entry and of its neighbours. */
  method FixGaps(anchor: LineNum, node: LineNum, nextp: LineNum, prevp: LineNum, ghost l': seq<LineNum>,
                 ghost stale: set<LineNum>, ghost k: nat)
    requires Ring(anchor, l') && anchor.pos == 0 && GapsElsewhere(l', stale, k) && k < |l'|
    requires node == l'[k] && nextp == At(anchor, l', k + 1) && prevp == At(anchor, l', k - 1)
    modifies node`gap, nextp`gap, prevp`gap
    ensures GapsRecorded(l', stale - Around(l', k))
  {
    hide Ring, Entries, TrueGap;
    RingDistinct(anchor, l');
    ghost var es := Entries(l');
    CalcGap(anchor, node, l', k);
    CalcGap(anchor, nextp, l', k + 1);
    CalcGap(anchor, prevp, l', k - 1);
    assert Entries(l') == es;
    forall i | 0 <= i < |l'| - 1
      ensures GapRight(l', stale - Around(l', k), i)
    {
      if i < k - 1 || i > k + 1 {
        assert l'[i].gap == old(l'[i].gap) && l'[i] !in Around(l', k);
        assert old(GapRight(l', stale, i));
      }
    }
  }

  lemma InsertedNeighbours(anchor: LineNum, list: seq<LineNum>, k: nat, node: LineNum)
    requires k <= |list|
    ensures |Inserted(list, k, node)| == |list| + 1
    ensures var l' := Inserted(list, k, node);
      l'[k] == node && At(anchor, l', k + 1) == At(anchor, list, k) && At(anchor, l', k - 1) == At(anchor, list, k - 1)
  {
  }

  /** Link a filled entry in at its place and bring the gaps around it up to date. */
  method Insert(anchor: LineNum, node: LineNum, nextp: LineNum, lno: int, pos: int, ghost list: seq<LineNum>,
                ghost stale: set<LineNum>, ghost k: nat)
    requires Ring(anchor, list) && GapsRecorded(list, stale) && anchor.pos == 0
    requires node != anchor && node !in list && k == Slot(Entries(list), pos) && nextp == At(anchor, list, k)
    modifies node, anchor`next, anchor`prev, anchor`gap, list`next, list`prev, list`gap
    ensures var l' := Inserted(list, k, node);
      && |l'| == |list| + 1 && Ring(anchor, l') && GapsRecorded(l', stale - Around(l', k))
      && Entries(l') == WithEntry(old(Entries(list)), Entry(pos, lno))
  {
    hide Ring, GapsRecorded, GapsElsewhere, Entries, WithEntry, Inserted, Around;
    RingAt(anchor, list, k - 1);
    InsertedNeighbours(anchor, list, k, node);
    ghost var l' := Inserted(list, k, node);
    var prevp := nextp.prev;
    Place(anchor, node, nextp, prevp, pos, lno, list, stale, k);
    label L:
    FixGaps(anchor, node, nextp, prevp, l', stale, k);
    assert Entries(l') == old@L(Entries(l'));
  }

  lemma RingDistinct(anchor: LineNum, list: seq<LineNum>)
    requires Ring(anchor, list)
    ensures anchor !in list && Distinct(list)
  {
  }

  // ---------------------------------------------------------------- evicting

  /** Entry `v` is the one to give up: the last of those with the least recorded gap, never the last entry. */
  ghost predicate Victim(list: seq<LineNum>, v: int)
    reads list`gap
  {
    && 0 <= v < |list| - 1
    && (forall i :: 0 <= i < |list| - 1 ==> list[v].gap <= list[i].gap)
    && (forall i :: v < i < |list| - 1 ==> list[v].gap < list[i].gap)
  }

  /** Any other entry but the last has a greater recorded gap, or the same and comes before it. */
  lemma VictimIs(list: seq<LineNum>, v: int, u: int)
    requires Victim(list, v) && 0 <= u < |list| - 1 && u != v
    ensures list[u].gap > list[v].gap || (list[u].gap == list[v].gap && u < v)
  {
  }

  method FindVictim(anchor: LineNum, ghost list: seq<LineNum>) returns (spare: LineNum, ghost v: nat)
    requires Ring(anchor, list) && |list| >= 2
    ensures Victim(list, v) && spare == list[v]
  {
    hide Ring;
    RingAt(anchor, list, -1);
    RingAt(anchor, list, 0);
    var p := anchor.next;
    var mingap := p.gap;
    spare, v := p, 0;
    ghost var k := 0;
    while p.next != anchor
      invariant 0 <= k < |list| && p == list[k] && (p.next == anchor <==> k == |list| - 1)
      invariant 0 <= v < |list| - 1 && v <= k && spare == list[v] && mingap == list[v].gap
      invariant forall i :: 0 <= i < k ==> list[v].gap <= list[i].gap
      invariant forall i :: v < i < k ==> list[v].gap < list[i].gap
      decreases |list| - k
    {
      if p.gap <= mingap {
        spare, mingap, v := p, p.gap, k;
      }
      RingAt(anchor, list, k);
      RingAt(anchor, list, k + 1);
      p, k := p.next, k + 1;
    }
  }

  lemma RemovedAt(list: seq<LineNum>, v: nat, i: int)
    requires v < |list| && 0 <= i < |list| - 1
    ensures |Removed(list, v)| == |list| - 1 && Removed(list, v)[i] == list[if i < v then i else i + 1]
  {
  }

  lemma EntriesRemoved(list: seq<LineNum>, v: nat)
    requires v < |list|
    ensures Entries(Removed(list, v)) == WithoutEntry(Entries(list), v)
  {
    hide Removed, WithoutEntry;
    RemovedLength(list, v);
    forall i | 0 <= i < |list| - 1
      ensures Entries(Removed(list, v))[i] == WithoutEntry(Entries(list), v)[i]
    {
      RemovedAt(list, v, i);
      WithoutEntryAt(Entries(list), v, i);
    }
  }

  lemma RemovedLength(list: seq<LineNum>, v: nat)
    requires v < |list|
    ensures |Removed(list, v)| == |list| - 1 && |WithoutEntry(Entries(list), v)| == |list| - 1
  {
  }

  lemma WithoutEntryAt(es: seq<Entry>, v: nat, i: int)
    requires v < |es| && 0 <= i < |es| - 1
    ensures |WithoutEntry(es, v)| == |es| - 1 && WithoutEntry(es, v)[i] == es[if i < v then i else i + 1]
  {
  }

  /** Unlink the victim. */
  method Evict(anchor: LineNum, ghost list: seq<LineNum>, ghost stale: set<LineNum>)
    returns (spare: LineNum, ghost v: nat)
    requires Ring(anchor, list) && |list| >= 2 && GapsRecorded(list, stale) && Sorted(Entries(list))
    modifies anchor`next, anchor`prev, list`next, list`prev
    ensures Victim(list, v) && spare == list[v]
    ensures Ring(anchor, Removed(list, v)) && GapsRecorded(Removed(list, v), stale + Beside(list, v))
    ensures Entries(Removed(list, v)) == WithoutEntry(old(Entries(list)), v)
  {
    hide Ring, Entries, TrueGap, Removed, WithoutEntry, Sorted;
    ghost var es := Entries(list);
    spare, v := FindVictim(anchor, list);
    ghost var l' := Removed(list, v);
    EntriesRemoved(list, v);
    RemovedLength(list, v);
    label L:
    Unlink(anchor, spare, list, v);
    assert Entries(l') == old@L(Entries(l'));
    forall i | 0 <= i < |l'| - 1
      ensures GapRight(l', stale + Beside(list, v), i)
    {
      RemovedAt(list, v, i);
      WithoutEntryGap(es, v, i);
      ghost var o := if i < v then i else i + 1;
      assert old(GapRight(list, stale, o));
    }
  }

  // ---------------------------------------------------------------- the cache

  /** The nodes of the free list. */
  ghost predicate FreeChain(head: LineNum?, free: seq<LineNum>)
    reads free`next
  {
    && Distinct(free)
    && head == (if free == [] then null else free[0])
    && forall i {:trigger free[i].next} :: 0 <= i < |free| ==>
         free[i].next == if i + 1 == |free| then null else free[i + 1]
  }

  /** Every node of the pool is in the list, in the free list or loose, and in one of them only. */
  ghost predicate Partition(pool: seq<LineNum>, list: seq<LineNum>, free: seq<LineNum>, loose: set<LineNum>) {
    && (forall x: LineNum :: x in pool ==> x in list || x in free || x in loose)
    && (forall x: LineNum :: x in list ==> x in pool)
    && (forall x: LineNum :: x in free ==> x in pool)
    && (forall x: LineNum :: x in loose ==> x in pool)
    && (forall x: LineNum :: x in list ==> x !in free && x !in loose)
    && (forall x: LineNum :: x in free ==> x !in loose)
    && |list| + |free| + |loose| == |pool|
  }

  /** A loose node that enters the list. */
  lemma InsertedPartition(pool: seq<LineNum>, list: seq<LineNum>, free: seq<LineNum>, loose: set<LineNum>, k: nat,
                          x: LineNum)
    requires Partition(pool, list, free, loose) && x in loose && k <= |list|
    ensures Partition(pool, Inserted(list, k, x), free, loose - {x})
    ensures |Inserted(list, k, x)| == |list| + 1
    ensures forall i :: 0 <= i < |free| ==> free[i] in free && free[i] !in list && free[i] != x
  {
    InsertedMembers(list, k, x);
  }

  class Lines {
    const anchor: LineNum
    const pool: seq<LineNum>
    var freelist: LineNum?
    var spare: LineNum?

    /** The entries in order, and the free nodes in order. */
    ghost var list: seq<LineNum>
    ghost var free: seq<LineNum>

    /** The entries beside which another has been given up since their gaps were computed. */
    ghost var stale: set<LineNum>

    constructor ()
      ensures Valid() && list == [] && stale == {} && fresh(anchor) && forall x: LineNum :: x in pool ==> fresh(x)
    {
      var a := new LineNum();
      var nodes: seq<LineNum> := [];
      for i := 0 to NPOOL
        invariant |nodes| == i && Distinct(nodes)
        invariant forall x: LineNum :: x in nodes ==> fresh(x) && x != a
      {
        var p := new LineNum();
        nodes := nodes + [p];
      }
      anchor, pool := a, nodes;
      new;
      assert forall i :: 0 <= i < |pool| ==> pool[i] in nodes;
      ClrLinenum();
    }

    /** The fixed nodes: the anchor, which stands for line 1 at position 0, and the pool. */
    ghost predicate Nodes()
      reads anchor`pos, anchor`line
    {
      && |pool| == NPOOL && Distinct(pool) && anchor !in pool
      && anchor.pos == 0 && anchor.line == 1
    }

    ghost predicate Valid()
      reads this, anchor, pool, list, free
    {
      && Nodes()
      && Ring(anchor, list) && FreeChain(freelist, free)
      && spare != null && Partition(pool, list, free, {spare})
      && Sorted(Entries(list)) && GapsRecorded(list, stale)
    }

    /** There is room for 49 lines. */
    lemma RoomForLines()
      requires Valid()
      ensures |list| + |free| == 49
    {
      assert |{spare}| == 1;
    }

    /** Forget every line: all nodes but the spare go on the free list. */
    method ClrLinenum()
      requires |pool| == NPOOL && Distinct(pool) && anchor !in pool
      modifies this, anchor, pool
      ensures Valid() && list == [] && stale == {}
    {
      for i := 0 to NPOOL - 2
        modifies pool`next
        invariant forall j {:trigger pool[j].next} :: 0 <= j < i ==> pool[j].next == pool[j + 1]
      {
        pool[i].next := pool[i + 1];
      }
      pool[NPOOL - 2].next := null;
      freelist := pool[0];
      spare := pool[NPOOL - 1];
      anchor.next, anchor.prev := anchor, anchor;
      anchor.gap, anchor.pos, anchor.line := 0, 0, 1;
      list, free, stale := [], pool[..NPOOL - 1], {};
      assert pool == pool[..NPOOL - 1] + [pool[NPOOL - 1]];
    }

    /** The list without a spare: what holds between taking a node and giving one up. */
    ghost predicate Shaped(loose: set<LineNum>)
      reads this, anchor, pool, list, free
    {
      && Nodes() && FreeChain(freelist, free) && Partition(pool, list, free, loose)
      && Ring(anchor, list) && Sorted(Entries(list)) && GapsRecorded(list, stale)
    }

    /** Take a node for a new entry: a free one, or else the spare. */
    method TakeNode() returns (node: LineNum)
      requires Valid()
      modifies `freelist, `spare, `free
      ensures Shaped(if spare == null then {node} else {node, spare}) && node !in list && node != anchor
      ensures if |old(free)| > 0
        then node == old(free)[0] && free == old(free)[1..] && spare == old(spare) && node != spare
        else node == old(spare) && free == [] && spare == null
    {
      hide Ring, Sorted, GapsRecorded;
      if freelist != null {
        node := freelist;
        freelist := freelist.next;
        free := free[1..];
      } else {
        node := spare;
        spare := null;
      }
    }

    /** Give up the least interesting entry; its node becomes the spare. */
    method EvictOne() returns (ghost v: nat)
      requires Shaped({}) && free == []
      modifies this, anchor`next, anchor`prev, list`next, list`prev
      ensures Valid() && free == []
      ensures Victim(old(list), v) && v < |old(list)| - 1
      ensures list == Removed(old(list), v) && spare == old(list)[v] && stale == old(stale) + Beside(old(list), v)
      ensures Entries(list) == WithoutEntry(old(Entries(list)), v)
    {
      hide Ring, Sorted, GapsRecorded, Entries, Removed, WithoutEntry, FreeChain, Beside;
      RingDistinct(anchor, list);
      RemovedSorted(Entries(list));
      ghost var l := list;
      spare, v := Evict(anchor, list, stale);
      RemovedMembers(l, v);
      list := Removed(l, v);
      stale := stale + Beside(l, v);
    }

    lemma RemovedSorted(es: seq<Entry>)
      requires Sorted(es)
      ensures forall v: nat :: v < |es| ==> Sorted(WithoutEntry(es, v))
    {
    }

    /** Find where the position belongs; `known` when the line turns up on the way. */
    method FindSlot(lno: int, pos: int) returns (known: bool, nextp: LineNum, ghost k: nat)
      requires Valid()
      ensures known == Known(Entries(list), lno, pos)
      ensures !known ==> k == Slot(Entries(list), pos) && nextp == At(anchor, list, k)
    {
      hide Ring, Sorted, GapsRecorded, FreeChain, Partition, Entries, Slot;
      RingAt(anchor, list, -1);
      nextp, k := anchor.next, 0;
      while nextp != anchor && nextp.pos < pos
        invariant k <= |list| && nextp == At(anchor, list, k) && (nextp == anchor <==> k == |list|)
        invariant k <= Slot(Entries(list), pos)
        invariant forall i :: 0 <= i < k ==> list[i].line != lno
        decreases |list| - k
      {
        if nextp.line == lno {
          known := true;
          assert Entries(list)[k].line == lno;
          SlotBeyond(Entries(list), pos, k);
          return;
        }
        RingAt(anchor, list, k);
        SlotBeyond(Entries(list), pos, k);
        nextp, k := nextp.next, k + 1;
      }
      known := false;
    }

    lemma SlotBeyond(es: seq<Entry>, pos: int, k: nat)
      requires k <= Slot(es, pos) && k < |es| && es[k].pos < pos
      ensures k < Slot(es, pos)
    {
    }

    /** Link a taken node in as the entry for a line. */
    method Enter(node: LineNum, nextp: LineNum, lno: int, pos: int, ghost k: nat, ghost loose: set<LineNum>)
      requires Shaped(loose) && node in loose && node !in list && node != anchor && pos >= 0
      requires k == Slot(Entries(list), pos) && nextp == At(anchor, list, k)
      modifies `list, `stale, node, anchor`next, anchor`prev, anchor`gap, list`next, list`prev, list`gap
      ensures Shaped(loose - {node}) && Entries(list) == WithEntry(old(Entries(list)), Entry(pos, lno))
      ensures |list| == |old(list)| + 1 && k < |list| && list == Inserted(old(list), k, node)
      ensures stale == old(stale) - Around(list, k)
    {
      hide Ring, Sorted, GapsRecorded, Entries, WithEntry, Inserted, FreeChain, Partition;
      InsertedPartition(pool, list, free, loose, k, node);
      WithEntrySorted(Entries(list), Entry(pos, lno));
      Insert(anchor, node, nextp, lno, pos, list, stale, k);
      list := Inserted(list, k, node);
      stale := stale - Around(list, k);
    }

    /**
     * Remember a line.  Nothing happens when it turns up before its place; otherwise a free node
     * goes in at its place, or else the spare, and then the entry with the least recorded gap,
     * never the last, is given up.  A gap is brought up to date when a neighbour comes and gets
     * stale when a neighbour goes; no other changes.  `mid` is the list before the eviction of
     * its entry `v`.
     */
    method AddLnum(lno: int, pos: int) returns (ghost mid: seq<LineNum>, ghost v: nat)
      requires Valid() && pos >= 0
      modifies this, anchor, pool
      ensures Valid()
      ensures var es := old(Entries(list));
        if Known(es, lno, pos) then list == old(list) && Entries(list) == es && stale == old(stale)
        else
          && mid == Inserted(old(list), Slot(es, pos), if |old(free)| > 0 then old(free)[0] else old(spare))
          && Slot(es, pos) < |mid|
          && if |old(free)| > 0
             then list == mid && stale == old(stale) - Around(mid, Slot(es, pos))
             else
               && Victim(mid, v) && list == Removed(mid, v) && spare == mid[v]
               && stale == old(stale) - Around(mid, Slot(es, pos)) + Beside(mid, v)
      ensures var es, e := old(Entries(list)), Entry(pos, lno);
        if Known(es, lno, pos) then true
        else if |old(free)| > 0 then Entries(list) == WithEntry(es, e)
        else v < |es| && Entries(list) == WithoutEntry(WithEntry(es, e), v)
      ensures !Known(old(Entries(list)), lno, pos) ==> Added(old(Entries(list)), Entries(list), Entry(pos, lno))
    {
      hide Valid, Entries, WithEntry, WithoutEntry, Known, Slot, Victim, Removed, Inserted, Around, Beside;
      mid, v := list, 0;
      var known, nextp, k := FindSlot(lno, pos);
      if !known {
        mid, v := LinkLine(lno, pos, nextp, k);
      }
    }

    /** The part of `add_lnum` after the search for the place. */
    method LinkLine(lno: int, pos: int, nextp: LineNum, ghost k: nat) returns (ghost mid: seq<LineNum>, ghost v: nat)
      requires Valid() && pos >= 0
      requires k == Slot(Entries(list), pos) && nextp == At(anchor, list, k)
      modifies this, anchor, pool
      ensures Valid()
      ensures mid == Inserted(old(list), k, if |old(free)| > 0 then old(free)[0] else old(spare)) && k < |mid|
      ensures if |old(free)| > 0
        then list == mid && stale == old(stale) - Around(mid, k)
        else
          && Victim(mid, v) && v < |mid| && list == Removed(mid, v) && spare == mid[v]
          && stale == old(stale) - Around(mid, k) + Beside(mid, v)
      ensures var es, e := old(Entries(list)), Entry(pos, lno);
        if |old(free)| > 0 then Entries(list) == WithEntry(es, e)
        else v < |es| && Entries(list) == WithoutEntry(WithEntry(es, e), v)
    {
      hide Valid, Shaped, Entries, WithEntry, WithoutEntry, Victim, Removed, Inserted, Around, Beside, Slot;
      v := 0;
      ListInPool();
      var node := TakeNode();
      ghost var loose := if spare == null then {node} else {node, spare};
      ShapedInPool(loose);
      Enter(node, nextp, lno, pos, k, loose);
      mid := list;
      if spare == null {
        assert {node} - {node} == {};
        ShapedInPool({});
        v := EvictOne();
      } else {
        assert {node, spare} - {node} == {spare};
        ShapedValid();
      }
    }

    lemma ListInPool()
      requires Valid()
      ensures forall i :: 0 <= i < |list| ==> list[i] in pool
      ensures forall x: LineNum :: x in free ==> x in pool
      ensures spare != null && spare in pool && anchor !in pool
    {
      assert forall i :: 0 <= i < |list| ==> list[i] in list;
    }

    lemma ShapedInPool(loose: set<LineNum>)
      requires Shaped(loose)
      ensures forall i :: 0 <= i < |list| ==> list[i] in pool
      ensures forall x: LineNum :: x in loose ==> x in pool
    {
      assert forall i :: 0 <= i < |list| ==> list[i] in list;
    }

    lemma ShapedValid()
      requires spare != null && Shaped({spare})
      ensures Valid()
    {
    }

    /** The first entry at or after a position; the anchor if there is none. */
    method NearestPos(pos: int) returns (p: LineNum, ghost k: nat)
      requires Valid()
      ensures k <= |list| && p == At(anchor, list, k) && (p == anchor <==> k == |list|)
      ensures p.prev == At(anchor, list, k - 1)
      ensures forall i :: 0 <= i < k ==> list[i].pos < pos
      ensures k < |list| ==> list[k].pos >= pos
    {
      hide Ring, Sorted, GapsRecorded, FreeChain, Partition, Entries;
      RingAt(anchor, list, -1);
      p, k := anchor.next, 0;
      while p != anchor && p.pos < pos
        invariant k <= |list| && p == At(anchor, list, k) && (p == anchor <==> k == |list|)
        invariant p.prev == At(anchor, list, k - 1)
        invariant forall i :: 0 <= i < k ==> list[i].pos < pos
        decreases |list| - k
      {
        RingAt(anchor, list, k);
        p, k := p.next, k + 1;
      }
    }

    /** The first entry at or after a line number; the anchor if there is none. */
    method NearestLine(lno: int) returns (p: LineNum, ghost k: nat)
      requires Valid()
      ensures k <= |list| && p == At(anchor, list, k) && (p == anchor <==> k == |list|)
      ensures p.prev == At(anchor, list, k - 1)
      ensures forall i :: 0 <= i < k ==> list[i].line < lno
      ensures k < |list| ==> list[k].line >= lno
    {
      hide Ring, Sorted, GapsRecorded, FreeChain, Partition, Entries;
      RingAt(anchor, list, -1);
      p, k := anchor.next, 0;
      while p != anchor && p.line < lno
        invariant k <= |list| && p == At(anchor, list, k) && (p == anchor <==> k == |list|)
        invariant p.prev == At(anchor, list, k - 1)
        invariant forall i :: 0 <= i < k ==> list[i].line < lno
        decreases |list| - k
      {
        RingAt(anchor, list, k);
        p, k := p.next, k + 1;
      }
    }
  }
}
