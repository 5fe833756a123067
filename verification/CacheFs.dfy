/** The directory cache: a doubly linked list in recency order, a map and two limits. */
module CacheFs {
  import opened Basics

  /** A directory entry, by identity. */
  type FsEntry = nat

  datatype Item = Item(id: string, entries: seq<FsEntry>, expireAfter: int)

  predicate Live(item: Item, now: int) {
    now < item.expireAfter
  }

  // ---------- the cache as a list of items, most recently used first ----------

  /** `stale` records that the head still points back to its former neighbour. */
  datatype Lru = Lru(items: seq<Item>, stale: bool)

  /** The number of directory entries in the first n items. */
  function SizeOf(items: seq<Item>, n: nat): nat
    requires n <= |items|
  {
    if n == 0 then 0 else SizeOf(items, n - 1) + |items[n - 1].entries|
  }

  function Size(items: seq<Item>): nat {
    SizeOf(items, |items|)
  }

  function Without<T>(s: seq<T>, k: nat): seq<T>
    requires k < |s|
  {
    s[..k] + s[k + 1..]
  }

  /** `rest` is the sequence without its k-th element. */
  ghost predicate IsWithout<T>(s: seq<T>, k: nat, rest: seq<T>)
    requires k < |s|
  {
    |rest| == |s| - 1 && forall i :: 0 <= i < |rest| ==> rest[i] == s[if i < k then i else i + 1]
  }

  /** `s'` has the k-th item in front of the others. */
  ghost predicate IsInFront(s: seq<Item>, k: nat, s': seq<Item>)
    requires k < |s|
  {
    |s'| == |s| && s'[0] == s[k] && exists rest :: IsWithout(s, k, rest) && IsWithout(s', 0, rest)
  }

  lemma InFrontIsUnique(s: seq<Item>, k: nat, s': seq<Item>)
    requires k < |s| && IsInFront(s, k, s')
    ensures s' == [s[k]] + Without(s, k)
  {
    var rest :| IsWithout(s, k, rest) && IsWithout(s', 0, rest);
    WithoutIsUnique(s, k, rest);
    WithoutIsUnique(s', 0, rest);
    assert s' == [s'[0]] + Without(s', 0);
  }

  lemma WithoutIsUnique<T>(s: seq<T>, k: nat, rest: seq<T>)
    requires k < |s| && IsWithout(s, k, rest)
    ensures rest == Without(s, k)
  {
  }

  lemma SameFirst<T>(s: seq<T>, s': seq<T>, rest: seq<T>)
    requires s != [] && s' != [] && s[0] == s'[0] && IsWithout(s, 0, rest) && IsWithout(s', 0, rest)
    ensures s == s'
  {
    WithoutIsUnique(s, 0, rest);
    WithoutIsUnique(s', 0, rest);
    assert s == [s[0]] + Without(s, 0) && s' == [s'[0]] + Without(s', 0);
  }

  lemma WithoutIsWithout<T>(s: seq<T>, k: nat)
    requires k < |s|
    ensures IsWithout(s, k, s[..k] + s[k + 1..])
  {
  }

  /** The position of an id, or -1. */
  function Find(items: seq<Item>, id: string): (k: int)
    ensures -1 <= k < |items|
    ensures k >= 0 ==> items[k].id == id
    ensures k < 0 <==> forall i :: 0 <= i < |items| ==> items[i].id != id
  {
    if items == [] then -1
    else if items[|items| - 1].id == id then |items| - 1
    else Find(items[..|items| - 1], id)
  }

  ghost predicate Distinct(items: seq<Item>) {
    forall i, j :: 0 <= i < j < |items| ==> items[i].id != items[j].id
  }

  lemma {:induction false} SizeWithout(items: seq<Item>, k: nat, rest: seq<Item>, n: nat)
    requires k < |items| && IsWithout(items, k, rest) && n <= |items|
    ensures SizeOf(items, n) == if n <= k then SizeOf(rest, n) else SizeOf(rest, n - 1) + |items[k].entries|
  {
    if n > 0 {
      SizeWithout(items, k, rest, n - 1);
    }
  }

  // ---------- what a call does ----------

  datatype Limits = Limits(maxDirectories: int, maxDirectoryEntries: int)

  datatype Load = Loaded(raw: seq<FsEntry>) | LoadError

  /** A call of getEntries: the clock when it looks and when it stores, and what the loader would return. */
  datatype Call = Call(id: string, now: int, storedAt: int, ttl: int, load: Load)

  datatype Out = Entries(entries: seq<FsEntry>) | LoadFailed | Panic

  datatype Lookup = Lookup(state: Lru, found: Option<seq<FsEntry>>)

  datatype Reply = Reply(state: Lru, out: Out)

  function LookupSpec(s: Lru, id: string, now: int): Lookup {
    var k := Find(s.items, id);
    if id == "" || k < 0 then Lookup(s, None)
    else if !Live(s.items[k], now) then Lookup(Lru(Without(s.items, k), k > 0 && s.stale), None)
    else if k == 0 then Lookup(s, Some(s.items[0].entries))
    else Lookup(Lru([s.items[k]] + Without(s.items, k), true), Some(s.items[k].entries))
  }

  lemma HitIs(s: Lru, id: string, now: int, k: nat, s': Lru)
    requires id != "" && k < |s.items| && Find(s.items, id) == k && Live(s.items[k], now)
    requires s'.stale == (k > 0 || s.stale)
    requires IsInFront(s.items, k, s'.items)
    ensures LookupSpec(s, id, now) == Lookup(s', Some(s.items[k].entries))
  {
    InFrontIsUnique(s.items, k, s'.items);
    assert s.items == [s.items[0]] + Without(s.items, 0);
  }

  lemma ExpiryIs(s: Lru, id: string, now: int, k: nat, s': Lru)
    requires id != "" && k < |s.items| && Find(s.items, id) == k && !Live(s.items[k], now)
    requires s'.stale == (k > 0 && s.stale)
    requires IsWithout(s.items, k, s'.items)
    ensures LookupSpec(s, id, now) == Lookup(s', None)
  {
    WithoutIsUnique(s.items, k, s'.items);
  }

  /** After a miss the id is not cached (any more). */
  lemma MissMeansAbsent(s: Lru, id: string, now: int)
    requires Distinct(s.items) && LookupSpec(s, id, now).found == None
    ensures id != "" ==> Find(LookupSpec(s, id, now).state.items, id) < 0
  {
  }

  predicate Fits(lim: Limits, items: seq<Item>) {
    Size(items) <= lim.maxDirectoryEntries && |items| <= lim.maxDirectories
  }

  function Evict(lim: Limits, items: seq<Item>): seq<Item> {
    if items == [] || Fits(lim, items) then items else Evict(lim, items[..|items| - 1])
  }

  lemma EvictStep(lim: Limits, items: seq<Item>, rest: seq<Item>)
    requires items != [] && !Fits(lim, items) && IsWithout(items, |items| - 1, rest)
    ensures Evict(lim, rest) == Evict(lim, items)
  {
    assert rest == items[..|items| - 1];
  }

  /** `items'` is `items` with a new one in front. */
  ghost predicate IsAdded(items: seq<Item>, item: Item, items': seq<Item>) {
    items' != [] && items'[0] == item && IsWithout(items', 0, items)
  }

  lemma AddedIsUnique(items: seq<Item>, item: Item, items': seq<Item>)
    requires IsAdded(items, item, items')
    ensures items' == [item] + items
  {
    WithoutIsUnique(items', 0, items);
  }

  function Wrapped(w: FsEntry -> FsEntry, raw: seq<FsEntry>): (r: seq<FsEntry>)
    ensures |r| == |raw|
  {
    seq(|raw|, i requires 0 <= i < |raw| => w(raw[i]))
  }

  function NewItem(c: Call, w: FsEntry -> FsEntry): Item
    requires c.load.Loaded?
  {
    Item(c.id, Wrapped(w, c.load.raw), c.storedAt + c.ttl)
  }

  function GetSpec(lim: Limits, s: Lru, c: Call, w: FsEntry -> FsEntry): Reply {
    var l := LookupSpec(s, c.id, c.now);
    if l.found.Some? then Reply(l.state, Entries(l.found.value)) else MissSpec(lim, l.state, c, w)
  }

  function MissSpec(lim: Limits, s: Lru, c: Call, w: FsEntry -> FsEntry): Reply {
    if c.load.LoadError? then Reply(s, LoadFailed) else KeepSpec(lim, s, NewItem(c, w), c.load.raw)
  }

  /** A directory that is too big is not kept and comes back wrapped; one that is kept comes back as loaded. */
  function KeepSpec(lim: Limits, s: Lru, item: Item, raw: seq<FsEntry>): Reply {
    if |item.entries| > lim.maxDirectoryEntries then Reply(s, Entries(item.entries))
    else Reply(Lru(Evict(lim, [item] + s.items), false), if lim.maxDirectories < 0 then Panic else Entries(raw))
  }

  /** The call finds its entry expired at the head, and the head points back. */
  predicate ExpiresAtStaleHead(s: Lru, id: string, now: int) {
    id != "" && s.stale && Find(s.items, id) == 0 && !Live(s.items[0], now)
  }

  /** What the call loads, if it loads, is small enough to be kept. */
  predicate Kept(lim: Limits, c: Call) {
    c.load.Loaded? && |c.load.raw| <= lim.maxDirectoryEntries
  }

  /** The call stores a second entry without an id. */
  predicate StoresEmptyIdTwice(lim: Limits, s: Lru, c: Call) {
    c.id == "" && Find(s.items, "") >= 0 && Kept(lim, c)
  }

  /** The call breaks the list: either way the list and the map differ afterwards. */
  predicate Breaks(lim: Limits, s: Lru, c: Call) {
    ExpiresAtStaleHead(s, c.id, c.now) || StoresEmptyIdTwice(lim, s, c)
  }

  /** The call finds its entry at the end of the list. */
  predicate PromotesLast(s: Lru, c: Call) {
    c.id != "" && 0 < Find(s.items, c.id) == |s.items| - 1 && Live(s.items[|s.items| - 1], c.now)
  }

  /** The call breaks the list, keeps what it loads, has to evict, and the last entry is empty. */
  predicate Endless(lim: Limits, s: Lru, c: Call) {
    && ExpiresAtStaleHead(s, c.id, c.now) && Kept(lim, c) && s.items[|s.items| - 1].entries == []
    && Size(s.items) - |s.items[0].entries| + |c.load.raw| > lim.maxDirectoryEntries
  }

  // ---------- the linked list ----------

  class Entry {
    const item: Item
    var prev: Entry?
    var next: Entry?

    constructor (item: Item)
      ensures this.item == item && prev == null && next == null
    {
      this.item, prev, next := item, null, null;
    }
  }

  function Items(list: seq<Entry>): (items: seq<Item>)
    ensures |items| == |list| && forall i :: 0 <= i < |list| ==> items[i] == list[i].item
  {
    seq(|list|, i requires 0 <= i < |list| => list[i].item)
  }

  /** Neighbours point to each other. */
  ghost predicate Joined(a: Entry, b: Entry)
    reads a, b
  {
    a.next == b && b.prev == a
  }

  ghost predicate JoinedAt(list: seq<Entry>, i: int)
    requires 0 < i < |list|
    reads list
  {
    Joined(list[i - 1], list[i])
  }

  ghost predicate Links(list: seq<Entry>)
    reads list
  {
    forall i :: 0 < i < |list| ==> JoinedAt(list, i)
  }

  /** The chain from head to tail is the list; the head's own back pointer is not constrained. */
  ghost predicate Linked(list: seq<Entry>, head: Entry?, tail: Entry?)
    reads list
  {
    && Links(list)
    && (if list == [] then head == null && tail == null
        else head == list[0] && tail == list[|list| - 1] && list[|list| - 1].next == null)
  }

  /** No entry is in the list twice: its id knows its place. */
  ghost predicate Ranked(list: seq<Entry>, places: map<string, nat>) {
    forall i :: 0 <= i < |list| ==> list[i].item.id in places && places[list[i].item.id] == i
  }

  /** The map finds exactly the entries of the list, each at its place. */
  ghost predicate Placed(list: seq<Entry>, data: map<string, Entry>, places: map<string, nat>) {
    && |data| == |list| && data.Keys == places.Keys
    && Ranked(list, places)
    && (forall id :: id in places ==> places[id] < |list| && data[id] == list[places[id]] && data[id].item.id == id)
  }

  /** Taking an entry out of list and map. */
  lemma PlacedWithout(list: seq<Entry>, data: map<string, Entry>, places: map<string, nat>, k: nat)
      returns (rest: seq<Entry>, places': map<string, nat>)
    requires Placed(list, data, places) && k < |list|
    ensures IsWithout(list, k, rest) && Placed(rest, data - {list[k].item.id}, places')
  {
    var e := list[k];
    rest := list[..k] + list[k + 1..];
    WithoutIsWithout(list, k);
    places' := map x | x in places && x != e.item.id ::
      if places[x] < k || places[x] == 0 then places[x] else places[x] - 1;
    PlacedTakenOut(list, data, places, k, rest, data - {e.item.id}, places');
  }

  lemma PlacedTakenOut(list: seq<Entry>, data: map<string, Entry>, places: map<string, nat>, k: nat,
                                          rest: seq<Entry>, data': map<string, Entry>, places': map<string, nat>)
    requires Placed(list, data, places) && k < |list| && IsWithout(list, k, rest)
    requires places'.Keys == places.Keys - {list[k].item.id}
    requires forall x :: x in places' ==>
               places'[x] == if places[x] < k || places[x] == 0 then places[x] else places[x] - 1
    requires data' == data - {list[k].item.id}
    ensures Placed(rest, data', places')
  {
    OneLess(data, list[k].item.id, list[k]);
    forall i | 0 <= i < |rest|
      ensures rest[i].item.id in places' && places'[rest[i].item.id] == i
    {
      assert rest[i] == list[if i < k then i else i + 1];
    }
    forall id | id in places'
      ensures places'[id] < |rest| && data'[id] == rest[places'[id]] && data'[id].item.id == id
    {
      assert places[id] != k;
    }
  }

  /** Putting an entry in front. */
  lemma PlacedWith(list: seq<Entry>, data: map<string, Entry>, places: map<string, nat>, e: Entry)
      returns (list': seq<Entry>, places': map<string, nat>)
    requires Placed(list, data, places) && e.item.id !in data
    ensures |list'| == |list| + 1 && list'[0] == e && IsWithout(list', 0, list)
    ensures Placed(list', data[e.item.id := e], places')
  {
    list' := [e] + list;
    places' := map x | x in places.Keys + {e.item.id} :: if x == e.item.id then 0 else places[x] + 1;
    forall i | 0 <= i < |list'|
      ensures list'[i].item.id in places' && places'[list'[i].item.id] == i
    {
      if i > 0 {
        assert list'[i] == list[i - 1];
      }
    }
    PlacedInFront(list, data, places, e, list', data[e.item.id := e], places');
  }

  lemma PlacedInFront(list: seq<Entry>, data: map<string, Entry>, places: map<string, nat>, e: Entry,
                                         list': seq<Entry>, data': map<string, Entry>, places': map<string, nat>)
    requires Placed(list, data, places) && e.item.id !in data && list' == [e] + list
    requires places'.Keys == places.Keys + {e.item.id}
    requires forall x :: x in places' ==> places'[x] == if x == e.item.id then 0 else places[x] + 1
    requires data' == data[e.item.id := e] && Ranked(list', places')
    ensures Placed(list', data', places')
  {
    assert places'.Keys == data'.Keys && |data'| == |list'|;
  }

  lemma ItemsWithout(list: seq<Entry>, k: nat, rest: seq<Entry>)
    requires k < |list| && IsWithout(list, k, rest)
    ensures |Items(list)| == |list| && IsWithout(Items(list), k, Items(rest)) && Items(list)[k] == list[k].item
    ensures Size(Items(list)) == Size(Items(rest)) + |list[k].item.entries|
  {
    SizeWithout(Items(list), k, Items(rest), |list|);
  }

  /** Taking an entry to the front. */
  lemma PlacedFirst(list: seq<Entry>, data: map<string, Entry>, places: map<string, nat>, k: nat)
      returns (rest: seq<Entry>, list': seq<Entry>, places': map<string, nat>)
    requires Placed(list, data, places) && k < |list|
    ensures IsWithout(list, k, rest) && |list'| == |list| && list'[0] == list[k] && IsWithout(list', 0, rest)
    ensures Placed(list', data, places') && (k == 0 ==> list' == list)
  {
    var e := list[k];
    var places0;
    rest, places0 := PlacedWithout(list, data, places, k);
    list', places' := PlacedWith(rest, data - {e.item.id}, places0, e);
    assert (data - {e.item.id})[e.item.id := e] == data;
    if k == 0 {
      SameFirst(list, list', rest);
    }
  }

  lemma ItemsAreDistinct(list: seq<Entry>, data: map<string, Entry>, places: map<string, nat>)
    requires Placed(list, data, places)
    ensures Distinct(Items(list))
  {
  }

  ghost predicate Strays(list: seq<Entry>, data: map<string, Entry>) {
    exists i :: 0 <= i < |list| && (list[i].item.id !in data || data[list[i].item.id] != list[i])
  }

  lemma TakenInAnyOrder(data: map<string, Entry>, a: string, b: string)
    ensures data - {a} - {b} == data - {b} - {a} && |data - {b}| <= |data|
  {
    if b in data {
      OneLess(data, b, data[b]);
    }
  }

  lemma OneLess(data: map<string, Entry>, id: string, e: Entry)
    requires id in data && data[id] == e
    ensures |data - {id}| == |data| - 1
  {
    assert (data - {id})[id := e] == data;
  }

  /** What storing a new entry makes of list and map. */
  lemma PutPlan(list: seq<Entry>, data: map<string, Entry>, places: map<string, nat>, e: Entry)
      returns (list': seq<Entry>, places': map<string, nat>)
    requires Placed(list, data, places) && forall i :: 0 <= i < |list| ==> list[i] != e
    ensures |list'| == |list| + 1 && list'[0] == e && IsWithout(list', 0, list)
    ensures e.item.id !in data ==>
              Placed(list', data[e.item.id := e], places') && IsAdded(Items(list), e.item, Items(list'))
    ensures Size(Items(list')) == Size(Items(list)) + |e.item.entries|
    ensures e.item.id in data ==> exists i :: 0 < i < |list'| && list'[i].item.id == e.item.id
  {
    if e.item.id in data {
      list', places' := [e] + list, places;
      assert list'[places[e.item.id] + 1] == data[e.item.id];
    } else {
      list', places' := PlacedWith(list, data, places, e);
    }
    ItemsWithout(list', 0, list);
  }

  lemma ItemsFirst(list: seq<Entry>, k: nat, rest: seq<Entry>, list': seq<Entry>)
    requires k < |list| == |list'| && IsWithout(list, k, rest) && list'[0] == list[k] && IsWithout(list', 0, rest)
    ensures |Items(list)| == |list| && IsInFront(Items(list), k, Items(list'))
    ensures Size(Items(list')) == Size(Items(list))
  {
    ItemsWithout(list, k, rest);
    ItemsWithout(list', 0, rest);
    assert IsInFront(Items(list), k, Items(list'));
  }

  lemma FindIsPlace(list: seq<Entry>, data: map<string, Entry>, places: map<string, nat>, id: string) returns (k: nat)
    requires Placed(list, data, places)
    ensures id !in data <==> Find(Items(list), id) < 0
    ensures id in data ==>
              k < |list| && Find(Items(list), id) == k && data[id] == list[k] && Items(list)[k] == list[k].item
  {
    k := if id in data then places[id] else 0;
  }

  /** How list and map can disagree when the eviction loop starts. */
  datatype Disorder = NoDisorder | IdTwice | HeadSevered | TailKnotted | NoEviction

  /** What counts as the list, and the places in it, after a round of the eviction loop. */
  datatype Rest = Rest(state: Disorder, list: seq<Entry>, places: map<string, nat>)

  class Cache {
    const maxDirectories: int
    const maxDirectoryEntries: int
    var totalDirectoryEntries: int
    var data: map<string, Entry>
    var head: Entry?
    var tail: Entry?
    ghost var list: seq<Entry>
    ghost var places: map<string, nat>
    ghost var repr: set<Entry>

    ghost predicate Stale()
      reads this`head, head
    {
      head != null && head.prev != null
    }

    ghost predicate Chain()
      reads this`head, this`tail, this`list, this`repr, repr
    {
      && (forall i :: 0 <= i < |list| ==> list[i] in repr)
      && Linked(list, head, tail)
      && (head != null ==> head.prev == null || head.prev in repr)
    }

    /** The head points back to the end of the list. */
    ghost predicate PointsToTail()
      reads this`head, this`tail, head
    {
      head != null && head.prev == tail
    }

    /** The neighbours of e are entries of the cache, if there are any. */
    ghost predicate Reaches(e: Entry)
      reads this`repr, e
    {
      (e.prev != null ==> e.prev in repr) && (e.next != null ==> e.next in repr)
    }

    /** What remove writes, whatever the list looks like. */
    twostate predicate Unlinked(e: Entry)
      reads this`head, this`tail, this`repr, repr, e
    {
      && head == old(if e.prev == null then e.next else head)
      && tail == old(if e.next == null then e.prev else tail)
      && (forall x :: x in repr && x in old(repr) ==> x.next == old(if x == e.prev then e.next else x.next))
      && (forall x :: x in repr && x in old(repr) ==> x.prev == old(if x == e.next then e.prev else x.prev))
    }

    method Unlink(e: Entry)
      requires Reaches(e)
      modifies this`head, this`tail, repr
      ensures Unlinked(e)
    {
      if e.prev == null {
        head := e.next;
      } else {
        e.prev.next := e.next;
      }
      if e.next == null {
        tail := e.prev;
      } else {
        e.next.prev := e.prev;
      }
    }

    /** e is the k-th entry of the list, which is `rest` without it. */
    ghost predicate CanRemove(e: Entry, k: nat, rest: seq<Entry>)
      reads this`head, this`tail, this`list, this`places, this`repr, repr
    {
      Chain() && Ranked(list, places) && k < |list| && list[k] == e && IsWithout(list, k, rest)
    }

    /** remove, for the entry at position k: right except for a head that points back. */
    method Remove(e: Entry, ghost k: nat, ghost rest: seq<Entry>)
      requires CanRemove(e, k, rest) || Reaches(e)
      modifies this`head, this`tail, this`list, repr
      ensures old(CanRemove(e, k, rest)) && (k > 0 || !old(Stale())) ==>
                Chain() && (Stale() <==> k > 0 && old(Stale()))
      ensures old(CanRemove(e, k, rest)) && k == 0 && old(Stale()) ==>
                head == e && Trail() && (list != [] ==> (Knot() <==> old(PointsToTail())))
      ensures list == rest && Unlinked(e) && e.prev == old(e.prev)
    {
      ghost var l, can := list, CanRemove(e, k, rest);
      assert can && k > 0 ==> JoinedAt(l, k);
      assert can && k + 1 < |l| ==> JoinedAt(l, k + 1);
      Unlink(e);
      if can && (k > 0 || !old(Stale())) {
        forall i | 0 < i < |rest|
          ensures JoinedAt(rest, i)
        {
          if i < k {
            assert old(JoinedAt(l, i));
          } else if i > k {
            assert old(JoinedAt(l, i + 1));
          }
        }
      }
      if can && k == 0 && old(Stale()) {
        forall i | 0 < i < |rest|
          ensures rest[i].prev == rest[i - 1]
        {
          assert old(JoinedAt(l, i + 1));
        }
      }
      list := rest;
    }

    /** The list can take e in front, and becomes list'. */
    ghost predicate CanAdd(e: Entry, list': seq<Entry>)
      reads this`head, this`tail, this`list, this`repr, repr, e
    {
      && Chain() && list' != [] && list'[0] == e && IsWithout(list', 0, list)
      && (forall i :: 0 <= i < |list| ==> list[i] != e) && (forall i :: 0 < i < |list| ==> list[i] != list[0])
      && (head == null ==> e.next == null) && (e.prev == null || e.prev in repr)
    }

    method AddToHead(e: Entry, ghost list': seq<Entry>)
      requires e != head && (head != null ==> head in repr)
      modifies this`head, this`tail, this`list, this`repr, repr, e
      ensures old(CanAdd(e, list')) ==> Chain()
      ensures list == list' && repr == old(repr) + {e} && head == e && (old(head) != null ==> tail == old(tail))
      ensures forall x :: x in old(repr) && x != e ==>
                x.next == old(x.next) && (x != old(head) ==> x.prev == old(x.prev))
      ensures e.prev == old(e.prev) && e.next == old(if head == null then e.next else head)
    {
      ghost var l, can := list, CanAdd(e, list');
      if head != null {
        e.next := head;
        head.prev := e;
        head := e;
      } else {
        head := e;
        tail := e;
      }
      list, repr := list', repr + {e};
      if can {
        assert forall i :: 0 < i < |list| ==> list[i] == l[i - 1];
        forall i | 0 < i < |list|
          ensures JoinedAt(list, i)
        {
          if i > 1 {
            assert old(JoinedAt(l, i - 1));
          }
        }
      }
    }

    /** Leaves the entry, now the head, pointing back to its former neighbour. */
    method MoveToHead(e: Entry, ghost k: nat, ghost rest: seq<Entry>, ghost list': seq<Entry>)
      requires Chain() && Ranked(list, places) && k < |list| && list[k] == e && IsWithout(list, k, rest)
      requires list' != [] && list'[0] == e && IsWithout(list', 0, rest)
      modifies this`head, this`tail, this`list, this`repr, repr
      ensures Chain() && repr == old(repr)
      ensures list == if k == 0 then old(list) else list'
      ensures (Stale() <==> k > 0 || old(Stale())) && (k == |list| - 1 > 0 ==> PointsToTail())
    {
      if e == head {
        return;
      }
      assert JoinedAt(list, k);
      assert forall i :: 0 <= i < |rest| ==> rest[i] != e && (i > 0 ==> rest[i] != rest[0]);
      Remove(e, k, rest);
      AddToHead(e, list');
    }

    // ---------- the cache ----------

    function Lim(): Limits {
      Limits(maxDirectories, maxDirectoryEntries)
    }

    ghost predicate Valid()
      reads this, repr
    {
      Chain() && Placed(list, data, places) && totalDirectoryEntries == Size(Items(list))
    }

    /** The items in recency order, if list, map and counter agree. */
    ghost function View(): Option<Lru>
      reads this, repr, head
    {
      if Valid() then Some(Lru(Items(list), Stale())) else None
    }

    constructor (lim: Limits)
      ensures fresh(repr) && Lim() == lim && View() == Some(Lru([], false))
    {
      maxDirectories, maxDirectoryEntries := lim.maxDirectories, lim.maxDirectoryEntries;
      totalDirectoryEntries, data, head, tail, list, places, repr := 0, map[], null, null, [], map[], {};
    }

    /** The head is not in the map. */
    ghost predicate Broken()
      reads this
    {
      head != null && head.item.id !in data
    }

    /** The entry after the head is not the one in the map. */
    ghost predicate BrokenBehind()
      reads this, head
    {
      head != null && head.next != null && !(head.next.item.id in data && data[head.next.item.id] == head.next)
    }

    /** The way back from the tail. */
    ghost predicate Trail()
      reads this`tail, this`list, this`repr, repr
    {
      && (forall i :: 0 <= i < |list| ==> list[i] in repr)
      && (forall i :: 0 < i < |list| ==> list[i].prev == list[i - 1])
      && (list != [] ==> tail == list[|list| - 1] && (tail.next == null || tail.next in repr))
      && (list != [] ==> list[0].prev != null && list[0].prev in repr)
    }

    /** The head has left map and counter but not the list; `list` is what is behind it. */
    ghost predicate Severed(id: string)
      reads this, repr
    {
      && head != null && head in repr && head.item.id == id && id !in data
      && Trail() && Placed(list, data, places) && totalDirectoryEntries == Size(Items(list))
    }

    /** There is a way on from the tail. */
    ghost predicate Knot()
      reads this`tail, this`list, tail
    {
      list != [] && tail != null && tail.next != null
    }

    /** removeEntryLocked, on list and map. */
    method TakeOut(e: Entry, ghost k: nat, ghost rest: seq<Entry>, ghost places': map<string, nat>)
      requires CanRemove(e, k, rest) || Reaches(e)
      modifies this`totalDirectoryEntries, this`data, this`head, this`tail, this`list, this`places, repr
      ensures old(CanRemove(e, k, rest)) && (k > 0 || !old(Stale())) ==>
                Chain() && (Stale() <==> k > 0 && old(Stale()))
      ensures old(CanRemove(e, k, rest)) && k == 0 && old(Stale()) ==>
                head == e && Trail() && (list != [] ==> (Knot() <==> old(PointsToTail())))
      ensures list == rest && Unlinked(e) && e.prev == old(e.prev)
      ensures totalDirectoryEntries == old(totalDirectoryEntries) - |e.item.entries|
      ensures data == old(data) - {e.item.id} && places == places' && repr == old(repr)
    {
      Remove(e, k, rest);
      totalDirectoryEntries := totalDirectoryEntries - |e.item.entries|;
      data := data - {e.item.id};
      places := places';
    }

    /** e is the k-th entry of a list in good order. */
    ghost predicate Holds(e: Entry, k: nat)
      reads this, repr
    {
      Valid() && k < |list| && list[k] == e
    }

    /**
      Removing any entry is right, except a head that points back: that one stays
      in the list. If the list is in disorder, `others` counts as the list afterwards.
     */
    method RemoveEntryLocked(e: Entry, ghost k: nat, ghost others: seq<Entry>, ghost places0: map<string, nat>)
      requires Holds(e, k) || (!Valid() && Reaches(e))
      modifies this`totalDirectoryEntries, this`data, this`head, this`tail, this`list, this`places, repr
      ensures old(Valid()) && (k > 0 || !old(Stale())) ==>
                Valid() && (Stale() <==> k > 0 && old(Stale()))
      ensures old(Valid()) && k == 0 && old(Stale()) ==>
                Severed(e.item.id) && (list != [] ==> (Knot() <==> old(PointsToTail())))
      ensures old(Valid()) ==> IsWithout(old(Items(list)), k, Items(list))
      ensures old(!Valid()) ==> list == others && places == places0 && Unlinked(e)
      ensures totalDirectoryEntries == old(totalDirectoryEntries) - |e.item.entries|
      ensures data == old(data) - {e.item.id} && repr == old(repr)
    {
      ghost var valid, rest, places' := Valid(), others, places0;
      if valid {
        rest, places' := PlacedWithout(list, data, places, k);
        ItemsWithout(list, k, rest);
      }
      TakeOut(e, k, rest, places');
    }

    /** moveToHead, on list and places. */
    method MoveUp(e: Entry, ghost k: nat, ghost rest: seq<Entry>, ghost list': seq<Entry>,
                  ghost places': map<string, nat>)
      requires Chain() && Ranked(list, places) && k < |list| && list[k] == e && IsWithout(list, k, rest)
      requires list' != [] && list'[0] == e && IsWithout(list', 0, rest) && (k == 0 ==> list' == list)
      modifies this`head, this`tail, this`list, this`places, this`repr, repr
      ensures Chain() && repr == old(repr) && list == list' && places == places'
      ensures (Stale() <==> k > 0 || old(Stale())) && (k == |list| - 1 > 0 ==> PointsToTail())
      ensures data == old(data) && totalDirectoryEntries == old(totalDirectoryEntries)
    {
      MoveToHead(e, k, rest, list');
      places := places';
    }

    /** A hit on the k-th entry. */
    method Promote(e: Entry, ghost k: nat)
      requires Valid() && k < |list| && list[k] == e
      modifies this`head, this`tail, this`list, this`places, this`repr, repr
      ensures Valid() && repr == old(repr) && IsInFront(old(Items(list)), k, Items(list))
      ensures (Stale() <==> k > 0 || old(Stale())) && (k == |list| - 1 > 0 ==> PointsToTail())
    {
      ghost var rest, list', places' := PlacedFirst(list, data, places, k);
      ItemsFirst(list, k, rest, list');
      MoveUp(e, k, rest, list', places');
    }

    method GetEntriesFromCacheLocked(id: string, now: int, ghost s: Lru) returns (found: Option<seq<FsEntry>>)
      requires View() == Some(s)
      modifies this, repr
      ensures repr == old(repr)
      ensures !ExpiresAtStaleHead(s, id, now) ==> View().Some? && Lookup(View().value, found) == LookupSpec(s, id, now)
      ensures ExpiresAtStaleHead(s, id, now) ==> found == None && Severed(id) && IsWithout(s.items, 0, Items(list))
      ensures ExpiresAtStaleHead(s, id, now) && list != [] ==> (Knot() <==> old(PointsToTail()))
      ensures found.Some? && Find(s.items, id) == |s.items| - 1 > 0 ==> PointsToTail()
    {
      ghost var k := FindIsPlace(list, data, places, id);
      found := None;
      if id != "" && id in data {
        var v := data[id];
        if now < v.item.expireAfter {
          Promote(v, k);
          found := Some(v.item.entries);
          HitIs(s, id, now, k, View().value);
        } else {
          RemoveEntryLocked(v, k, list, places);
          if k > 0 || !s.stale {
            ExpiryIs(s, id, now, k, View().value);
          }
        }
      }
    }

    /** The trail from the tail has neither the head nor e on it. */
    ghost predicate Apart(e: Entry)
      reads this`head, this`tail, this`list, this`repr, repr
    {
      head != null && Trail() && e !in repr && forall i :: 0 <= i < |list| ==> list[i] != head
    }

    /** Storing a new entry: list, map and counter. */
    method PutIn(e: Entry, ghost list': seq<Entry>, ghost places': map<string, nat>)
      requires e != head && (head != null ==> head in repr)
      modifies this, repr, e
      ensures old(CanAdd(e, list')) ==> Chain()
      ensures list == list' && places == places' && repr == old(repr) + {e} && head == e
      ensures old(Apart(e)) && list' == old(list) ==> Trail() && tail == old(tail) && (Knot() <==> old(Knot()))
      ensures old(Apart(e)) && list' == old(list) != [] ==> list[0].prev == old(list[0].prev)
      ensures e.prev == old(e.prev) && e.next == old(if head == null then e.next else head)
      ensures data == old(data)[e.item.id := e]
      ensures totalDirectoryEntries == old(totalDirectoryEntries) + |e.item.entries|
    {
      AddToHead(e, list');
      data := data[e.item.id := e];
      totalDirectoryEntries := totalDirectoryEntries + |e.item.entries|;
      places := places';
    }

    /** The chain has an entry that the map does not know. */
    ghost predicate Astray()
      reads this, repr
    {
      Chain() && Strays(list, data)
    }

    /** Either way list and map no longer agree. */
    lemma BrokenOrAstrayIsInvalid()
      requires Broken() || BrokenBehind() || Astray()
      ensures View() == None
    {
      if Astray() {
        var i :| 0 <= i < |list| && (list[i].item.id !in data || data[list[i].item.id] != list[i]);
      }
      if BrokenBehind() && Valid() {
        SecondIsNext();
        assert false;
      }
    }

    lemma SecondIsNext()
      requires Valid() && head != null && head.next != null
      ensures |list| > 1 && list[1] == head.next
    {
      assert |list| > 1 ==> JoinedAt(list, 1);
    }

    /** Only the head is in the map; the next entry has the same id. */
    ghost predicate HeadTwice()
      reads this, repr
    {
      && head != null && head in repr && head.next != null && head.next != head
      && head.item.id in data && data[head.item.id] == head && head.next.item.id == head.item.id
    }

    /** A new entry in front of a severed one. */
    ghost predicate Covered()
      reads this, repr
    {
      && HeadTwice() && Trail() && Placed(list, data - {head.item.id}, places)
      && totalDirectoryEntries == Size(Items(list)) + |head.item.entries|
      && (list != [] ==> list[0].prev != head)
    }

    /** The chain is right, but the head's id occurs in it twice, or is not in the map. */
    ghost predicate Doubled()
      reads this, repr, head
    {
      && Chain() && !Stale() && list != [] && totalDirectoryEntries == Size(Items(list))
      && (head.item.id in data ==> data[head.item.id] == head)
      && (head.item.id in data ==> exists i :: 0 < i < |list| && list[i].item.id == head.item.id)
    }

    /** Storing is right exactly if the list is right and the id is new. */
    method AddLocked(e: Entry)
      requires (Valid() || Severed(e.item.id)) && e !in repr && e.prev == null && e.next == null
      modifies this, repr, e
      ensures repr == old(repr) + {e} && head == e
      ensures old(Valid()) && e.item.id !in old(data) ==>
                Valid() && !Stale() && IsAdded(old(Items(list)), e.item, Items(list))
      ensures old(Valid()) && e.item.id in old(data) ==> Doubled()
      ensures old(!Valid()) ==> Covered() && tail == old(tail) && (Knot() <==> old(Knot()))
      ensures data == old(data)[e.item.id := e]
      ensures totalDirectoryEntries == old(totalDirectoryEntries) + |e.item.entries|
    {
      ghost var list', places', severed := list, places, !Valid();
      if severed {
        assert Apart(e);
      } else {
        list', places' := PutPlan(list, data, places, e);
        assert CanAdd(e, list');
      }
      PutIn(e, list', places');
      if severed {
        IsCovered(old(data));
      }
    }

    lemma IsCovered(before: map<string, Entry>)
      requires head != null && head in repr && head.next != null && head.next != head
      requires head.next.item.id == head.item.id && head.item.id !in before && data == before[head.item.id := head]
      requires Trail() && (list != [] ==> list[0].prev != head) && Placed(list, before, places)
      requires totalDirectoryEntries == Size(Items(list)) + |head.item.entries|
      ensures Covered()
    {
      assert data - {head.item.id} == before;
    }

    /** New entries are not in any list. */
    method NewEntry(item: Item) returns (e: Entry)
      ensures fresh(e) && e.item == item && e.prev == null && e.next == null
      ensures Valid() == old(Valid()) && View() == old(View())
      ensures Breakable(item) == old(Breakable(item)) && Snags(item) == old(Snags(item))
    {
      e := new Entry(item);
    }

    ghost predicate WithinNow()
      reads this
    {
      totalDirectoryEntries <= maxDirectoryEntries && |data| <= maxDirectories
    }

    /** The newest entry fits alone, and there are not too many directories. */
    ghost predicate Fair()
      reads this
    {
      head != null && |head.item.entries| <= maxDirectoryEntries && |data| <= maxDirectories
    }

    /** A severed head was covered, and the trail starts at an end. */
    ghost predicate Cut()
      reads this, repr, tail
    {
      Covered() && Fair() && !Knot()
    }

    /** The tail has neighbours on both sides: removing it leaves it the tail. */
    ghost predicate Tied()
      reads this`tail, this`repr, tail
    {
      tail != null && tail in repr && tail.prev != null && tail.next != null && Reaches(tail)
    }

    /** ... so that only the counter falls. */
    ghost predicate Knotted()
      reads this, repr, tail
    {
      && HeadTwice() && Fair() && Tied()
      && tail.prev != head && tail.item.id != head.item.id && tail.item.entries != []
    }

    /** ... or nothing changes that the loop looks at. */
    ghost predicate Stuck()
      reads this, tail
    {
      Tied() && tail.item.entries == [] && totalDirectoryEntries > maxDirectoryEntries
    }

    /** The states of list and map in which the eviction loop ends. */
    ghost predicate In(state: Disorder)
      reads this, repr, head, tail
    {
      match state
      case NoDisorder => Valid() && !Stale()
      case IdTwice => Doubled() && Fair()
      case HeadSevered => Cut()
      case TailKnotted => Knotted()
      case NoEviction => HeadTwice() && WithinNow()
    }

    ghost function Left(state: Disorder): int
      reads this
    {
      if state.TailKnotted? then totalDirectoryEntries else |list|
    }

    lemma DisorderIsInvalid(state: Disorder)
      requires In(state) && !state.NoDisorder?
      ensures View() == None
    {
      if Doubled() {
        DoubledIsAstray();
      }
      BrokenOrAstrayIsInvalid();
    }

    lemma DoubledIsAstray()
      requires Doubled()
      ensures Astray()
    {
      assert list[0] == head;
      if head.item.id in data {
        var i :| 0 < i < |list| && list[i].item.id == head.item.id;
        assert JoinedAt(list, i);
        assert data[list[i].item.id] != list[i];
      }
    }

    /** Off the trail goes its first entry. */
    twostate lemma TrailRound(e: Entry)
      requires old(Trail())
      requires old(list) != [] && old(tail) == e && old(tail.next) == null
      requires Unlinked(e)
      requires repr == old(repr)
      requires IsWithout(old(list), |old(list)| - 1, list)
      ensures Trail() && !Knot() && head == old(head) && old(e.prev) != null
      ensures list != [] ==> list[0].prev == old(list[0].prev)
      ensures old(e.prev) == if list == [] then old(list[0].prev) else tail
    {
      var n := |old(list)| - 1;
      assert n > 0 ==> old(list)[n].prev == old(list)[n - 1];
    }

    lemma CutTail()
      requires Cut() && !WithinNow()
      ensures list != [] && tail == list[|list| - 1] && tail.next == null && Reaches(tail)
      ensures tail.item.id != head.item.id && tail.prev != head && tail.item.id in data
    {
      var n := |list| - 1;
      assert list == [] ==> Size(Items(list)) == 0;
      assert n > 0 ==> list[n].prev == list[n - 1];
      assert n > 0 ==> list[n - 1].item.id in data - {head.item.id};
    }

    /** A cut-off list loses its last entry; the severed one stays behind the head. */
    twostate lemma CutRound(e: Entry)
      requires old(Cut())
      requires old(tail) == e && old(tail.next) == null && old(e.prev) != old(head)
      requires Unlinked(e)
      requires repr == old(repr)
      requires data == old(data) - {e.item.id}
      requires totalDirectoryEntries == old(totalDirectoryEntries) - |e.item.entries|
      requires old(list) != []
      requires IsWithout(old(list), |old(list)| - 1, list)
      requires old(head) != null && old(head).item.id != e.item.id && e.item.id in old(data)
      requires Placed(list, old(data) - {old(head).item.id} - {e.item.id}, places)
      ensures Cut()
    {
      TrailRound(e);
      ItemsWithout(old(list), |old(list)| - 1, list);
      TakenInAnyOrder(old(data), head.item.id, e.item.id);
    }

    /** A chain with an id twice loses its last entry; the head stays, known to the map or not. */
    twostate lemma DoubledRound(e: Entry)
      requires old(Doubled())
      requires |old(list)| > 1 && old(tail) == e
      requires Unlinked(e)
      requires repr == old(repr)
      requires data == old(data) - {e.item.id}
      requires totalDirectoryEntries == old(totalDirectoryEntries) - |e.item.entries|
      requires IsWithout(old(list), |old(list)| - 1, list)
      ensures Doubled()
    {
      var l, n := old(list), |old(list)| - 1;
      assert old(JoinedAt(l, n));
      forall i | 0 < i < n
        ensures JoinedAt(list, i)
      {
        assert old(JoinedAt(l, i)) && old(JoinedAt(l, i + 1));
      }
      ItemsWithout(l, n, list);
      if head.item.id in data {
        var i :| 0 < i <= n && l[i].item.id == head.item.id;
        assert list[i] == l[i];
      }
    }

    /** A knotted tail stays the tail. */
    twostate lemma KnotRound(e: Entry)
      requires old(Knotted())
      requires old(tail) == e
      requires Unlinked(e)
      requires repr == old(repr)
      requires data == old(data) - {e.item.id}
      ensures Knotted()
    {
      TakenInAnyOrder(old(data), head.item.id, e.item.id);
    }

    lemma AloneIsWithin()
      requires Doubled() && Fair()
      ensures |list| == 1 ==> WithinNow()
    {
      if |list| == 1 {
        var items := Items(list);
        assert SizeOf(items, 1) == SizeOf(items, 0) + |items[0].entries|;
      }
    }

    /** The tail can be removed and leaves `rest`. */
    ghost predicate Planned(rest: Rest)
      reads this, repr, head, tail
    {
      && tail != null && Reaches(tail)
      && (rest.state.IdTwice? ==> |list| > 1 && IsWithout(list, |list| - 1, rest.list))
      && (rest.state.HeadSevered? ==>
            && list != [] && IsWithout(list, |list| - 1, rest.list) && tail.next == null
            && head != null && tail.prev != head && tail.item.id != head.item.id && tail.item.id in data
            && Placed(rest.list, data - {head.item.id} - {tail.item.id}, rest.places))
    }

    lemma PlanTwice() returns (rest: Rest)
      requires Doubled() && Fair() && !WithinNow()
      ensures Planned(rest) && rest.state == IdTwice
    {
      AloneIsWithin();
      assert JoinedAt(list, |list| - 1);
      rest := Rest(IdTwice, list[..|list| - 1], places);
    }

    lemma PlanCut() returns (rest: Rest)
      requires Cut() && !WithinNow()
      ensures Planned(rest) && rest.state == HeadSevered
    {
      CutTail();
      var others, n := data - {head.item.id}, |list| - 1;
      var list', places' := PlacedWithout(list, others, places, n);
      assert list[n] == tail;
      assert Placed(list', others - {tail.item.id}, places');
      rest := Rest(HeadSevered, list', places');
    }

    lemma Plan(state: Disorder) returns (rest: Rest)
      requires In(state) && !state.NoDisorder? && !WithinNow()
      ensures Planned(rest) && rest.state == state && View() == None
    {
      DisorderIsInvalid(state);
      if state.IdTwice? {
        rest := PlanTwice();
      } else if state.HeadSevered? {
        rest := PlanCut();
      } else {
        rest := Rest(state, list, places);
      }
    }

    /** Removing the tail keeps a state of disorder, and something decreases. */
    twostate lemma Round(rest: Rest)
      requires old(In(rest.state))
      requires old(!WithinNow())
      requires !rest.state.NoDisorder?
      requires old(Planned(rest))
      requires list == rest.list && places == rest.places && repr == old(repr)
      requires Unlinked(old(tail))
      requires data == old(data) - {old(tail).item.id}
      requires totalDirectoryEntries == old(totalDirectoryEntries) - |old(tail).item.entries|
      ensures In(rest.state) && Left(rest.state) < old(Left(rest.state))
    {
      var e := old(tail);
      if rest.state.HeadSevered? {
        CutRound(e);
      } else if rest.state.IdTwice? {
        DoubledRound(e);
        TakenInAnyOrder(old(data), e.item.id, e.item.id);
      } else if rest.state.TailKnotted? {
        KnotRound(e);
      }
    }

    /** One round of the eviction loop. */
    method EvictLast(ghost state: Disorder)
      requires tail != null && !WithinNow() && In(state)
      modifies this`totalDirectoryEntries, this`data, this`head, this`tail, this`list, this`places, repr
      ensures repr == old(repr) && In(state) && Left(state) < old(Left(state))
      ensures state.NoDisorder? ==> Evict(Lim(), Items(list)) == Evict(Lim(), old(Items(list)))
    {
      ghost var items, rest := Items(list), Rest(state, list, places);
      if state.NoDisorder? {
        assert !Fits(Lim(), items);
      } else {
        rest := Plan(state);
      }
      RemoveEntryLocked(tail, if list == [] then 0 else |list| - 1, rest.list, rest.places);
      if state.NoDisorder? {
        EvictStep(Lim(), items, Items(list));
      } else {
        Round(rest);
      }
    }

    /** The eviction loop; without room for any directory it ends at a nil tail. Disorder it does not repair. */
    method EvictLocked(ghost state: Disorder) returns (panicked: bool)
      requires maxDirectoryEntries >= 0 && In(state)
      modifies this`totalDirectoryEntries, this`data, this`head, this`tail, this`list, this`places, repr
      ensures repr == old(repr) && (!state.NoDisorder? ==> View() == None && !panicked)
      ensures state.NoDisorder? ==>
                View() == Some(Lru(Evict(Lim(), old(Items(list))), false)) && (panicked <==> maxDirectories < 0)
    {
      while totalDirectoryEntries > maxDirectoryEntries || |data| > maxDirectories
        invariant repr == old(repr) && In(state)
        invariant state.NoDisorder? ==> Evict(Lim(), Items(list)) == Evict(Lim(), old(Items(list)))
        decreases Left(state)
      {
        if !state.NoDisorder? {
          ghost var _ := Plan(state);
        }
        if tail == null {
          return true;
        }
        EvictLast(state);
      }
      if !state.NoDisorder? {
        DisorderIsInvalid(state);
      }
      return false;
    }

    /** A round from a stuck state changes nothing that the loop looks at, so the loop never ends. */
    method StuckForever()
      requires Stuck()
      modifies this`totalDirectoryEntries, this`data, this`head, this`tail, this`list, this`places, repr
      ensures Stuck() && tail == old(tail) && totalDirectoryEntries == old(totalDirectoryEntries) && repr == old(repr)
      ensures data == old(data) - {tail.item.id}
    {
      RemoveEntryLocked(tail, 0, list, places);
    }

    /** A loaded directory that can be stored although that breaks the list, or breaks it further. */
    ghost predicate Breakable(item: Item)
      reads this, repr
    {
      && (Severed(item.id) || (Valid() && item.id in data))
      && |item.entries| <= maxDirectoryEntries
      && |data| + (if item.id in data then 0 else 1) <= maxDirectories
    }

    /** ... after which the eviction loop does not end. */
    ghost predicate Snags(item: Item)
      reads this, repr, tail
    {
      && Severed(item.id) && Knot() && tail.item.entries == []
      && totalDirectoryEntries + |item.entries| > maxDirectoryEntries
    }

    lemma KnotIsTied()
      requires Covered() && Knot()
      ensures Tied() && tail.prev != head && tail.item.id != head.item.id
    {
      var n := |list| - 1;
      assert list[n] in repr && list[n].item.id in data - {head.item.id};
      if n > 0 {
        assert list[n].prev == list[n - 1] && list[n - 1].item.id in data - {head.item.id};
      }
    }

    lemma Classify() returns (state: Disorder)
      requires Covered() && Fair()
      ensures if Knot() && tail.item.entries == [] && totalDirectoryEntries > maxDirectoryEntries then Stuck()
              else In(state) && !state.NoDisorder?
    {
      if !Knot() {
        state := HeadSevered;
      } else {
        KnotIsTied();
        state := if tail.item.entries == [] then NoEviction else TailKnotted;
      }
    }

    /** Storing a new entry, and the state that leaves. */
    method Add(e: Entry, ghost items: seq<Item>) returns (ghost state: Disorder)
      requires (Valid() && Items(list) == items && e.item.id !in data) || Breakable(e.item)
      requires e !in repr && e.prev == null && e.next == null
      modifies this, repr, e
      ensures repr == old(repr) + {e}
      ensures old(Valid()) && e.item.id !in old(data) ==>
                state == NoDisorder && In(state) && Items(list) == [e.item] + items
      ensures old(Breakable(e.item)) ==> if old(Snags(e.item)) then Stuck() else In(state) && !state.NoDisorder?
    {
      ghost var severed := !Valid();
      AddLocked(e);
      if severed {
        state := Classify();
      } else if e.item.id in old(data) {
        state := IdTwice;
      } else {
        state := NoDisorder;
        AddedIsUnique(items, e.item, Items(list));
      }
    }

    /** Storing a loaded directory. */
    method Insert(item: Item, ghost items: seq<Item>) returns (ghost state: Disorder)
      requires (Valid() && Items(list) == items && item.id !in data) || Breakable(item)
      modifies this, repr
      ensures forall e :: e in repr ==> e in old(repr) || fresh(e)
      ensures old(Valid()) && item.id !in old(data) ==>
                state == NoDisorder && In(state) && Items(list) == [item] + items
      ensures old(Breakable(item)) ==> if old(Snags(item)) then Stuck() else In(state) && !state.NoDisorder?
    {
      var e := NewEntry(item);
      state := Add(e, items);
    }

    /** The call breaks the list and its eviction loop does not end. */
    ghost predicate Hangs(s: Lru, c: Call)
      reads this`head, this`tail, head
    {
      PointsToTail() && Endless(Lim(), s, c)
    }

    /** What a call that loads finds. */
    ghost predicate Missed(c: Call, w: FsEntry -> FsEntry, v: Option<Lru>, breaks: bool, hangs: bool)
      reads this, repr, head, tail
    {
      && View() == v
      && (Kept(Lim(), c) ==>
            if breaks then Breakable(NewItem(c, w)) && (hangs <==> Snags(NewItem(c, w)))
            else v.Some? && Find(v.value.items, c.id) < 0)
      && (!Kept(Lim(), c) ==> (v == None <==> breaks) && !hangs)
    }

    /** The lookup at the start of a call. */
    method Look(c: Call, ghost w: FsEntry -> FsEntry, ghost s: Lru)
        returns (found: Option<seq<FsEntry>>, ghost v: Option<Lru>)
      requires View() == Some(s) && (Breaks(Lim(), s, c) && Kept(Lim(), c) ==> Fits(Lim(), s.items))
      modifies this, repr
      ensures repr == old(repr) && View() == v
      ensures found.Some? ==> v.Some? && !Breaks(Lim(), s, c) && old(!Hangs(s, c))
      ensures found.Some? ==> GetSpec(Lim(), s, c, w) == Reply(v.value, Entries(found.value))
      ensures found == None ==> Missed(c, w, v, Breaks(Lim(), s, c), old(Hangs(s, c)))
      ensures found == None && v == None ==> Breaks(Lim(), s, c)
      ensures found == None && v.Some? ==> GetSpec(Lim(), s, c, w) == MissSpec(Lim(), v.value, c, w)
      ensures PromotesLast(s, c) ==> found.Some? && PointsToTail()
    {
      ghost var hangs := Hangs(s, c);
      ItemsAreDistinct(list, data, places);
      found := GetEntriesFromCacheLocked(c.id, c.now, s);
      v := View();
      if ExpiresAtStaleHead(s, c.id, c.now) {
        SeveredIsMissed(c, w, s, hangs);
      } else if found == None {
        MissMeansAbsent(s, c.id, c.now);
        OtherwiseMissed(c, w, s, v.value);
      }
    }

    lemma SeveredIsMissed(c: Call, w: FsEntry -> FsEntry, s: Lru, hangs: bool)
      requires ExpiresAtStaleHead(s, c.id, c.now) && Severed(c.id) && IsWithout(s.items, 0, Items(list))
      requires hangs ==> Endless(Lim(), s, c)
      requires list != [] && Endless(Lim(), s, c) ==> (Knot() <==> hangs)
      requires Kept(Lim(), c) ==> Fits(Lim(), s.items)
      ensures Missed(c, w, None, true, hangs)
    {
      BrokenOrAstrayIsInvalid();
      SizeWithout(s.items, 0, Items(list), |s.items|);
      var items := Items(list);
      assert list != [] ==> items[|list| - 1] == s.items[|list|] && tail.item == items[|list| - 1];
    }

    lemma OtherwiseMissed(c: Call, w: FsEntry -> FsEntry, s: Lru, s': Lru)
      requires View() == Some(s') && s' == LookupSpec(s, c.id, c.now).state && LookupSpec(s, c.id, c.now).found == None
      requires !ExpiresAtStaleHead(s, c.id, c.now) && (c.id != "" ==> Find(s'.items, c.id) < 0)
      requires Breaks(Lim(), s, c) && Kept(Lim(), c) ==> Fits(Lim(), s.items)
      ensures Missed(c, w, Some(s'), Breaks(Lim(), s, c), false)
    {
      var _ := FindIsPlace(list, data, places, c.id);
    }

    /** What the eviction loop has to lead to. */
    ghost function Stored(c: Call): Reply
      requires c.load.Loaded?
      reads this`list
    {
      Reply(Lru(Evict(Lim(), Items(list)), false), if maxDirectories < 0 then Panic else Entries(c.load.raw))
    }

    /** After a miss: either the call ends before anything is stored, or the eviction loop is next. */
    method LoadAndInsert(c: Call, w: FsEntry -> FsEntry, ghost v: Option<Lru>, ghost breaks: bool, ghost hangs: bool)
        returns (early: Option<Out>, ghost state: Disorder)
      requires Missed(c, w, v, breaks, hangs)
      modifies this, repr
      ensures forall e :: e in repr ==> e in old(repr) || fresh(e)
      ensures early == None <==> Kept(Lim(), c)
      ensures early.Some? ==> View() == v && (v == None <==> breaks) && !hangs
      ensures early.Some? && v.Some? ==> Reply(v.value, early.value) == MissSpec(Lim(), v.value, c, w)
      ensures early == None && !breaks ==> state == NoDisorder && In(state)
      ensures early == None && !breaks ==> v.Some? && MissSpec(Lim(), v.value, c, w) == Stored(c)
      ensures early == None && breaks ==> if hangs then Stuck() else In(state) && !state.NoDisorder?
    {
      if c.load.LoadError? {
        return Some(LoadFailed), NoDisorder;
      }
      var raw, wrapped := c.load.raw, [];
      for i := 0 to |raw|
        invariant wrapped == Wrapped(w, raw)[..i]
      {
        wrapped := wrapped + [w(raw[i])];
      }
      var item := Item(c.id, wrapped, c.storedAt + c.ttl);
      assert item == NewItem(c, w) by {
        assert wrapped == Wrapped(w, raw);
      }
      if |wrapped| > maxDirectoryEntries {
        return Some(Entries(wrapped)), NoDisorder;
      }
      if Valid() {
        ghost var _ := FindIsPlace(list, data, places, c.id);
      }
      state := Insert(item, if v.Some? then v.value.items else []);
      early := None;
    }

    /** A call up to its eviction loop, if it gets there. */
    method BeforeEviction(c: Call, w: FsEntry -> FsEntry, ghost s: Lru)
        returns (early: Option<Out>, ghost state: Disorder)
      requires View() == Some(s) && (Breaks(Lim(), s, c) && Kept(Lim(), c) ==> Fits(Lim(), s.items))
      modifies this, repr
      ensures forall e :: e in repr ==> e in old(repr) || fresh(e)
      ensures early.Some? ==> (View().Some? <==> !Breaks(Lim(), s, c)) && old(!Hangs(s, c))
      ensures early.Some? && View().Some? ==> Reply(View().value, early.value) == GetSpec(Lim(), s, c, w)
      ensures early == None ==> Kept(Lim(), c)
      ensures early == None && !Breaks(Lim(), s, c) ==>
                state == NoDisorder && In(state) && GetSpec(Lim(), s, c, w) == Stored(c)
      ensures early == None && Breaks(Lim(), s, c) ==>
                if old(Hangs(s, c)) then Stuck() else In(state) && !state.NoDisorder?
      ensures PromotesLast(s, c) ==> early.Some? && PointsToTail()
    {
      ghost var hangs := Hangs(s, c);
      var found;
      ghost var v;
      found, v := Look(c, w, s);
      if found.Some? {
        early, state := Some(Entries(found.value)), NoDisorder;
      } else {
        early, state := LoadAndInsert(c, w, v, Breaks(Lim(), s, c), hangs);
      }
    }

    /**
      List and map agree after a call exactly if it does not break the list, and
      then the call does what the specification says. Without the last condition
      the call does not return, see BeforeEviction and StuckForever.
     */
    method GetEntries(c: Call, w: FsEntry -> FsEntry, ghost s: Lru) returns (out: Out)
      requires View() == Some(s) && (Breaks(Lim(), s, c) && Kept(Lim(), c) ==> Fits(Lim(), s.items))
      requires !Hangs(s, c)
      modifies this, repr
      ensures forall e :: e in repr ==> e in old(repr) || fresh(e)
      ensures View().Some? <==> !Breaks(Lim(), s, c)
      ensures View().Some? ==> Reply(View().value, out) == GetSpec(Lim(), s, c, w)
      ensures PromotesLast(s, c) ==> PointsToTail()
    {
      var early;
      ghost var state;
      early, state := BeforeEviction(c, w, s);
      if early.Some? {
        out := early.value;
      } else {
        var panicked := EvictLocked(state);
        out := if panicked then Panic else Entries(c.load.raw);
      }
    }
  }

  // ---------- whole runs ----------

  /** The cache after a sequence of calls. */
  function After(lim: Limits, calls: seq<Call>, w: FsEntry -> FsEntry): Lru {
    if calls == [] then Lru([], false)
    else
      var n := |calls| - 1;
      GetSpec(lim, After(lim, calls[..n], w), calls[n], w).state
  }

  function OutOf(lim: Limits, calls: seq<Call>, w: FsEntry -> FsEntry, k: nat): Out
    requires k < |calls|
  {
    GetSpec(lim, After(lim, calls[..k], w), calls[k], w).out
  }

  /** The answers to the first n calls. */
  function Outs(lim: Limits, calls: seq<Call>, w: FsEntry -> FsEntry, n: nat): seq<Out>
    requires n <= |calls|
  {
    if n == 0 then [] else Outs(lim, calls, w, n - 1) + [OutOf(lim, calls, w, n - 1)]
  }

  /** No call breaks the list. */
  ghost predicate Clean(lim: Limits, calls: seq<Call>, w: FsEntry -> FsEntry) {
    forall k :: 0 <= k < |calls| ==> CleanAt(lim, calls, w, k)
  }

  predicate CleanAt(lim: Limits, calls: seq<Call>, w: FsEntry -> FsEntry, k: nat)
    requires k < |calls|
  {
    !Breaks(lim, After(lim, calls[..k], w), calls[k])
  }

  lemma AfterNext(lim: Limits, calls: seq<Call>, w: FsEntry -> FsEntry, i: nat)
    requires i < |calls|
    ensures Reply(After(lim, calls[..i + 1], w), OutOf(lim, calls, w, i)) ==
              GetSpec(lim, After(lim, calls[..i], w), calls[i], w)
  {
    assert calls[..i + 1][..i] == calls[..i];
  }

  method Answer(cache: Cache, calls: seq<Call>, w: FsEntry -> FsEntry, i: nat) returns (out: Out)
    requires i < |calls| && cache.View() == Some(After(cache.Lim(), calls[..i], w))
    requires CleanAt(cache.Lim(), calls, w, i)
    modifies cache, cache.repr
    ensures forall e :: e in cache.repr ==> e in old(cache.repr) || fresh(e)
    ensures cache.View() == Some(After(cache.Lim(), calls[..i + 1], w)) && out == OutOf(cache.Lim(), calls, w, i)
  {
    AfterNext(cache.Lim(), calls, w, i);
    out := cache.GetEntries(calls[i], w, After(cache.Lim(), calls[..i], w));
  }

  /** The first n calls on an empty cache. */
  method RunOn(cache: Cache, calls: seq<Call>, w: FsEntry -> FsEntry, n: nat) returns (outs: seq<Out>)
    requires n <= |calls| && cache.View() == Some(Lru([], false)) && Clean(cache.Lim(), calls, w)
    modifies cache, cache.repr
    ensures forall e :: e in cache.repr ==> e in old(cache.repr) || fresh(e)
    ensures cache.View() == Some(After(cache.Lim(), calls[..n], w)) && outs == Outs(cache.Lim(), calls, w, n)
  {
    if n == 0 {
      return [];
    }
    outs := RunOn(cache, calls, w, n - 1);
    var out := Answer(cache, calls, w, n - 1);
    outs := outs + [out];
  }

  /** All calls on a new cache. */
  method RunNew(lim: Limits, calls: seq<Call>, w: FsEntry -> FsEntry) returns (cache: Cache, outs: seq<Out>)
    requires Clean(lim, calls, w)
    ensures fresh(cache) && fresh(cache.repr)
    ensures cache.Lim() == lim && cache.View() == Some(After(lim, calls, w)) && outs == Outs(lim, calls, w, |calls|)
  {
    cache := new Cache(lim);
    outs := RunOn(cache, calls, w, |calls|);
    assert calls[..|calls|] == calls;
  }

  /** Any such run of the cache gives the answers of the specification. */
  method Run(lim: Limits, calls: seq<Call>, w: FsEntry -> FsEntry) returns (outs: seq<Out>)
    requires Clean(lim, calls, w)
    ensures outs == Outs(lim, calls, w, |calls|)
  {
    var cache;
    cache, outs := RunNew(lim, calls, w);
  }

  /** The last call for an id, or -1. */
  function LastUse(calls: seq<Call>, id: string): int {
    if calls == [] then -1
    else
      var n := |calls| - 1;
      if calls[n].id == id then n else LastUse(calls[..n], id)
  }

  /** The call misses, loads and keeps its directory. */
  predicate Stores(lim: Limits, s: Lru, c: Call) {
    LookupSpec(s, c.id, c.now).found.None? && c.load.Loaded? && |c.load.raw| <= lim.maxDirectoryEntries
  }

  /** What the last storing call for an id stored. */
  function LastStored(lim: Limits, calls: seq<Call>, w: FsEntry -> FsEntry, id: string): Option<Item> {
    if calls == [] then None
    else
      var n := |calls| - 1;
      if calls[n].id == id && Stores(lim, After(lim, calls[..n], w), calls[n]) then Some(NewItem(calls[n], w))
      else LastStored(lim, calls[..n], w, id)
  }

  /** The items are what was stored last, and the more recently used come first. */
  ghost predicate Good(lim: Limits, calls: seq<Call>, w: FsEntry -> FsEntry, items: seq<Item>) {
    && (forall i :: 0 <= i < |items| ==>
          LastStored(lim, calls, w, items[i].id) == Some(items[i]) && LastUse(calls, items[i].id) >= 0)
    && (forall i, j :: 0 <= i < j < |items| ==> LastUse(calls, items[i].id) > LastUse(calls, items[j].id))
  }

  lemma GoodWithout(lim: Limits, calls: seq<Call>, w: FsEntry -> FsEntry, items: seq<Item>, k: nat)
    requires Good(lim, calls, w, items) && k < |items|
    ensures Good(lim, calls, w, Without(items, k)) && forall i :: 0 <= i < |items| - 1 ==>
              Without(items, k)[i].id != items[k].id
  {
    WithoutIsWithout(items, k);
  }

  /** Another call leaves the items of other ids good. */
  lemma GoodNext(lim: Limits, calls: seq<Call>, c: Call, w: FsEntry -> FsEntry, items: seq<Item>)
    requires Good(lim, calls, w, items) && forall i :: 0 <= i < |items| ==> items[i].id != c.id
    ensures Good(lim, calls + [c], w, items) && forall i :: 0 <= i < |items| ==>
              LastUse(calls + [c], items[i].id) < |calls|
  {
    assert (calls + [c])[..|calls|] == calls;
    forall id
      ensures LastUse(calls, id) < |calls|
    {
      LastUseInRange(calls, id);
    }
  }

  lemma {:induction false} LastUseInRange(calls: seq<Call>, id: string)
    ensures LastUse(calls, id) < |calls|
  {
    if calls != [] {
      LastUseInRange(calls[..|calls| - 1], id);
    }
  }

  /** The item of the latest call goes in front. */
  lemma GoodFront(lim: Limits, calls: seq<Call>, c: Call, w: FsEntry -> FsEntry, item: Item, items: seq<Item>)
    requires Good(lim, calls + [c], w, items) && forall i :: 0 <= i < |items| ==>
               LastUse(calls + [c], items[i].id) < |calls|
    requires item.id == c.id && LastStored(lim, calls + [c], w, c.id) == Some(item)
    ensures Good(lim, calls + [c], w, [item] + items)
  {
    var items' := [item] + items;
    assert forall i :: 0 < i < |items'| ==> items'[i] == items[i - 1];
  }

  lemma {:induction false} GoodEvict(lim: Limits, calls: seq<Call>, w: FsEntry -> FsEntry, items: seq<Item>)
    requires Good(lim, calls, w, items)
    ensures Good(lim, calls, w, Evict(lim, items))
    decreases |items|
  {
    if items != [] && !Fits(lim, items) {
      GoodEvict(lim, calls, w, items[..|items| - 1]);
    }
  }

  lemma HitKeepsGood(lim: Limits, calls: seq<Call>, c: Call, w: FsEntry -> FsEntry, s: Lru)
    requires s == After(lim, calls, w) && Good(lim, calls, w, s.items) && LookupSpec(s, c.id, c.now).found.Some?
    ensures Good(lim, calls + [c], w, LookupSpec(s, c.id, c.now).state.items)
  {
    assert (calls + [c])[..|calls|] == calls;
    var k := Find(s.items, c.id);
    GoodWithout(lim, calls, w, s.items, k);
    GoodNext(lim, calls, c, w, Without(s.items, k));
    GoodFront(lim, calls, c, w, s.items[k], Without(s.items, k));
    assert k == 0 ==> [s.items[k]] + Without(s.items, k) == s.items;
  }

  lemma MissKeepsGood(lim: Limits, calls: seq<Call>, c: Call, w: FsEntry -> FsEntry, s: Lru)
    requires Good(lim, calls, w, s.items) && LookupSpec(s, c.id, c.now).found.None? && c.id != ""
    ensures var items := LookupSpec(s, c.id, c.now).state.items;
            Good(lim, calls + [c], w, items) && forall i :: 0 <= i < |items| ==>
              LastUse(calls + [c], items[i].id) < |calls|
  {
    var k := Find(s.items, c.id);
    if k < 0 {
      GoodNext(lim, calls, c, w, s.items);
    } else {
      GoodWithout(lim, calls, w, s.items, k);
      GoodNext(lim, calls, c, w, Without(s.items, k));
    }
  }

  lemma StoreKeepsGood(lim: Limits, calls: seq<Call>, c: Call, w: FsEntry -> FsEntry, items: seq<Item>)
    requires Good(lim, calls + [c], w, items) && forall i :: 0 <= i < |items| ==>
               LastUse(calls + [c], items[i].id) < |calls|
    requires Stores(lim, After(lim, calls, w), c)
    ensures Good(lim, calls + [c], w, Evict(lim, [NewItem(c, w)] + items))
  {
    assert (calls + [c])[..|calls|] == calls;
    GoodFront(lim, calls, c, w, NewItem(c, w), items);
    GoodEvict(lim, calls + [c], w, [NewItem(c, w)] + items);
  }

  lemma CallKeepsGood(lim: Limits, calls: seq<Call>, c: Call, w: FsEntry -> FsEntry, s: Lru)
    requires s == After(lim, calls, w) && Good(lim, calls, w, s.items) && c.id != ""
    ensures Good(lim, calls + [c], w, GetSpec(lim, s, c, w).state.items)
  {
    if LookupSpec(s, c.id, c.now).found.Some? {
      HitKeepsGood(lim, calls, c, w, s);
    } else {
      MissKeepsGood(lim, calls, c, w, s);
      if Stores(lim, s, c) {
        StoreKeepsGood(lim, calls, c, w, LookupSpec(s, c.id, c.now).state.items);
      }
    }
  }

  /** After any run with ids: the cache holds what was stored last, in recency order. */
  lemma {:induction false} RunsKeepGood(lim: Limits, calls: seq<Call>, w: FsEntry -> FsEntry)
    requires forall k :: 0 <= k < |calls| ==> calls[k].id != ""
    ensures Good(lim, calls, w, After(lim, calls, w).items)
  {
    if calls != [] {
      var n := |calls| - 1;
      RunsKeepGood(lim, calls[..n], w);
      CallKeepsGood(lim, calls[..n], calls[n], w, After(lim, calls[..n], w));
      assert calls[..n] + [calls[n]] == calls;
    }
  }

  // ---------- limits ----------

  /** Eviction keeps the longest prefix that fits. */
  lemma {:induction false} EvictKeepsLongestPrefix(lim: Limits, items: seq<Item>)
    ensures var n := |Evict(lim, items)|;
            && n <= |items| && Evict(lim, items) == items[..n] && (n == 0 || Fits(lim, items[..n]))
            && forall m :: n < m <= |items| ==> !Fits(lim, items[..m])
    decreases |items|
  {
    if items != [] && !Fits(lim, items) {
      var front := items[..|items| - 1];
      EvictKeepsLongestPrefix(lim, front);
      assert items[..|items|] == items;
      assert forall m :: 0 <= m < |items| ==> front[..m] == items[..m];
    } else {
      assert items[..|items|] == items;
    }
  }

  /** Eviction never reaches an entry that fits alone, if one directory is allowed. */
  lemma EvictKeepsNewest(lim: Limits, item: Item, items: seq<Item>)
    requires lim.maxDirectories >= 1 && |item.entries| <= lim.maxDirectoryEntries
    ensures Evict(lim, [item] + items) != [] && Evict(lim, [item] + items)[0] == item
  {
    var all := [item] + items;
    EvictKeepsLongestPrefix(lim, all);
    assert all[..1] == [item];
    assert SizeOf([item], 1) == SizeOf([item], 0) + |item.entries|;
    assert Fits(lim, all[..1]);
  }

  ghost predicate WithinLimits(lim: Limits, items: seq<Item>) {
    items == [] || Fits(lim, items)
  }

  lemma WithoutKeepsLimits(lim: Limits, items: seq<Item>, k: nat)
    requires WithinLimits(lim, items) && k < |items|
    ensures WithinLimits(lim, Without(items, k)) && WithinLimits(lim, [items[k]] + Without(items, k))
  {
    var rest := Without(items, k);
    WithoutIsWithout(items, k);
    SizeWithout(items, k, rest, |items|);
    SizeInFront(items[k], rest);
  }

  lemma SizeInFront(item: Item, items: seq<Item>)
    ensures Size([item] + items) == Size(items) + |item.entries|
  {
    var front := [item] + items;
    assert IsWithout(front, 0, items);
    SizeWithout(front, 0, items, |front|);
  }

  /** Both limits hold after every call. */
  lemma CallKeepsLimits(lim: Limits, s: Lru, c: Call, w: FsEntry -> FsEntry)
    requires WithinLimits(lim, s.items)
    ensures WithinLimits(lim, GetSpec(lim, s, c, w).state.items)
  {
    var k := Find(s.items, c.id);
    if k >= 0 {
      WithoutKeepsLimits(lim, s.items, k);
    }
    if Stores(lim, s, c) {
      EvictKeepsLongestPrefix(lim, [NewItem(c, w)] + LookupSpec(s, c.id, c.now).state.items);
    }
  }

  lemma {:induction false} RunsKeepLimits(lim: Limits, calls: seq<Call>, w: FsEntry -> FsEntry)
    ensures WithinLimits(lim, After(lim, calls, w).items)
  {
    if calls != [] {
      var n := |calls| - 1;
      RunsKeepLimits(lim, calls[..n], w);
      CallKeepsLimits(lim, After(lim, calls[..n], w), calls[n], w);
    }
  }

  lemma CleanBefore(lim: Limits, calls: seq<Call>, w: FsEntry -> FsEntry, n: nat, k: nat)
    requires k < n <= |calls|
    ensures CleanAt(lim, calls[..n], w, k) == CleanAt(lim, calls, w, k)
  {
    assert calls[..n][..k] == calls[..k];
  }

  lemma CleanNext(lim: Limits, calls: seq<Call>, w: FsEntry -> FsEntry, n: nat)
    requires n + 1 == |calls|
    ensures Clean(lim, calls, w) <==> Clean(lim, calls[..n], w) && CleanAt(lim, calls, w, n)
  {
    forall k | 0 <= k < n
      ensures CleanAt(lim, calls[..n], w, k) == CleanAt(lim, calls, w, k)
    {
      CleanBefore(lim, calls, w, n, k);
    }
  }

  /** Up to the first call that breaks the list, list and map agree; after it they do not. */
  method RunToFirstBreak(lim: Limits, calls: seq<Call>, w: FsEntry -> FsEntry, n: nat) returns (cache: Cache)
    requires n + 1 == |calls| && Clean(lim, calls[..n], w) && !Endless(lim, After(lim, calls[..n], w), calls[n])
    ensures cache.Lim() == lim && (cache.View().Some? <==> Clean(lim, calls, w))
  {
    CleanNext(lim, calls, w, n);
    RunsKeepLimits(lim, calls[..n], w);
    var outs;
    cache, outs := RunNew(lim, calls[..n], w);
    var out := cache.GetEntries(calls[n], w, After(lim, calls[..n], w));
  }

  // ---------- what callers see ----------

  /** The call that stored an item last. */
  lemma {:induction false} StoredByCall(lim: Limits, calls: seq<Call>, w: FsEntry -> FsEntry, id: string)
    returns (k: nat)
    requires LastStored(lim, calls, w, id).Some?
    ensures k < |calls| && calls[k].id == id && calls[k].load.Loaded?
    ensures LastStored(lim, calls, w, id) == Some(NewItem(calls[k], w))
  {
    var n := |calls| - 1;
    if calls[n].id == id && Stores(lim, After(lim, calls[..n], w), calls[n]) {
      k := n;
    } else {
      k := StoredByCall(lim, calls[..n], w, id);
    }
  }

  /** A hit returns the wrapped form of what an earlier call loaded for the id and which has not expired. */
  lemma HitReturnsLoaded(lim: Limits, calls: seq<Call>, w: FsEntry -> FsEntry, c: Call) returns (k: nat)
    requires forall i :: 0 <= i < |calls| ==> calls[i].id != ""
    requires LookupSpec(After(lim, calls, w), c.id, c.now).found.Some?
    ensures k < |calls| && calls[k].id == c.id && calls[k].load.Loaded? && c.now < calls[k].storedAt + calls[k].ttl
    ensures LastStored(lim, calls, w, c.id) == Some(NewItem(calls[k], w))
    ensures GetSpec(lim, After(lim, calls, w), c, w).out == Entries(Wrapped(w, calls[k].load.raw))
    ensures var entries, raw := GetSpec(lim, After(lim, calls, w), c, w).out.entries, calls[k].load.raw;
            |entries| == |raw| && forall i :: 0 <= i < |raw| ==> entries[i] == w(raw[i])
  {
    RunsKeepGood(lim, calls, w);
    k := StoredByCall(lim, calls, w, c.id);
  }

  /** A call hits exactly if its id is cached and has not expired. */
  lemma HitsExactly(s: Lru, id: string, now: int)
    requires Distinct(s.items)
    ensures LookupSpec(s, id, now).found.Some? <==>
              id != "" && exists i :: 0 <= i < |s.items| && s.items[i].id == id && now < s.items[i].expireAfter
  {
  }

  /**
    The answer to a miss: an error if the load fails; what was loaded if it is
    kept; and the wrapped entries if it is too big, in which case nothing is kept.
   */
  lemma MissAnswers(lim: Limits, s: Lru, c: Call, w: FsEntry -> FsEntry)
    requires LookupSpec(s, c.id, c.now).found == None
    ensures var r := GetSpec(lim, s, c, w);
            && (c.load.LoadError? ==> r.out == LoadFailed && r.state == LookupSpec(s, c.id, c.now).state)
            && (c.load.Loaded? && |c.load.raw| > lim.maxDirectoryEntries ==>
                  && r.state == LookupSpec(s, c.id, c.now).state && r.out.Entries? && |r.out.entries| == |c.load.raw|
                  && forall i :: 0 <= i < |c.load.raw| ==> r.out.entries[i] == w(c.load.raw[i]))
            && (c.load.Loaded? && |c.load.raw| <= lim.maxDirectoryEntries && lim.maxDirectories >= 0 ==>
                  r.out == Entries(c.load.raw))
  {
  }

  /** What a call has stored, the next call for the same id finds, until it expires, if one directory is allowed. */
  lemma StoredIsHit(lim: Limits, s: Lru, c: Call, w: FsEntry -> FsEntry, now: int)
    requires LookupSpec(s, c.id, c.now).found == None && Kept(lim, c) && lim.maxDirectories >= 1 && c.id != ""
    requires Distinct(s.items) && now < c.storedAt + c.ttl
    ensures var hit := LookupSpec(GetSpec(lim, s, c, w).state, c.id, now).found;
            && hit.Some? && |hit.value| == |c.load.raw|
            && forall i :: 0 <= i < |hit.value| ==> hit.value[i] == w(c.load.raw[i])
  {
    var before := LookupSpec(s, c.id, c.now).state;
    MissMeansAbsent(s, c.id, c.now);
    EvictKeepsNewest(lim, NewItem(c, w), before.items);
    EvictKeepsLongestPrefix(lim, [NewItem(c, w)] + before.items);
    var items := Evict(lim, [NewItem(c, w)] + before.items);
    assert forall i :: 0 < i < |items| ==> items[i] == before.items[i - 1];
    assert Find(items, c.id) == 0;
  }

  /** If an id always loads the same directory, every answer is that directory, as loaded or wrapped. */
  lemma AnswersAreContents(lim: Limits, calls: seq<Call>, w: FsEntry -> FsEntry, contents: string -> seq<FsEntry>,
                           k: nat)
    requires k < |calls| && forall i :: 0 <= i < |calls| ==>
               calls[i].id != "" && (calls[i].load.Loaded? ==> calls[i].load.raw == contents(calls[i].id))
    ensures var out, raw := OutOf(lim, calls, w, k), contents(calls[k].id);
            out.Entries? ==> out.entries == raw || out.entries == Wrapped(w, raw)
  {
    var before := calls[..k];
    if LookupSpec(After(lim, before, w), calls[k].id, calls[k].now).found.Some? {
      var i := HitReturnsLoaded(lim, before, w, calls[k]);
    }
  }

  /** The list breaks on an ordinary run: a hit moves an entry up, and the next call for it finds it expired. */
  lemma PromotedThenExpiredBreaks(lim: Limits, s: Lru, c: Call, later: Call, w: FsEntry -> FsEntry)
    requires Distinct(s.items) && c.id != "" && later.id == c.id
    requires var k := Find(s.items, c.id); k > 0 && Live(s.items[k], c.now) && !Live(s.items[k], later.now)
    ensures Breaks(lim, GetSpec(lim, s, c, w).state, later)
  {
    var k := Find(s.items, c.id);
    WithoutIsWithout(s.items, k);
    var items := [s.items[k]] + Without(s.items, k);
    assert forall i :: 0 < i < |items| ==> items[i] == Without(s.items, k)[i - 1];
    assert items[0].id == c.id;
  }

  /** Two directories are read, the first one again, and once more after it has expired. */
  function BreakingCalls(x: string, y: string): seq<Call> {
    [
      Call(x, 0, 0, 10, Loaded([])),
      Call(y, 0, 0, 10, Loaded([])),
      Call(x, 1, 1, 10, LoadError),
      Call(x, 20, 20, 10, LoadError)
    ]
  }

  /** A miss that stores a directory while there is room. */
  lemma StoresInFront(lim: Limits, s: Lru, c: Call, w: FsEntry -> FsEntry)
    requires Kept(lim, c) && Find(s.items, c.id) < 0
    requires |s.items| < lim.maxDirectories && Size(s.items) + |c.load.raw| <= lim.maxDirectoryEntries
    ensures GetSpec(lim, s, c, w).state == Lru([NewItem(c, w)] + s.items, false)
    ensures Size([NewItem(c, w)] + s.items) == Size(s.items) + |c.load.raw|
  {
    SizeInFront(NewItem(c, w), s.items);
  }

  lemma AfterTwoReads(lim: Limits, w: FsEntry -> FsEntry, calls: seq<Call>)
    requires |calls| >= 2 && calls[0].id != calls[1].id && Kept(lim, calls[0]) && Kept(lim, calls[1])
    requires lim.maxDirectories >= 2 && |calls[0].load.raw| + |calls[1].load.raw| <= lim.maxDirectoryEntries
    ensures After(lim, calls[..1], w) == Lru([NewItem(calls[0], w)], false)
    ensures After(lim, calls[..2], w) == Lru([NewItem(calls[1], w), NewItem(calls[0], w)], false)
    ensures Size(After(lim, calls[..2], w).items) == |calls[0].load.raw| + |calls[1].load.raw|
  {
    var a, b := NewItem(calls[0], w), NewItem(calls[1], w);
    assert calls[..0] == [];
    AfterNext(lim, calls, w, 0);
    StoresInFront(lim, Lru([], false), calls[0], w);
    AfterNext(lim, calls, w, 1);
    assert [a] + [] == [a];
    StoresInFront(lim, Lru([a], false), calls[1], w);
    assert [b] + [a] == [b, a];
  }

  /** An ordinary run on an empty cache that breaks the list. */
  lemma BreakingRun(lim: Limits, w: FsEntry -> FsEntry, x: string, y: string)
    requires lim.maxDirectories >= 2 && lim.maxDirectoryEntries >= 0 && x != "" && y != "" && x != y
    ensures !Clean(lim, BreakingCalls(x, y), w)
  {
    var calls := BreakingCalls(x, y);
    AfterTwoReads(lim, w, calls);
    AfterNext(lim, calls, w, 2);
    PromotedThenExpiredBreaks(lim, After(lim, calls[..2], w), calls[2], calls[3], w);
    assert !CleanAt(lim, calls, w, 3);
  }

  /** Three directories are read, the second one empty, then the first again, and once more expired and bigger. */
  function HangingCalls(lim: Limits, x: string, y: string, z: string): seq<Call>
    requires lim.maxDirectoryEntries >= 2
  {
    [
      Call(x, 0, 0, 10, Loaded([0])),
      Call(y, 0, 0, 10, Loaded([])),
      Call(z, 0, 0, 10, Loaded(seq(lim.maxDirectoryEntries - 1, _ => 0))),
      Call(x, 1, 1, 10, LoadError),
      Call(x, 20, 20, 10, Loaded([0, 0]))
    ]
  }

  lemma AfterThreeReads(lim: Limits, w: FsEntry -> FsEntry, x: string, y: string, z: string, calls: seq<Call>)
    requires lim.maxDirectories >= 3 && lim.maxDirectoryEntries >= 2 && x != y && x != z && y != z
    requires calls == HangingCalls(lim, x, y, z)
    ensures Clean(lim, calls[..3], w)
    ensures var s := After(lim, calls[..3], w);
            && s == Lru([NewItem(calls[2], w), NewItem(calls[1], w), NewItem(calls[0], w)], false)
            && Size(s.items) == lim.maxDirectoryEntries
  {
    var a, b, c := NewItem(calls[0], w), NewItem(calls[1], w), NewItem(calls[2], w);
    AfterTwoReads(lim, w, calls);
    AfterNext(lim, calls, w, 2);
    StoresInFront(lim, Lru([b, a], false), calls[2], w);
    assert [c] + [b, a] == [c, b, a];
    var first := calls[..3];
    assert first[..0] == [] && first[..1] == calls[..1] && first[..2] == calls[..2];
    assert CleanAt(lim, first, w, 0) && CleanAt(lim, first, w, 1) && CleanAt(lim, first, w, 2);
  }

  lemma ThirdIsEndless(lim: Limits, w: FsEntry -> FsEntry, x: string, y: string, z: string, calls: seq<Call>)
    requires lim.maxDirectories >= 3 && lim.maxDirectoryEntries >= 2
    requires x != "" && y != "" && z != "" && x != y && x != z && y != z && calls == HangingCalls(lim, x, y, z)
    ensures Clean(lim, calls[..3], w)
    ensures var s := After(lim, calls[..3], w);
            && Fits(lim, s.items) && PromotesLast(s, calls[3])
            && Endless(lim, GetSpec(lim, s, calls[3], w).state, calls[4])
  {
    AfterThreeReads(lim, w, x, y, z, calls);
    var s := After(lim, calls[..3], w);
    var rest := Without(s.items, 2);
    assert rest == [s.items[0], s.items[1]];
    SizeWithout(s.items, 2, rest, 3);
    SizeInFront(s.items[2], rest);
  }

  /** The last of the items is used, and expires before any other is. */
  method PromotedThenHangs(cache: Cache, c: Call, later: Call, w: FsEntry -> FsEntry, ghost s: Lru)
    requires cache.View() == Some(s) && Fits(cache.Lim(), s.items)
    requires PromotesLast(s, c) && Endless(cache.Lim(), GetSpec(cache.Lim(), s, c, w).state, later)
    modifies cache, cache.repr
    ensures cache.Stuck()
  {
    ghost var s' := GetSpec(cache.Lim(), s, c, w).state;
    WithoutKeepsLimits(cache.Lim(), s.items, |s.items| - 1);
    var out := cache.GetEntries(c, w, s);
    var early;
    ghost var state;
    early, state := cache.BeforeEviction(later, w, s');
  }

  /** After any run that broke nothing. */
  method RunThenHang(lim: Limits, calls: seq<Call>, c: Call, later: Call, w: FsEntry -> FsEntry) returns (cache: Cache)
    requires Clean(lim, calls, w) && PromotesLast(After(lim, calls, w), c)
    requires Endless(lim, GetSpec(lim, After(lim, calls, w), c, w).state, later)
    ensures cache.Lim() == lim && cache.Stuck()
  {
    RunsKeepLimits(lim, calls, w);
    var outs;
    cache, outs := RunNew(lim, calls, w);
    PromotedThenHangs(cache, c, later, w, After(lim, calls, w));
  }

  /** An ordinary run on an empty cache whose last call does not return. */
  method HangingRun(lim: Limits, w: FsEntry -> FsEntry, x: string, y: string, z: string) returns (cache: Cache)
    requires lim.maxDirectories >= 3 && lim.maxDirectoryEntries >= 2
    requires x != "" && y != "" && z != "" && x != y && x != z && y != z
    ensures cache.Lim() == lim && cache.Stuck()
  {
    var calls := HangingCalls(lim, x, y, z);
    ThirdIsEndless(lim, w, x, y, z, calls);
    cache := RunThenHang(lim, calls[..3], calls[3], calls[4], w);
  }
}
