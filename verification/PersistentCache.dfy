/** The size-limited persistent cache: sweeping, and the two lock sections of Put. */
module PersistentCache {
  import opened CacheHeap

  datatype SweepSettings = SweepSettings(maxSizeBytes: int, limitBytes: int, minSweepAge: int)

  // ---------- what a sweep does ----------

  predicate AboveSoftLimit(s: SweepSettings, used: int) {
    used > s.maxSizeBytes
  }

  predicate AboveHardLimit(s: SweepSettings, used: int) {
    s.limitBytes > 0 && used > s.limitBytes
  }

  predicate Young(s: SweepSettings, now: int, timestamp: int) {
    now - timestamp < s.minSweepAge
  }

  ghost function Ids(tried: seq<Metadata>): set<BlobID> {
    if tried == [] then {} else Ids(tried[..|tried| - 1]) + {tried[|tried| - 1].id}
  }

  /** The tried items whose deletion succeeded. */
  ghost function DeletedIds(tried: seq<Metadata>, fails: set<BlobID>): set<BlobID> {
    Ids(tried) - fails
  }

  ghost function DeletedBytes(tried: seq<Metadata>, fails: set<BlobID>): int {
    if tried == [] then 0 else
    var n := |tried| - 1;
    DeletedBytes(tried[..n], fails) + if tried[n].id in fails then 0 else tried[n].length
  }

  /** Item x of `items` is tried next: it is the oldest one left, and the limits ask for its deletion. */
  ghost predicate TriedInTurn(s: SweepSettings, now: int, fails: set<BlobID>, items: Items, used: int,
                              before: seq<Metadata>, x: Metadata) {
    var u := used - DeletedBytes(before, fails);
    && x.id in items && items[x.id] == x && x.id !in Ids(before)
    && (forall id :: id in items && id !in Ids(before) ==> x.timestamp <= items[id].timestamp)
    && (AboveHardLimit(s, u) || (AboveSoftLimit(s, u) && !Young(s, now, x.timestamp)))
  }

  /**
    The sweep may stop: nothing is left to try, or the limits are met, or only
    young items are left and the hard limit is met.
   */
  ghost predicate MayStop(s: SweepSettings, now: int, fails: set<BlobID>, items: Items, used: int,
                          tried: seq<Metadata>) {
    var u := used - DeletedBytes(tried, fails);
    || items.Keys <= Ids(tried)
    || (!AboveSoftLimit(s, u) && !AboveHardLimit(s, u))
    || (!AboveHardLimit(s, u) && forall id :: id in items && id !in Ids(tried) ==> Young(s, now, items[id].timestamp))
  }

  ghost predicate AllTriedInTurn(s: SweepSettings, now: int, fails: set<BlobID>, items: Items, used: int,
                                 tried: seq<Metadata>) {
    tried != [] ==>
      var n := |tried| - 1;
      && TriedInTurn(s, now, fails, items, used, tried[..n], tried[n])
      && AllTriedInTurn(s, now, fails, items, used, tried[..n])
  }

  /**
    A complete sweep of `items`, with `used` bytes in use or reserved and
    deletions failing for `fails`: it tries `tried` in that order.
   */
  ghost predicate SweepRun(s: SweepSettings, now: int, fails: set<BlobID>, items: Items, used: int,
                           tried: seq<Metadata>) {
    AllTriedInTurn(s, now, fails, items, used, tried) && MayStop(s, now, fails, items, used, tried)
  }

  // ---------- putting failed deletions back ----------

  ghost function Failed(tried: seq<Metadata>, fails: set<BlobID>): seq<Metadata> {
    if tried == [] then [] else
    var n := |tried| - 1;
    if tried[n].id in fails then Failed(tried[..n], fails) + [tried[n]] else Failed(tried[..n], fails)
  }

  ghost function PushedAll(items: Items, list: seq<Metadata>): Items {
    if list == [] then items else
    var n := |list| - 1;
    PushedAll(items, list[..n])[list[n].id := list[n]]
  }

  ghost predicate AllNew(items: Items, list: seq<Metadata>) {
    list != [] ==>
      var n := |list| - 1;
      list[n].id !in PushedAll(items, list[..n]) && AllNew(items, list[..n])
  }

  lemma {:induction false} AllNewAt(items: Items, list: seq<Metadata>, i: nat)
    requires AllNew(items, list) && i < |list|
    ensures list[i].id !in PushedAll(items, list[..i])
  {
    var n := |list| - 1;
    if i < n {
      AllNewAt(items, list[..n], i);
      assert list[..n][..i] == list[..i];
    }
  }

  /** What one more try adds to the books. */
  lemma TryOne(tried: seq<Metadata>, x: Metadata, fails: set<BlobID>, tried': seq<Metadata>)
    requires tried' == tried + [x]
    ensures tried'[..|tried|] == tried && Ids(tried') == Ids(tried) + {x.id}
    ensures DeletedBytes(tried', fails) == DeletedBytes(tried, fails) + if x.id in fails then 0 else x.length
    ensures Failed(tried', fails) == if x.id in fails then Failed(tried, fails) + [x] else Failed(tried, fails)
  {
    assert tried'[..|tried|] == tried;
  }

  /** The failed items, pushed onto what was never tried, give all items but the deleted ones. */
  lemma {:induction false} FailedArePutBack(s: SweepSettings, now: int, fails: set<BlobID>, items: Items, used: int,
                                            tried: seq<Metadata>, all: set<BlobID>)
    requires AllTriedInTurn(s, now, fails, items, used, tried) && Ids(tried) <= all
    ensures AllNew(items - all, Failed(tried, fails))
    ensures PushedAll(items - all, Failed(tried, fails)) == items - (all - Ids(tried) * fails)
  {
    if tried == [] {
      assert all - Ids(tried) * fails == all;
    } else {
      var n := |tried| - 1;
      var front, x := tried[..n], tried[n];
      FailedArePutBack(s, now, fails, items, used, front, all);
      if x.id in fails {
        assert Failed(tried, fails)[..|Failed(front, fails)|] == Failed(front, fails);
        PutBackOne(items, all, Ids(front) * fails, x);
        assert Ids(tried) * fails == Ids(front) * fails + {x.id};
      } else {
        assert Ids(tried) * fails == Ids(front) * fails;
      }
    }
  }

  lemma OnlyDeletedAreGone(s: SweepSettings, now: int, fails: set<BlobID>, items: Items, used: int,
                           tried: seq<Metadata>)
    requires AllTriedInTurn(s, now, fails, items, used, tried)
    ensures AllNew(items - Ids(tried), Failed(tried, fails))
    ensures PushedAll(items - Ids(tried), Failed(tried, fails)) == items - DeletedIds(tried, fails)
  {
    FailedArePutBack(s, now, fails, items, used, tried, Ids(tried));
    assert Ids(tried) - Ids(tried) * fails == DeletedIds(tried, fails);
  }

  lemma PutBackOne(items: Items, all: set<BlobID>, back: set<BlobID>, x: Metadata)
    requires x.id in items && items[x.id] == x && x.id in all && x.id !in back
    ensures x.id !in items - (all - back)
    ensures (items - (all - back))[x.id := x] == items - (all - (back + {x.id}))
  {
  }

  // ---------- the sweep ----------

  /** The sweep has tried `tried`; `rest` is left in the heap and `u` bytes are in use or reserved. */
  ghost predicate Progress(s: SweepSettings, now: int, fails: set<BlobID>, items: Items, used: int,
                           tried: seq<Metadata>, rest: Items, u: int) {
    && AllTriedInTurn(s, now, fails, items, used, tried)
    && rest == items - Ids(tried)
    && u == used - DeletedBytes(tried, fails)
  }

  lemma ProgressStep(s: SweepSettings, now: int, fails: set<BlobID>, items: Items, used: int, tried: seq<Metadata>,
                     rest: Items, u: int, x: Metadata, tried': seq<Metadata>, rest': Items, u': int)
    requires Progress(s, now, fails, items, used, tried, rest, u)
    requires x.id in rest && rest[x.id] == x && forall id :: id in rest ==> x.timestamp <= rest[id].timestamp
    requires AboveHardLimit(s, u) || (AboveSoftLimit(s, u) && !Young(s, now, x.timestamp))
    requires tried' == tried + [x] && rest' == rest - {x.id} && u' == if x.id in fails then u else u - x.length
    ensures Progress(s, now, fails, items, used, tried', rest', u')
  {
    TryOne(tried, x, fails, tried');
    forall id | id in items && id !in Ids(tried)
      ensures x.timestamp <= items[id].timestamp
    {
      assert id in rest;
    }
  }

  lemma ProgressStop(s: SweepSettings, now: int, fails: set<BlobID>, items: Items, used: int, tried: seq<Metadata>,
                     rest: Items, u: int)
    requires Progress(s, now, fails, items, used, tried, rest, u)
    requires || rest == map[]
             || (!AboveSoftLimit(s, u) && !AboveHardLimit(s, u))
             || (!AboveHardLimit(s, u) && forall id :: id in rest ==> Young(s, now, rest[id].timestamp))
    ensures SweepRun(s, now, fails, items, used, tried)
  {
    if rest == map[] {
      assert items.Keys - Ids(tried) == rest.Keys == {};
      assert items.Keys <= Ids(tried);
    } else if AboveSoftLimit(s, u) || AboveHardLimit(s, u) {
      forall id | id in items && id !in Ids(tried)
        ensures Young(s, now, items[id].timestamp)
      {
        assert id in rest;
      }
    }
  }

  /** The oldest item of a heap, by id. */
  lemma OldestItem(h: Heap)
    requires h.data != [] && Ordered(h.data, |h.data|)
    ensures var x := h.data[0];
            && x.id in ItemsOf(h) && ItemsOf(h)[x.id] == x
            && forall id :: id in ItemsOf(h) ==> x.timestamp <= ItemsOf(h)[id].timestamp
  {
    forall id | id in ItemsOf(h)
      ensures h.data[0].timestamp <= ItemsOf(h)[id].timestamp
    {
      RootIsOldest(h.data, |h.data|, h.index[id]);
    }
  }

  lemma EmptyHeapHasNoItems(h: Heap)
    requires h.data == []
    ensures ItemsOf(h) == map[] && Sum(h.data) == 0
  {
  }

  /** The deletion loop of sweepLocked. */
  method DeleteOldest(s: SweepSettings, now: int, fails: set<BlobID>, h0: Heap, total0: int, pending: int)
    returns (h: Heap, total: int, tried: seq<Metadata>, failed: seq<Metadata>)
    requires Ordered(h0.data, |h0.data|) && total0 == Sum(h0.data)
    ensures Ordered(h.data, |h.data|)
    ensures SweepRun(s, now, fails, ItemsOf(h0), Sum(h0.data) + pending, tried)
    ensures ItemsOf(h) == ItemsOf(h0) - Ids(tried) && failed == Failed(tried, fails)
    ensures total == Sum(h.data) && total + Sum(failed) == total0 - DeletedBytes(tried, fails)
  {
    ghost var items, used := ItemsOf(h0), Sum(h0.data) + pending;
    h, tried, failed := h0, [], [];
    total := total0;
    var failedBytes := 0;
    while h.data != []
      invariant Ordered(h.data, |h.data|)
      invariant total == Sum(h.data) && failedBytes == Sum(failed) && failed == Failed(tried, fails)
      invariant Progress(s, now, fails, items, used, tried, ItemsOf(h), total + failedBytes + pending)
      decreases |h.data|
    {
      var inUse := total + failedBytes + pending;
      var oldest := h.data[0];
      OldestItem(h);
      var above := AboveHardLimit(s, inUse);
      if !(AboveSoftLimit(s, inUse) || above) || (Young(s, now, oldest.timestamp) && !above) {
        ProgressStop(s, now, fails, items, used, tried, ItemsOf(h), inUse);
        return;
      }
      ghost var rest := ItemsOf(h);
      h := HeapRemove(h, 0);
      total := total - oldest.length;
      TryOne(tried, oldest, fails, tried + [oldest]);
      if oldest.id in fails {
        SumAppend(failed, oldest);
        failed, failedBytes := failed + [oldest], failedBytes + oldest.length;
      }
      ProgressStep(s, now, fails, items, used, tried, rest, inUse, oldest, tried + [oldest], ItemsOf(h),
                   total + failedBytes + pending);
      tried := tried + [oldest];
    }
    EmptyHeapHasNoItems(h);
    ProgressStop(s, now, fails, items, used, tried, ItemsOf(h), total + failedBytes + pending);
  }

  lemma SumAppend(d: seq<Metadata>, x: Metadata)
    ensures Sum(d + [x]) == Sum(d) + x.length
  {
    assert (d + [x])[..|d|] == d;
  }

  /** Pushes a list of items: the last loop of sweepLocked, and the listing of initialScan. */
  method PutBack(h0: Heap, list: seq<Metadata>) returns (h: Heap, bytes: int)
    requires Ordered(h0.data, |h0.data|) && AllNew(ItemsOf(h0), list)
    ensures Ordered(h.data, |h.data|)
    ensures ItemsOf(h) == PushedAll(ItemsOf(h0), list) && Sum(h.data) == Sum(h0.data) + bytes && bytes == Sum(list)
  {
    h, bytes := h0, 0;
    for i := 0 to |list|
      invariant Ordered(h.data, |h.data|)
      invariant ItemsOf(h) == PushedAll(ItemsOf(h0), list[..i])
      invariant Sum(h.data) == Sum(h0.data) + bytes && bytes == Sum(list[..i])
    {
      AllNewAt(ItemsOf(h0), list, i);
      assert list[..i + 1][..i] == list[..i];
      h := HeapPush(h, list[i]);
      bytes := bytes + list[i].length;
    }
    assert list[..|list|] == list;
  }

  // ---------- the recorded bytes ----------

  /** The sum of the recorded lengths of all items. */
  ghost function Recorded(items: Items): int {
    if items == map[] then 0 else
    var id :| id in items;
    items[id].length + Recorded(items - {id})
  }

  lemma {:induction false} RecordedWithout(items: Items, id: BlobID)
    requires id in items
    ensures Recorded(items) == items[id].length + Recorded(items - {id})
    decreases |items|
  {
    var k :| k in items && Recorded(items) == items[k].length + Recorded(items - {k});
    if k != id {
      RecordedWithout(items - {k}, id);
      RecordedWithout(items - {id}, k);
      assert items - {k} - {id} == items - {id} - {k};
    }
  }

  lemma RecordedWith(items: Items, x: Metadata)
    ensures Recorded(items[x.id := x]) == Recorded(items) + x.length - if x.id in items then items[x.id].length else 0
  {
    RecordedWithout(items[x.id := x], x.id);
    assert items[x.id := x] - {x.id} == items - {x.id};
    if x.id in items {
      RecordedWithout(items, x.id);
    } else {
      assert items - {x.id} == items;
    }
  }

  /** The running total of a heap is what its items record. */
  lemma {:induction false} SumIsRecorded(h: Heap)
    ensures Sum(h.data) == Recorded(ItemsOf(h))
    decreases |h.data|
  {
    if h.data == [] {
      EmptyHeapHasNoItems(h);
    } else {
      var n := |h.data| - 1;
      var h' := HeapData(h.data[..n], h.index - {h.data[n].id});
      DropElement(h, h');
      SumIsRecorded(h');
      ItemAt(h, n);
      RecordedWithout(ItemsOf(h), h.data[n].id);
    }
  }

  /** A sweep lowers the recorded bytes by exactly the lengths of what it deleted. */
  lemma {:induction false} SweepConservesBytes(s: SweepSettings, now: int, fails: set<BlobID>, items: Items,
                                               used: int, tried: seq<Metadata>)
    requires AllTriedInTurn(s, now, fails, items, used, tried)
    ensures Recorded(items - DeletedIds(tried, fails)) == Recorded(items) - DeletedBytes(tried, fails)
  {
    if tried == [] {
      assert items - DeletedIds(tried, fails) == items;
    } else {
      var n := |tried| - 1;
      var x, left := tried[n], items - DeletedIds(tried[..n], fails);
      SweepConservesBytes(s, now, fails, items, used, tried[..n]);
      if x.id in fails {
        assert DeletedIds(tried, fails) == DeletedIds(tried[..n], fails);
      } else {
        RecordedWithout(left, x.id);
        assert left - {x.id} == items - DeletedIds(tried, fails);
      }
    }
  }

  /**
    How a sweep can end, in terms of what it leaves behind: both limits are met,
    or only items that cannot be deleted are left, or the hard limit is met and
    all that was not tried is too young.
   */
  lemma SweepOutcome(s: SweepSettings, now: int, fails: set<BlobID>, items: Items, pending: int, tried: seq<Metadata>)
    requires SweepRun(s, now, fails, items, Recorded(items) + pending, tried)
    ensures var left := items - DeletedIds(tried, fails);
            var used := Recorded(left) + pending;
            || (used <= s.maxSizeBytes && (s.limitBytes > 0 ==> used <= s.limitBytes))
            || left.Keys <= fails
            || (&& (s.limitBytes > 0 ==> used <= s.limitBytes)
                && forall id :: id in left && id !in Ids(tried) ==> now - left[id].timestamp < s.minSweepAge)
  {
    SweepConservesBytes(s, now, fails, items, Recorded(items) + pending, tried);
  }

  lemma {:induction false} TriedAt(s: SweepSettings, now: int, fails: set<BlobID>, items: Items, used: int,
                                   tried: seq<Metadata>, k: nat)
    requires AllTriedInTurn(s, now, fails, items, used, tried) && k < |tried|
    ensures TriedInTurn(s, now, fails, items, used, tried[..k], tried[k])
    ensures AllTriedInTurn(s, now, fails, items, used, tried[..k])
  {
    var n := |tried| - 1;
    if k < n {
      TriedAt(s, now, fails, items, used, tried[..n], k);
      assert tried[..n][..k] == tried[..k];
    }
  }

  lemma {:induction false} IdsAt(tried: seq<Metadata>, i: nat)
    requires i < |tried|
    ensures tried[i].id in Ids(tried)
  {
    var n := |tried| - 1;
    if i < n {
      IdsAt(tried[..n], i);
    }
  }

  /**
    A sweep tries nothing without need: each item it tries was the oldest one
    not tried yet, and at that time the hard limit was exceeded, or the soft
    limit was and the item was old enough.
   */
  lemma SweepTriesOnlyInNeed(s: SweepSettings, now: int, fails: set<BlobID>, items: Items, pending: int,
                             tried: seq<Metadata>, k: nat)
    requires SweepRun(s, now, fails, items, Recorded(items) + pending, tried) && k < |tried|
    ensures tried[k].id in items && items[tried[k].id] == tried[k]
    ensures forall i :: 0 <= i < k ==> tried[i].id != tried[k].id
    ensures forall id :: id in items && id !in Ids(tried[..k]) ==> tried[k].timestamp <= items[id].timestamp
    ensures var used := Recorded(items - DeletedIds(tried[..k], fails)) + pending;
            || 0 < s.limitBytes < used
            || (used > s.maxSizeBytes && now - tried[k].timestamp >= s.minSweepAge)
  {
    TriedAt(s, now, fails, items, Recorded(items) + pending, tried, k);
    SweepConservesBytes(s, now, fails, items, Recorded(items) + pending, tried[..k]);
    forall i | 0 <= i < k
      ensures tried[i].id != tried[k].id
    {
      IdsAt(tried[..k], i);
    }
  }

  // ---------- the lock sections, as steps ----------

  /** One call of Put: reserved between its two lock sections, then done. */
  datatype PutState = InFlight(bytes: nat) | Done

  datatype State = State(items: Items, pending: int, puts: seq<PutState>)

  /** A section run while holding listCacheMutex. */
  datatype Step =
    | PutBegin(bytes: nat, now: int, fails: set<BlobID>, tried: seq<Metadata>)
    | PutEnd(put: nat, written: Metadata)
    | Hit(touched: Metadata)
    | DropInvalid(id: BlobID)

  ghost predicate Next(s: SweepSettings, st: State, st': State, step: Step) {
    match step
    case PutBegin(bytes, now, fails, tried) =>
      && st'.pending == st.pending + bytes
      && SweepRun(s, now, fails, st.items, Recorded(st.items) + st'.pending, tried)
      && st'.items == st.items - DeletedIds(tried, fails)
      && st'.puts == st.puts + [InFlight(bytes)]
    case PutEnd(put, written) =>
      && put < |st.puts| && written.length >= 0 && st.puts[put] == InFlight(written.length)
      && st' == State(Updated(st.items, written), st.pending - written.length, st.puts[put := Done])
    case Hit(touched) => st' == st.(items := Updated(st.items, touched))
    case DropInvalid(id) => st' == st.(items := st.items - {id})
  }

  ghost function Reserved(puts: seq<PutState>): int {
    if puts == [] then 0 else
    var n := |puts| - 1;
    Reserved(puts[..n]) + if puts[n].InFlight? then puts[n].bytes else 0
  }

  lemma {:induction false} ReservedUpdate(puts: seq<PutState>, i: nat)
    requires i < |puts| && puts[i].InFlight?
    ensures Reserved(puts[i := Done]) == Reserved(puts) - puts[i].bytes
  {
    var n := |puts| - 1;
    if i < n {
      assert puts[i := Done][..n] == puts[..n][i := Done];
      ReservedUpdate(puts[..n], i);
    } else {
      assert puts[i := Done][..n] == puts[..n];
    }
  }

  /** In every interleaving, pendingWriteBytes is the sum of the reservations of the calls in flight. */
  lemma PendingIsReserved(s: SweepSettings, st: State, st': State, step: Step)
    requires Next(s, st, st', step) && st.pending == Reserved(st.puts)
    ensures st'.pending == Reserved(st'.puts)
  {
    match step
    case PutBegin(bytes, now, fails, tried) =>
      assert st'.puts[..|st.puts|] == st.puts;
    case PutEnd(put, written) =>
      ReservedUpdate(st.puts, put);
    case Hit(touched) =>
    case DropInvalid(id) =>
  }

  /** No recorded length is below the given one. */
  ghost predicate LengthsAtLeast(items: Items, least: int) {
    forall id :: id in items ==> items[id].length >= least
  }

  /** A Put begins orderly: its deletions succeed and the reservations alone fit. */
  ghost predicate Orderly(s: SweepSettings, st': State, step: Step) {
    step.PutBegin? ==> step.fails == {} && st'.pending <= s.limitBytes
  }

  /** A hit records no more than before, and no less than the given length. */
  ghost predicate Modest(st: State, step: Step, least: int) {
    step.Hit? ==> step.touched.length >= least && Growth(st.items, step.touched) <= 0
  }

  /** The recorded bytes and the reservations. */
  ghost function Used(st: State): int {
    Recorded(st.items) + st.pending
  }

  ghost predicate WithinLimit(s: SweepSettings, st: State) {
    Used(st) <= s.limitBytes
  }

  lemma UpdatedRecorded(items: Items, x: Metadata)
    ensures Recorded(Updated(items, x)) == Recorded(items) + Growth(items, x)
  {
    RecordedWith(items, x);
  }

  /** By how much a step other than the beginning of a Put changes what is used. */
  ghost function Drift(st: State, step: Step): int {
    match step
    case PutBegin(_, _, _, _) => 0
    case PutEnd(_, written) => Growth(st.items, written) - written.length
    case Hit(touched) => Growth(st.items, touched)
    case DropInvalid(id) => if id in st.items then -st.items[id].length else 0
  }

  lemma StepDrifts(s: SweepSettings, st: State, st': State, step: Step)
    requires Next(s, st, st', step) && !step.PutBegin?
    ensures Used(st') == Used(st) + Drift(st, step)
  {
    match step
    case PutEnd(put, written) =>
      UpdatedRecorded(st.items, written);
    case Hit(touched) =>
      UpdatedRecorded(st.items, touched);
    case DropInvalid(id) =>
      if id in st.items {
        RecordedWithout(st.items, id);
      } else {
        assert st.items - {id} == st.items;
      }
  }

  /** A Put that begins orderly brings the cache back within the hard limit, whatever was recorded before. */
  lemma PutBeginMeetsLimit(s: SweepSettings, st: State, st': State, step: Step)
    requires s.limitBytes > 0 && Next(s, st, st', step) && step.PutBegin? && Orderly(s, st', step)
    ensures WithinLimit(s, st')
  {
    SweepConservesBytes(s, step.now, step.fails, st.items, Recorded(st.items) + st'.pending, step.tried);
    if st.items.Keys <= Ids(step.tried) {
      assert st'.items == map[];
    }
  }

  ghost predicate IsRun(s: SweepSettings, states: seq<State>, steps: seq<Step>) {
    && |states| == |steps| + 1
    && forall i :: 0 <= i < |steps| ==> Next(s, states[i], states[i + 1], steps[i])
  }

  ghost predicate AllOrderly(s: SweepSettings, states: seq<State>, steps: seq<Step>)
    requires |states| == |steps| + 1
  {
    forall i :: 0 <= i < |steps| ==> Orderly(s, states[i + 1], steps[i])
  }

  /** All upward drift since a Put last began. */
  ghost function Overrun(states: seq<State>, steps: seq<Step>, i: nat): nat
    requires |states| == |steps| + 1 && i < |states|
  {
    if i == 0 || steps[i - 1].PutBegin? then 0
    else
      var drift := Drift(states[i - 1], steps[i - 1]);
      Overrun(states, steps, i - 1) + if drift > 0 then drift else 0
  }

  /** The number of steps since a Put last began. */
  function StepsSince(steps: seq<Step>, i: nat): nat
    requires i <= |steps|
  {
    if i == 0 || steps[i - 1].PutBegin? then 0 else StepsSince(steps, i - 1) + 1
  }

  /** The sweep after the initial scan meets the hard limit. */
  lemma ScanMeetsLimit(s: SweepSettings, now: int, items: Items, tried: seq<Metadata>)
    requires s.limitBytes > 0 && SweepRun(s, now, {}, items, Recorded(items), tried)
    ensures WithinLimit(s, State(items - DeletedIds(tried, {}), 0, []))
  {
    SweepConservesBytes(s, now, {}, items, Recorded(items), tried);
    if items.Keys <= Ids(tried) {
      assert items - DeletedIds(tried, {}) == map[];
    }
  }

  /**
    Every run, whatever the interleaving of its lock sections and whatever hits
    record: the books are right, and the hard limit is exceeded by no more than
    the upward drift since a Put last began.
   */
  lemma {:induction false} RunsStayNearLimit(s: SweepSettings, states: seq<State>, steps: seq<Step>, i: nat)
    requires s.limitBytes > 0 && IsRun(s, states, steps) && AllOrderly(s, states, steps) && i < |states|
    requires states[0].pending == Reserved(states[0].puts) && WithinLimit(s, states[0])
    ensures states[i].pending == Reserved(states[i].puts)
    ensures Used(states[i]) <= s.limitBytes + Overrun(states, steps, i)
  {
    if i > 0 {
      var st, st', step := states[i - 1], states[i], steps[i - 1];
      RunsStayNearLimit(s, states, steps, i - 1);
      assert Next(s, st, st', step) && Orderly(s, st', step);
      PendingIsReserved(s, st, st', step);
      if step.PutBegin? {
        PutBeginMeetsLimit(s, st, st', step);
      } else {
        StepDrifts(s, st, st', step);
      }
    }
  }

  /** Where no length below `least` is recorded, modest steps drift upwards by no more than that. */
  lemma ModestStepsDriftLittle(s: SweepSettings, st: State, st': State, step: Step, least: int)
    requires Next(s, st, st', step) && Modest(st, step, least) && least <= 0 && LengthsAtLeast(st.items, least)
    ensures Drift(st, step) <= -least && LengthsAtLeast(st'.items, least)
  {
  }

  /**
    With hits that record no more than before: the hard limit is kept if none is
    a full read, and otherwise exceeded by at most one byte for each step since
    a Put last began.
   */
  lemma {:induction false} RunsKeepLimit(s: SweepSettings, states: seq<State>, steps: seq<Step>, least: int, i: nat)
    requires s.limitBytes > 0 && IsRun(s, states, steps) && AllOrderly(s, states, steps) && i < |states|
    requires states[0].pending == Reserved(states[0].puts) && WithinLimit(s, states[0])
    requires -1 <= least <= 0 && LengthsAtLeast(states[0].items, least)
    requires forall j :: 0 <= j < |steps| ==> Modest(states[j], steps[j], least)
    ensures LengthsAtLeast(states[i].items, least)
    ensures Overrun(states, steps, i) <= if least == 0 then 0 else StepsSince(steps, i)
    ensures Used(states[i]) <= s.limitBytes + if least == 0 then 0 else StepsSince(steps, i)
  {
    RunsStayNearLimit(s, states, steps, i);
    if i > 0 {
      RunsKeepLimit(s, states, steps, least, i - 1);
      assert Next(s, states[i - 1], states[i], steps[i - 1]) && Modest(states[i - 1], steps[i - 1], least);
      ModestStepsDriftLittle(s, states[i - 1], states[i], steps[i - 1], least);
    }
  }

  /** A cache hit keeps the limit exactly when the length it records adds no more than what is left of it. */
  lemma HitKeepsLimitExactly(s: SweepSettings, st: State, st': State, touched: Metadata)
    requires Next(s, st, st', Hit(touched))
    ensures WithinLimit(s, st') <==> Growth(st.items, touched) <= s.limitBytes - Recorded(st.items) - st.pending
  {
    UpdatedRecorded(st.items, touched);
  }

  /** A full read records the length -1: the total then no longer counts the blob at all. */
  lemma FullReadForgetsBytes(s: SweepSettings, st: State, st': State, id: BlobID, timestamp: int)
    requires Next(s, st, st', Hit(Metadata(id, -1, timestamp))) && id in st.items && st.items[id].timestamp < timestamp
    ensures Recorded(st'.items) == Recorded(st.items) - st.items[id].length - 1
  {
    UpdatedRecorded(st.items, Metadata(id, -1, timestamp));
  }

  lemma OneItem(x: Metadata)
    ensures Recorded(map[x.id := x]) == x.length
  {
    RecordedWithout(map[x.id := x], x.id);
    assert map[x.id := x] - {x.id} == map[];
  }

  lemma NothingToSweep(s: SweepSettings, now: int, items: Items, used: int)
    requires !AboveSoftLimit(s, used) && !AboveHardLimit(s, used)
    ensures SweepRun(s, now, {}, items, used, []) && items - DeletedIds([], {}) == items
  {
  }

  /**
    Reading alone can break the limit, on a run from an empty cache: a blob of 9
    bytes is put, 3 of them are read, a Put of 7 bytes begins, and all 9 are read
    as a range.
   */
  lemma HitCanBreakLimit() returns (s: SweepSettings, states: seq<State>, steps: seq<Step>)
    ensures s.limitBytes > 0 && IsRun(s, states, steps) && AllOrderly(s, states, steps) && |steps| == 5
    ensures states[0] == State(map[], 0, []) && steps[4].Hit?
    ensures WithinLimit(s, states[4]) && !WithinLimit(s, states[5])
  {
    s := SweepSettings(10, 10, 0);
    var a, b, c := Metadata("a", 9, 1), Metadata("a", 3, 2), Metadata("a", 9, 3);
    var s0 := State(map[], 0, []);
    var s1 := State(map[], 9, [InFlight(9)]);
    var s2 := State(map[a.id := a], 0, [Done]);
    var s3 := State(map[b.id := b], 0, [Done]);
    var s4 := State(map[b.id := b], 7, [Done, InFlight(7)]);
    var s5 := State(map[c.id := c], 7, [Done, InFlight(7)]);
    OneItem(a);
    OneItem(b);
    OneItem(c);
    NothingToSweep(s, 0, s0.items, 9);
    NothingToSweep(s, 0, s3.items, 10);
    assert [] + [InFlight(9)] == [InFlight(9)] && [Done] + [InFlight(7)] == [Done, InFlight(7)];
    assert Next(s, s0, s1, PutBegin(9, 0, {}, []));
    assert Next(s, s1, s2, PutEnd(0, a));
    assert Next(s, s2, s3, Hit(b));
    assert Next(s, s3, s4, PutBegin(7, 0, {}, []));
    assert Next(s, s4, s5, Hit(c));
    states := [s0, s1, s2, s3, s4, s5];
    steps := [PutBegin(9, 0, {}, []), PutEnd(0, a), Hit(b), PutBegin(7, 0, {}, []), Hit(c)];
  }

  // ---------- the object ----------

  class Cache {
    const listCache: ContentMetadataHeap
    const sweep: SweepSettings
    var pendingWriteBytes: int
    ghost var puts: seq<PutState> // the calls of Put so far

    ghost predicate Valid()
      reads this, listCache
    {
      listCache.Valid()
    }

    ghost function Snapshot(): State
      requires Valid()
      reads this, listCache
    {
      State(listCache.Contents(), pendingWriteBytes, puts)
    }

    constructor (sweep: SweepSettings)
      ensures Valid() && fresh(listCache) && this.sweep == sweep && Snapshot() == State(map[], 0, [])
    {
      listCache := new ContentMetadataHeap();
      this.sweep := sweep;
      pendingWriteBytes := 0;
      puts := [];
    }

    /**
      Deletes oldest items first until the limits allow to stop; deleting a
      blob in `fails` fails, and such items are put back at the end.
     */
    method SweepLocked(now: int, fails: set<BlobID>) returns (tried: seq<Metadata>)
      requires Valid()
      modifies listCache
      ensures Valid()
      ensures SweepRun(sweep, now, fails, old(listCache.Contents()),
                       old(listCache.totalDataBytes) + pendingWriteBytes, tried)
      ensures listCache.Contents() == old(listCache.Contents()) - DeletedIds(tried, fails)
      ensures listCache.totalDataBytes == old(listCache.totalDataBytes) - DeletedBytes(tried, fails)
      ensures var left, used := listCache.Contents(), listCache.totalDataBytes + pendingWriteBytes;
              || (used <= sweep.maxSizeBytes && (sweep.limitBytes > 0 ==> used <= sweep.limitBytes))
              || left.Keys <= fails
              || (&& (sweep.limitBytes > 0 ==> used <= sweep.limitBytes)
                  && forall id :: id in left && id !in Ids(tried) ==> now - left[id].timestamp < sweep.minSweepAge)
    {
      var h: Heap := HeapData(listCache.data, listCache.index);
      var total := listCache.totalDataBytes;
      var h', total';
      h', total', tried := SweepHeap(sweep, now, fails, h, total, pendingWriteBytes);
      SumIsRecorded(h);
      SumIsRecorded(h');
      SweepOutcome(sweep, now, fails, ItemsOf(h), pendingWriteBytes, tried);
      listCache.Install(h', total');
    }

    /** Enters the blobs found in storage, then sweeps. The listing names each blob once. */
    method InitialScan(listing: seq<Metadata>, now: int, fails: set<BlobID>) returns (tried: seq<Metadata>)
      requires Valid() && AllNew(listCache.Contents(), listing)
      modifies listCache
      ensures Valid()
      ensures var found := PushedAll(old(listCache.Contents()), listing);
              && SweepRun(sweep, now, fails, found,
                          old(listCache.totalDataBytes) + Sum(listing) + pendingWriteBytes, tried)
              && listCache.Contents() == found - DeletedIds(tried, fails)
    {
      var h, total;
      h, total, tried := ScanHeap(sweep, now, fails, HeapData(listCache.data, listCache.index), listing,
                                  listCache.totalDataBytes, pendingWriteBytes);
      listCache.Install(h, total);
    }

    /** totalDataBytes is the sum of the recorded lengths. */
    lemma TotalIsRecorded()
      requires Valid()
      ensures listCache.totalDataBytes == Recorded(listCache.Contents())
    {
      SumIsRecorded(HeapData(listCache.data, listCache.index));
    }

    /** The first lock section of Put, up to the release of the lock. */
    method BeginPut(bytes: nat, now: int, fails: set<BlobID>) returns (tried: seq<Metadata>)
      requires Valid()
      modifies this, listCache
      ensures Valid() && Next(sweep, old(Snapshot()), Snapshot(), PutBegin(bytes, now, fails, tried))
    {
      TotalIsRecorded();
      pendingWriteBytes := pendingWriteBytes + bytes;
      tried := SweepLocked(now, fails);
      puts := puts + [InFlight(bytes)];
    }

    /** The second lock section of Put, for a blob written with the given length and time. */
    method EndPut(written: Metadata, ghost put: nat)
      requires Valid() && put < |puts| && written.length >= 0 && puts[put] == InFlight(written.length)
      modifies this, listCache
      ensures Valid() && Next(sweep, old(Snapshot()), Snapshot(), PutEnd(put, written))
    {
      pendingWriteBytes := pendingWriteBytes - written.length;
      listCache.AddOrUpdate(written);
      puts := puts[put := Done];
    }

    /** The lock section of getPartialCacheHit, with the requested length. */
    method RecordHit(touched: Metadata)
      requires Valid()
      modifies listCache
      ensures Valid() && Next(sweep, old(Snapshot()), Snapshot(), Hit(touched))
    {
      listCache.AddOrUpdate(touched);
    }

    /** The lock section of deleteInvalidBlob. */
    method ForgetInvalid(id: BlobID)
      requires Valid()
      modifies listCache
      ensures Valid() && Next(sweep, old(Snapshot()), Snapshot(), DropInvalid(id))
    {
      if id in listCache.index {
        var removed := listCache.Remove(listCache.index[id]);
      } else {
        assert listCache.Contents() - {id} == listCache.Contents();
      }
    }
  }

  /** sweepLocked on the heap it works on. */
  method SweepHeap(s: SweepSettings, now: int, fails: set<BlobID>, h: Heap, total: int, pending: int)
    returns (h': Heap, total': int, tried: seq<Metadata>)
    requires Ordered(h.data, |h.data|) && total == Sum(h.data)
    ensures Ordered(h'.data, |h'.data|) && total' == Sum(h'.data)
    ensures SweepRun(s, now, fails, ItemsOf(h), total + pending, tried)
    ensures ItemsOf(h') == ItemsOf(h) - DeletedIds(tried, fails)
    ensures total' == total - DeletedBytes(tried, fails)
  {
    var failed;
    h', total', tried, failed := DeleteOldest(s, now, fails, h, total, pending);
    OnlyDeletedAreGone(s, now, fails, ItemsOf(h), total + pending, tried);
    var failedBytes;
    h', failedBytes := PutBack(h', failed);
    total' := total' + failedBytes;
  }

  /** initialScan on the heap: the listed blobs are pushed, then swept. */
  method ScanHeap(s: SweepSettings, now: int, fails: set<BlobID>, h: Heap, listing: seq<Metadata>, total: int,
                  pending: int)
    returns (h': Heap, total': int, tried: seq<Metadata>)
    requires Ordered(h.data, |h.data|) && total == Sum(h.data) && AllNew(ItemsOf(h), listing)
    ensures Ordered(h'.data, |h'.data|) && total' == Sum(h'.data)
    ensures var found := PushedAll(ItemsOf(h), listing);
            && SweepRun(s, now, fails, found, total + Sum(listing) + pending, tried)
            && ItemsOf(h') == found - DeletedIds(tried, fails)
  {
    var bytes;
    h', bytes := PutBack(h, listing);
    h', total', tried := SweepHeap(s, now, fails, h', total + bytes, pending);
  }
}
