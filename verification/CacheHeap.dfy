/** The timestamp heap of the persistent cache, with its reverse index and byte total. */
module CacheHeap {
  type BlobID = string

  datatype Metadata = Metadata(id: BlobID, length: int, timestamp: int)

  type Items = map<BlobID, Metadata>

  // ---------- heap order ----------

  function Parent(k: nat): nat
    requires k > 0
  {
    (k - 1) / 2
  }

  /** Element k is not older than its parent. */
  ghost predicate OrderedAt(d: seq<Metadata>, k: nat)
    requires 0 < k < |d|
  {
    d[Parent(k)].timestamp <= d[k].timestamp
  }

  /** The first n elements form a heap. */
  ghost predicate Ordered(d: seq<Metadata>, n: nat)
    requires n <= |d|
  {
    forall k :: 0 < k < n ==> OrderedAt(d, k)
  }

  /** The children of i are not older than i's parent. */
  ghost predicate Skips(d: seq<Metadata>, i: nat, n: nat)
    requires n <= |d|
  {
    i > 0 ==> forall k :: 0 < k < n && Parent(k) == i ==> d[Parent(i)].timestamp <= d[k].timestamp
  }

  /** A heap except that element j may be older than its parent. */
  ghost predicate OrderedAbove(d: seq<Metadata>, j: nat, n: nat)
    requires n <= |d|
  {
    (forall k :: 0 < k < n && k != j ==> OrderedAt(d, k)) && Skips(d, j, n)
  }

  /** A heap except around element i, whose value was replaced. */
  ghost predicate OrderedAround(d: seq<Metadata>, i: nat, n: nat)
    requires n <= |d|
  {
    (forall k :: 0 < k < n && k != i && Parent(k) != i ==> OrderedAt(d, k)) && Skips(d, i, n)
  }

  /** The root of a heap is its oldest element. */
  lemma {:induction false} RootIsOldest(d: seq<Metadata>, n: nat, k: nat)
    requires n <= |d| && Ordered(d, n) && k < n
    ensures d[0].timestamp <= d[k].timestamp
  {
    if k > 0 {
      assert OrderedAt(d, k);
      RootIsOldest(d, n, Parent(k));
    }
  }

  // ---------- index and sum ----------

  /** `index` is the exact inverse of d: it maps the id of each element to its position and nothing else. */
  ghost predicate Inverse(d: seq<Metadata>, index: map<BlobID, nat>) {
    && (forall k :: 0 <= k < |d| ==> d[k].id in index && index[d[k].id] == k)
    && (forall id :: id in index ==> index[id] < |d| && d[index[id]].id == id)
  }

  datatype HeapData = HeapData(data: seq<Metadata>, index: map<BlobID, nat>)

  type Heap = h: HeapData | Inverse(h.data, h.index) witness HeapData([], map[])

  /** The elements of a heap by id. */
  ghost function ItemsOf(h: Heap): (m: Items)
    ensures m.Keys == h.index.Keys
  {
    map id | id in h.index :: h.data[h.index[id]]
  }

  ghost function Sum(d: seq<Metadata>): int {
    if d == [] then 0 else Sum(d[..|d| - 1]) + d[|d| - 1].length
  }

  lemma {:induction false} SumUpdate(d: seq<Metadata>, i: nat, x: Metadata)
    requires i < |d|
    ensures Sum(d[i := x]) == Sum(d) - d[i].length + x.length
  {
    var n := |d| - 1;
    if i < n {
      assert d[i := x][..n] == d[..n][i := x];
      SumUpdate(d[..n], i, x);
    } else {
      assert d[i := x][..n] == d[..n];
    }
  }

  function Swapped(d: seq<Metadata>, i: nat, j: nat): seq<Metadata>
    requires i < |d| && j < |d|
  {
    d[i := d[j]][j := d[i]]
  }

  /** h' holds the same elements as h. */
  ghost predicate Rearranged(h: Heap, h': Heap) {
    |h'.data| == |h.data| && ItemsOf(h') == ItemsOf(h) && Sum(h'.data) == Sum(h.data)
  }

  lemma SwapKeepsIndex(d: seq<Metadata>, index: map<BlobID, nat>, i: nat, j: nat, d': seq<Metadata>,
                       index': map<BlobID, nat>)
    requires i < |d| && j < |d| && Inverse(d, index)
    requires d' == Swapped(d, i, j) && index' == index[d[i].id := index[d[j].id]][d[j].id := index[d[i].id]]
    ensures Inverse(d', index') && index'.Keys == index.Keys
    ensures forall id :: id in index ==> d'[index'[id]] == d[index[id]]
  {
  }

  /** The Swap of the heap interface. */
  method Swap(h: Heap, i: nat, j: nat) returns (h': Heap)
    requires i < |h.data| && j < |h.data|
    ensures Rearranged(h, h')
    ensures h'.data == Swapped(h.data, i, j)
  {
    var iBlobID, jBlobID := h.data[i].id, h.data[j].id;
    var index := h.index[iBlobID := h.index[jBlobID]][jBlobID := h.index[iBlobID]];
    var data := h.data[i := h.data[j]][j := h.data[i]];
    SwapKeepsIndex(h.data, h.index, i, j, data, index);
    SumUpdate(h.data, i, h.data[j]);
    SumUpdate(h.data[i := h.data[j]], j, h.data[i]);
    h' := HeapData(data, index);
  }

  // ---------- container/heap ----------

  /** Moves element j0 of the first n up to its place. */
  method Up(h0: Heap, j0: nat, ghost n: nat) returns (h: Heap)
    requires j0 < n <= |h0.data| && OrderedAbove(h0.data, j0, n)
    ensures Rearranged(h0, h) && Ordered(h.data, n) && h.data[n..] == h0.data[n..]
  {
    h := h0;
    var j: nat := j0;
    while j > 0
      invariant j < n && Rearranged(h0, h) && OrderedAbove(h.data, j, n) && h.data[n..] == h0.data[n..]
      decreases j
    {
      var i := (j - 1) / 2;
      if !(h.data[j].timestamp < h.data[i].timestamp) {
        assert OrderedAt(h.data, j);
        break;
      }
      SwapUp(h.data, j, n);
      h := Swap(h, i, j);
      j := i;
    }
  }

  /** Swapping a too old element with its parent moves the exception one level up. */
  lemma SwapUp(d: seq<Metadata>, j: nat, n: nat)
    requires 0 < j < n <= |d| && OrderedAbove(d, j, n) && d[j].timestamp < d[Parent(j)].timestamp
    ensures var d' := Swapped(d, Parent(j), j); OrderedAbove(d', Parent(j), n) && d'[n..] == d[n..]
  {
    var i, d' := Parent(j), Swapped(d, Parent(j), j);
    forall k | 0 < k < n && k != i
      ensures OrderedAt(d', k)
    {
      if k != j {
        assert OrderedAt(d, k);
      }
    }
    if i > 0 {
      assert OrderedAt(d, i);
    }
    forall k | i > 0 && 0 < k < n && Parent(k) == i
      ensures d'[Parent(i)].timestamp <= d'[k].timestamp
    {
      if k != j {
        assert OrderedAt(d, k);
      }
    }
  }

  /** Moves element i0 of the first n down to its place; `moved` says whether it went anywhere. */
  method Down(h0: Heap, i0: nat, n: nat) returns (h: Heap, moved: bool)
    requires i0 < n <= |h0.data| && OrderedAround(h0.data, i0, n)
    ensures Rearranged(h0, h) && h.data[n..] == h0.data[n..]
    ensures moved ==> Ordered(h.data, n)
    ensures !moved ==> h == h0 && OrderedAbove(h.data, i0, n)
  {
    h := h0;
    var i := i0;
    while true
      invariant i0 <= i < n && Rearranged(h0, h) && h.data[n..] == h0.data[n..]
      invariant i == i0 ==> h == h0
      invariant OrderedAround(h.data, i, n)
      invariant i > i0 ==> OrderedAt(h.data, i)
      decreases n - i
    {
      var j1 := 2 * i + 1;
      if j1 >= n {
        SettledDown(h.data, i, n);
        break;
      }
      var j := j1;
      if j1 + 1 < n && h.data[j1 + 1].timestamp < h.data[j1].timestamp {
        j := j1 + 1;
      }
      OldestChild(h.data, i, j, n);
      if !(h.data[j].timestamp < h.data[i].timestamp) {
        SettledDown(h.data, i, n);
        break;
      }
      SwapDown(h.data, i, j, n);
      h := Swap(h, i, j);
      i := j;
    }
    moved := i > i0;
  }

  lemma OldestChild(d: seq<Metadata>, i: nat, j: nat, n: nat)
    requires n <= |d| && 2 * i + 1 <= j < n
    requires if 2 * i + 2 < n && d[2 * i + 2].timestamp < d[2 * i + 1].timestamp then j == 2 * i + 2 else j == 2 * i + 1
    ensures Parent(j) == i && forall k :: 0 < k < n && Parent(k) == i ==> d[j].timestamp <= d[k].timestamp
  {
  }

  /** An element not newer than its children is at most too old for its parent. */
  lemma SettledDown(d: seq<Metadata>, i: nat, n: nat)
    requires n <= |d| && OrderedAround(d, i, n)
    requires forall k :: 0 < k < n && Parent(k) == i ==> d[i].timestamp <= d[k].timestamp
    ensures OrderedAbove(d, i, n)
  {
    forall k | 0 < k < n && k != i
      ensures OrderedAt(d, k)
    {
    }
  }

  /** Swapping an element with its oldest child moves the exception one level down. */
  lemma SwapDown(d: seq<Metadata>, i: nat, j: nat, n: nat)
    requires n <= |d| && 0 < j < n && Parent(j) == i && OrderedAround(d, i, n)
    requires d[j].timestamp < d[i].timestamp
    requires forall k :: 0 < k < n && Parent(k) == i ==> d[j].timestamp <= d[k].timestamp
    ensures var d' := Swapped(d, i, j); OrderedAround(d', j, n) && OrderedAt(d', j) && d'[n..] == d[n..]
  {
    var d' := Swapped(d, i, j);
    forall k | 0 < k < n && k != j && Parent(k) != j
      ensures OrderedAt(d', k)
    {
      if k != i && Parent(k) != i {
        assert OrderedAt(d, k);
      }
    }
    forall k | 0 < k < n && Parent(k) == j
      ensures d'[Parent(j)].timestamp <= d'[k].timestamp
    {
      assert OrderedAt(d, k);
    }
  }

  /** A heap with one more element at the end. */
  lemma AppendElement(h: Heap, x: Metadata, h': HeapData)
    requires x.id !in h.index && h' == HeapData(h.data + [x], h.index[x.id := |h.data|])
    ensures Inverse(h'.data, h'.index)
    ensures ItemsOf(h') == ItemsOf(h)[x.id := x] && Sum(h'.data) == Sum(h.data) + x.length
  {
    assert h'.data[..|h.data|] == h.data;
  }

  /** A heap without its last element. */
  lemma DropElement(h: Heap, h': HeapData)
    requires h.data != []
    requires var n := |h.data| - 1; h' == HeapData(h.data[..n], h.index - {h.data[n].id})
    ensures Inverse(h'.data, h'.index)
    ensures var x := h.data[|h.data| - 1];
            x.id in ItemsOf(h) && ItemsOf(h') == ItemsOf(h) - {x.id} && Sum(h'.data) == Sum(h.data) - x.length
  {
  }

  /** A heap whose element i was replaced by a newer record of the same blob. */
  lemma ReplaceElement(h: Heap, i: nat, x: Metadata, h': HeapData)
    requires i < |h.data| && x.id == h.data[i].id && h' == HeapData(h.data[i := x], h.index)
    ensures Inverse(h'.data, h'.index)
    ensures ItemsOf(h') == ItemsOf(h)[x.id := x] && Sum(h'.data) == Sum(h.data) - h.data[i].length + x.length
  {
    SumUpdate(h.data, i, x);
  }

  /** The index holds the position of an element, so its record is found by id. */
  lemma ItemAt(h: Heap, i: nat)
    requires i < |h.data|
    ensures h.data[i].id in ItemsOf(h) && ItemsOf(h)[h.data[i].id] == h.data[i]
  {
  }

  /** heap.Push */
  method HeapPush(h: Heap, x: Metadata) returns (h': Heap)
    requires Ordered(h.data, |h.data|) && x.id !in h.index
    ensures Ordered(h'.data, |h'.data|)
    ensures ItemsOf(h') == ItemsOf(h)[x.id := x] && Sum(h'.data) == Sum(h.data) + x.length
  {
    var appended := HeapData(h.data + [x], h.index[x.id := |h.data|]);
    AppendElement(h, x, appended);
    forall k | 0 < k < |h.data|
      ensures OrderedAt(appended.data, k)
    {
      assert OrderedAt(h.data, k);
    }
    h' := Up(appended, |h.data|, |h.data| + 1);
  }

  /** Restores the order of the first n elements after element i was replaced. */
  method Settle(h: Heap, i: nat, n: nat) returns (h': Heap)
    requires i < n <= |h.data| && OrderedAround(h.data, i, n)
    ensures Rearranged(h, h') && Ordered(h'.data, n) && h'.data[n..] == h.data[n..]
  {
    var moved;
    h', moved := Down(h, i, n);
    if !moved {
      h' := Up(h', i, n);
    }
  }

  /** Moves element i to the end and puts the others in order. */
  method MoveToEnd(h: Heap, i: nat) returns (h': Heap)
    requires Ordered(h.data, |h.data|) && i < |h.data|
    ensures Rearranged(h, h') && Ordered(h'.data, |h.data| - 1) && h'.data[|h.data| - 1] == h.data[i]
  {
    var n := |h.data| - 1;
    h' := h;
    if n != i {
      h' := SwapToEnd(h, i);
      h' := Settle(h', i, n);
      assert h'.data[n] == h'.data[n..][0];
    }
  }

  /** Exchanges element i with the last one, which may be out of place at i. */
  method SwapToEnd(h: Heap, i: nat) returns (h': Heap)
    requires Ordered(h.data, |h.data|) && i < |h.data| - 1
    ensures Rearranged(h, h') && OrderedAround(h'.data, i, |h.data| - 1) && h'.data[|h.data| - 1..] == [h.data[i]]
  {
    SwapLast(h.data, i);
    h' := Swap(h, i, |h.data| - 1);
  }

  /** heap.Remove; heap.Pop is the removal of element 0. */
  method HeapRemove(h: Heap, i: nat) returns (h': Heap)
    requires Ordered(h.data, |h.data|) && i < |h.data|
    ensures Ordered(h'.data, |h'.data|) && |h'.data| == |h.data| - 1
    ensures ItemsOf(h') == ItemsOf(h) - {h.data[i].id} && Sum(h'.data) == Sum(h.data) - h.data[i].length
  {
    var n := |h.data| - 1;
    var moved := MoveToEnd(h, i);
    var dropped := HeapData(moved.data[..n], moved.index - {moved.data[n].id});
    DropElement(moved, dropped);
    PrefixOrdered(moved.data, n, dropped.data);
    h' := dropped;
  }

  lemma PrefixOrdered(d: seq<Metadata>, n: nat, d': seq<Metadata>)
    requires n <= |d| && Ordered(d, n) && d' == d[..n]
    ensures Ordered(d', n)
  {
    forall k | 0 < k < n
      ensures OrderedAt(d', k)
    {
      assert OrderedAt(d, k);
    }
  }

  /** Replaces element i by another record of the same blob, then heap.Fix. */
  method HeapReplace(h: Heap, i: nat, x: Metadata) returns (h': Heap)
    requires Ordered(h.data, |h.data|) && i < |h.data| && x.id == h.data[i].id
    ensures Ordered(h'.data, |h'.data|)
    ensures ItemsOf(h') == ItemsOf(h)[x.id := x] && Sum(h'.data) == Sum(h.data) - h.data[i].length + x.length
  {
    var replaced := HeapData(h.data[i := x], h.index);
    ReplaceElement(h, i, x, replaced);
    ReplacedAround(h.data, i, x);
    h' := Settle(replaced, i, |h.data|);
  }

  lemma SwapLast(d: seq<Metadata>, i: nat)
    requires Ordered(d, |d|) && i < |d| - 1
    ensures var n := |d| - 1; var d' := Swapped(d, i, n); OrderedAround(d', i, n) && d'[n..] == [d[i]]
  {
    var n, d' := |d| - 1, Swapped(d, i, |d| - 1);
    forall k | 0 < k < n && k != i && Parent(k) != i
      ensures OrderedAt(d', k)
    {
      assert OrderedAt(d, k);
    }
    forall k | i > 0 && 0 < k < n && Parent(k) == i
      ensures d'[Parent(i)].timestamp <= d'[k].timestamp
    {
      assert OrderedAt(d, k) && OrderedAt(d, i);
    }
  }

  lemma ReplacedAround(d: seq<Metadata>, i: nat, x: Metadata)
    requires Ordered(d, |d|) && i < |d|
    ensures OrderedAround(d[i := x], i, |d|)
  {
    var d' := d[i := x];
    forall k | 0 < k < |d| && k != i && Parent(k) != i
      ensures OrderedAt(d', k)
    {
      assert OrderedAt(d, k);
    }
    forall k | i > 0 && 0 < k < |d| && Parent(k) == i
      ensures d'[Parent(i)].timestamp <= d'[k].timestamp
    {
      assert OrderedAt(d, k) && OrderedAt(d, i);
    }
  }

  // ---------- contentMetadataHeap ----------

  /** What AddOrUpdate makes of the items: a record replaces an older one of the same blob only. */
  function Updated(items: Items, x: Metadata): Items {
    if x.id in items && x.timestamp <= items[x.id].timestamp then items else items[x.id := x]
  }

  /** By how much AddOrUpdate changes the byte total. */
  function Growth(items: Items, x: Metadata): int {
    if x.id !in items then x.length
    else if x.timestamp <= items[x.id].timestamp then 0
    else x.length - items[x.id].length
  }

  /** No item's timestamp ever moves backwards: only a strictly newer record replaces one, and only its own. */
  lemma UpdateNeverGoesBack(items: Items, x: Metadata)
    ensures Updated(items, x).Keys == items.Keys + {x.id}
    ensures forall id :: id in items ==> items[id].timestamp <= Updated(items, x)[id].timestamp
    ensures forall id :: id in items && id != x.id ==> Updated(items, x)[id] == items[id]
    ensures x.id !in items ==> Updated(items, x)[x.id] == x
    ensures x.id in items && items[x.id] != x ==>
              (Updated(items, x)[x.id] == x <==> items[x.id].timestamp < x.timestamp)
  {
  }

  class ContentMetadataHeap {
    var data: seq<Metadata>
    var index: map<BlobID, nat>
    var totalDataBytes: int

    /** The data form a heap, the index is its inverse and the total is the sum of the recorded lengths. */
    ghost predicate Valid()
      reads this
    {
      Inverse(data, index) && Ordered(data, |data|) && totalDataBytes == Sum(data)
    }

    ghost function Contents(): Items
      requires Valid()
      reads this
    {
      ItemsOf(HeapData(data, index))
    }

    constructor ()
      ensures Valid() && Contents() == map[]
    {
      data, index, totalDataBytes := [], map[], 0;
    }

    method Install(h: Heap, total: int)
      modifies this
      ensures data == h.data && index == h.index && totalDataBytes == total
    {
      data, index, totalDataBytes := h.data, h.index, total;
    }

    method Push(x: Metadata)
      requires Valid() && x.id !in Contents()
      modifies this
      ensures Valid() && Contents() == old(Contents())[x.id := x]
      ensures totalDataBytes == old(totalDataBytes) + x.length
    {
      var h := HeapPush(HeapData(data, index), x);
      Install(h, totalDataBytes + x.length);
    }

    method Remove(i: nat) returns (item: Metadata)
      requires Valid() && i < |data|
      modifies this
      ensures item == old(data[i]) && item.id in old(Contents()) && old(Contents())[item.id] == item
      ensures Valid() && Contents() == old(Contents()) - {item.id}
      ensures totalDataBytes == old(totalDataBytes) - item.length
    {
      item := data[i];
      ItemAt(HeapData(data, index), i);
      var h := HeapRemove(HeapData(data, index), i);
      Install(h, totalDataBytes - item.length);
    }

    /** Removes the oldest item. */
    method Pop() returns (item: Metadata)
      requires Valid() && data != []
      modifies this
      ensures item == old(data[0]) && item.id in old(Contents()) && old(Contents())[item.id] == item
      ensures forall id :: id in old(Contents()) ==> item.timestamp <= old(Contents())[id].timestamp
      ensures Valid() && Contents() == old(Contents()) - {item.id}
      ensures totalDataBytes == old(totalDataBytes) - item.length
    {
      forall id | id in Contents()
        ensures data[0].timestamp <= Contents()[id].timestamp
      {
        RootIsOldest(data, |data|, index[id]);
      }
      item := Remove(0);
    }

    method AddOrUpdate(x: Metadata)
      requires Valid()
      modifies this
      ensures Valid() && Contents() == Updated(old(Contents()), x)
      ensures totalDataBytes == old(totalDataBytes) + Growth(old(Contents()), x)
    {
      if x.id in index {
        var i := index[x.id];
        if x.timestamp > data[i].timestamp {
          var total := totalDataBytes + x.length - data[i].length;
          var h := HeapReplace(HeapData(data, index), i, x);
          Install(h, total);
        }
      } else {
        Push(x);
      }
    }
  }
}
