/** The append-only hash map of internal/bigmap, with its in-place slots, segments and growth. */
module Bigmap {
  import opened Basics
  import opened BigmapCodec
  import opened BigmapTable
  import opened ProbeSequence
  import opened TableSizes
  import opened PrimeSizes

  /** The capacity of a segment whose offsets fit 32 bits. */
  type Capacity = c: nat | c < TWO_TO_THE_32

  /** segment 0 means the slot is empty; otherwise segment - 1 indexes `segments`. */
  datatype Entry = Entry(segment: nat, offset: nat)

  datatype Options = Options(
    loadFactorPercentage: int,
    numMemorySegments: int,
    memorySegmentSize: int,
    fileSegmentSize: int,
    initialSizeLogarithm: int)

  /** The defaults newInternalMapWithOptions puts in place of zero fields. */
  function WithDefaults(o: Options): Options {
    Options(
      if o.loadFactorPercentage == 0 then 75 else o.loadFactorPercentage,
      if o.numMemorySegments == 0 then 8 else o.numMemorySegments,
      if o.memorySegmentSize == 0 then 18_000_000 else o.memorySegmentSize,
      if o.fileSegmentSize == 0 then 0x4000_0000 else o.fileSegmentSize,
      if o.initialSizeLogarithm == 0 then 20 else o.initialSizeLogarithm)
  }

  /**
    A map made without options has 1048391 slots, grows at 786293 elements, and
    keeps 144 MB in memory before it maps files of 1 GiB; any option that is
    given is kept.
   */
  lemma DefaultMap(o: Options)
    ensures var d := WithDefaults(Options(0, 0, 0, 0, 0));
            && d.initialSizeLogarithm >= MIN_SIZE_LOGARITHM
            && TableSize(d.initialSizeLogarithm - MIN_SIZE_LOGARITHM) == 1048391
            && Threshold(1048391, d.loadFactorPercentage) == 786293
            && d.numMemorySegments * d.memorySegmentSize == 144_000_000 && d.numMemorySegments == 8
            && d.fileSegmentSize == 1024 * 1024 * 1024
    ensures var d := WithDefaults(o);
            && (o.loadFactorPercentage != 0 ==> d.loadFactorPercentage == o.loadFactorPercentage)
            && (o.numMemorySegments != 0 ==> d.numMemorySegments == o.numMemorySegments)
            && (o.memorySegmentSize != 0 ==> d.memorySegmentSize == o.memorySegmentSize)
            && (o.fileSegmentSize != 0 ==> d.fileSegmentSize == o.fileSegmentSize)
            && (o.initialSizeLogarithm != 0 ==> d.initialSizeLogarithm == o.initialSizeLogarithm)
            && WithDefaults(d) == d
  {
    SmallSizes();
  }

  /** Limits under which the 32-bit offsets are exact and a slot always stays free. */
  ghost predicate Supported(o: Options) {
    && o.loadFactorPercentage < 100
    && 0 <= o.memorySegmentSize < TWO_TO_THE_32
    && 0 <= o.fileSegmentSize < TWO_TO_THE_32
  }

  /** The number of elements at which a table of n slots grows (no element count is below a negative threshold). */
  function Threshold(n: nat, loadFactor: int): int {
    n * loadFactor / 100
  }

  predicate MustGrow(count: nat, n: nat, loadFactor: int) {
    count >= Threshold(n, loadFactor)
  }

  /** An insertion below the threshold leaves a free slot in every table exactly when the load factor is below 100%. */
  lemma RoomExactlyBelowFullLoad(n: nat, loadFactor: int)
    requires n > 0
    ensures (forall count: nat :: count < n && !MustGrow(count, n, loadFactor) ==> count + 1 < n) <==> loadFactor < 100
  {
    if loadFactor < 100 {
      assert n * loadFactor <= n * 99;
    } else {
      assert n * loadFactor >= n * 100;
      var count := n - 1;
      assert !MustGrow(count, n, loadFactor);
    }
  }

  lemma ThresholdIncreases(n: nat, n': nat, loadFactor: int)
    requires n + 200 <= n' && loadFactor >= 1
    ensures Threshold(n, loadFactor) < Threshold(n', loadFactor)
  {
    assert (n' - n) * loadFactor >= n' - n;
    assert n' * loadFactor == n * loadFactor + (n' - n) * loadFactor;
  }

  /** After an addition below the threshold the count is within it and a slot stays free. */
  lemma AddedFits(count: nat, n: nat, loadFactor: int)
    requires loadFactor < 100 && 0 < count && !MustGrow(count - 1, n, loadFactor) && n > 0
    ensures count < n && count <= Threshold(n, loadFactor)
  {
    assert n * loadFactor <= n * 99;
  }

  lemma ThresholdNonNegative(n: nat, loadFactor: int)
    ensures loadFactor >= 0 ==> Threshold(n, loadFactor) >= 0
  {
  }

  /** A list of table sizes to grow through: primes, each well above the ones before it. */
  type SizeTable = sizes: seq<nat> | SizesOk(sizes) witness []

  ghost predicate SizesOk(sizes: seq<nat>) {
    && (forall i :: 0 <= i < |sizes| ==> IsPrime(sizes[i]) && 197 <= sizes[i])
    && forall i, j :: 0 <= i < j < |sizes| ==> sizes[i] + 200 <= sizes[j]
  }

  /** The one thing taken on trust about the list in the code: that it is, as its comment says, a list of primes. */
  ghost predicate ListedSizesArePrime() {
    forall i :: 0 <= i < NUM_TABLE_SIZES ==> IsPrime(TableSize(i))
  }

  /** The sizes a map of the default size starts and first grows with, and all smaller ones, are prime. */
  lemma SizeIsPrime(i: nat)
    requires i < NUM_PROVED_SIZES
    ensures IsPrime(TableSize(i))
  {
    SmallSizes();
    match i
    case 0 => Prime197();
    case 1 => Prime457();
    case 2 => Prime967();
    case 3 => Prime1987();
    case 4 => Prime4019();
    case 5 => Prime8101();
    case 6 => Prime16273();
    case 7 => Prime32633();
    case 8 => Prime65413();
    case 9 => Prime130973();
    case 10 => Prime262051();
    case 11 => Prime524201();
    case 12 => Prime1048391();
    case _ => Prime2097023();
  }

  const NUM_PROVED_SIZES := 14

  /** A list of sizes to grow through, with nothing taken on trust. */
  lemma ProvedSizesOk()
    ensures SizesOk(AllTableSizes()[..NUM_PROVED_SIZES])
  {
    var sizes := AllTableSizes()[..NUM_PROVED_SIZES];
    forall i | 0 <= i < |sizes|
      ensures IsPrime(sizes[i])
    {
      SizeIsPrime(i);
    }
    SizesAreApart(sizes);
  }

  lemma SizesAreApart(sizes: seq<nat>)
    requires sizes <= AllTableSizes()
    ensures forall i, j :: 0 <= i < j < |sizes| ==> sizes[i] + 200 <= sizes[j]
  {
    forall i | 0 <= i < |sizes| - 1
      ensures StepsUp(sizes, i)
    {
      NextSizeIsLarger(i);
    }
    forall i, j | 0 <= i < j < |sizes|
      ensures sizes[i] + 200 <= sizes[j]
    {
      StepsAddUp(sizes, i, j);
    }
  }

  lemma TableSizesOk()
    requires ListedSizesArePrime()
    ensures SizesOk(AllTableSizes())
  {
    SizesAreApart(AllTableSizes());
  }

  ghost predicate StepsUp(sizes: seq<nat>, i: nat)
    requires i + 1 < |sizes|
  {
    sizes[i] + 200 <= sizes[i + 1]
  }

  lemma {:induction false} StepsAddUp(sizes: seq<nat>, i: nat, j: nat)
    requires i < j < |sizes| && forall k :: 0 <= k < |sizes| - 1 ==> StepsUp(sizes, k)
    ensures sizes[i] + 200 <= sizes[j]
    decreases j
  {
    assert StepsUp(sizes, j - 1);
    if i < j - 1 {
      StepsAddUp(sizes, i, j - 1);
    }
  }

  // ---------- the records behind the segments ----------

  ghost function Flat(records: seq<seq<Record>>): seq<Record> {
    if records == [] then [] else Flat(records[..|records| - 1]) + records[|records| - 1]
  }

  ghost function ToMap(log: seq<Record>): Contents {
    if log == [] then map[] else
    var last := log[|log| - 1];
    ToMap(log[..|log| - 1])[last.key := last.value]
  }

  /** No two records of the log have the same key. */
  ghost predicate KeysUnique(log: seq<Record>) {
    log != [] ==>
      var n := |log| - 1;
      log[n].key !in ToMap(log[..n]) && KeysUnique(log[..n])
  }

  lemma {:induction false} KeysUniqueAt(log: seq<Record>, i: nat)
    requires KeysUnique(log) && i < |log|
    ensures KeysUnique(log[..i + 1]) && log[i].key !in ToMap(log[..i])
  {
    var n := |log| - 1;
    if i < n {
      KeysUniqueAt(log[..n], i);
      assert log[..n][..i + 1] == log[..i + 1] && log[..n][..i] == log[..i];
    } else {
      assert log[..i + 1] == log;
    }
  }

  lemma ToMapExtend(log: seq<Record>, r: Record)
    ensures ToMap(log + [r]) == ToMap(log)[r.key := r.value]
  {
    assert (log + [r])[..|log|] == log;
  }

  lemma {:induction false} ToMapPrefixSize(log: seq<Record>, k: nat)
    requires KeysUnique(log) && k <= |log|
    ensures |ToMap(log[..k])| == k
  {
    if k > 0 {
      ToMapPrefixSize(log, k - 1);
      KeysUniqueAt(log, k - 1);
      assert log[..k] == log[..k - 1] + [log[k - 1]];
      ToMapExtend(log[..k - 1], log[k - 1]);
      assert ToMap(log[..k]).Keys == ToMap(log[..k - 1]).Keys + {log[k - 1].key};
    }
  }

  lemma {:induction false} FlatPrefix(records: seq<seq<Record>>, i: nat, j: nat)
    requires i < |records| && j <= |records[i]|
    ensures Flat(records[..i]) + records[i][..j] <= Flat(records)
    decreases |records|
  {
    var n := |records| - 1;
    if i == n {
      assert records[..n] == records[..i];
    } else {
      FlatPrefix(records[..n], i, j);
      assert records[..n][..i] == records[..i];
    }
  }

  /** The record after a prefix of a duplicate-free log is new, and so are all prefixes duplicate-free. */
  lemma NextRecord(records: seq<seq<Record>>, i: nat, j: nat)
    requires KeysUnique(Flat(records)) && i < |records| && j < |records[i]|
    ensures var p := Flat(records[..i]) + records[i][..j];
            && records[i][j].key !in ToMap(p)
            && |ToMap(p)| < |Flat(records)|
            && ToMap(Flat(records[..i]) + records[i][..j + 1]) == ToMap(p)[records[i][j].key := records[i][j].value]
  {
    var p, log, r := Flat(records[..i]) + records[i][..j], Flat(records), records[i][j];
    FlatPrefix(records, i, j + 1);
    assert Flat(records[..i]) + records[i][..j + 1] == p + [r];
    assert p == log[..|p|] && log[|p|] == r;
    KeysUniqueAt(log, |p|);
    ToMapPrefixSize(log, |p|);
    ToMapExtend(p, r);
  }

  lemma UniqueExtends(log: seq<Record>, r: Record)
    requires KeysUnique(log) && r.key !in ToMap(log)
    ensures KeysUnique(log + [r])
  {
    assert (log + [r])[..|log|] == log;
  }

  lemma FlatAppend(records: seq<seq<Record>>, r: Record)
    requires records != []
    ensures Flat(AppendLast(records, [r])) == Flat(records) + [r]
  {
    var n := |records| - 1;
    assert AppendLast(records, [r])[..n] == records[..n];
  }

  /** Extends the last of a list of sequences. */
  function AppendLast<T>(s: seq<seq<T>>, x: seq<T>): (r: seq<seq<T>>)
    requires s != []
    ensures |r| == |s|
  {
    s[|s| - 1 := s[|s| - 1] + x]
  }

  /** Every segment is the concatenation of its records and short enough for 32-bit offsets. */
  ghost predicate SegmentsHold(hasValues: bool, segments: seq<seq<byte>>, records: seq<seq<Record>>) {
    && |segments| == |records|
    && (segments != [] ==>
          var n := |segments| - 1;
          SegmentHolds(hasValues, segments[n], records[n]) && SegmentsHold(hasValues, segments[..n], records[..n]))
  }

  ghost predicate SegmentHolds(hasValues: bool, segment: seq<byte>, rs: seq<Record>) {
    AllWellFormed(hasValues, rs) && segment == EncodeAll(hasValues, rs) && |segment| < TWO_TO_THE_32
  }

  lemma {:induction false} SegmentHoldsAt(hasValues: bool, segments: seq<seq<byte>>, records: seq<seq<Record>>, i: nat)
    requires SegmentsHold(hasValues, segments, records) && i < |segments|
    ensures SegmentHolds(hasValues, segments[i], records[i])
  {
    var n := |segments| - 1;
    if i < n {
      SegmentHoldsAt(hasValues, segments[..n], records[..n], i);
    }
  }

  /** Each non-empty slot points at the encoding of the record it stands for. */
  ghost predicate Represents(hasValues: bool, segments: seq<seq<byte>>, slots: seq<Entry>, t: Table) {
    |slots| == |t| && AllPointTo(hasValues, segments, slots, t, |t|)
  }

  ghost predicate AllPointTo(hasValues: bool, segments: seq<seq<byte>>, slots: seq<Entry>, t: Table, n: nat)
    requires n <= |t| == |slots|
  {
    n > 0 ==> PointsTo(hasValues, segments, slots[n - 1], t[n - 1]) && AllPointTo(hasValues, segments, slots, t, n - 1)
  }

  lemma {:induction false} AllPointToAt(hasValues: bool, segments: seq<seq<byte>>, slots: seq<Entry>, t: Table,
                                        n: nat, s: nat)
    requires s < n <= |t| == |slots| && AllPointTo(hasValues, segments, slots, t, n)
    ensures PointsTo(hasValues, segments, slots[s], t[s])
  {
    if s < n - 1 {
      AllPointToAt(hasValues, segments, slots, t, n - 1, s);
    }
  }

  lemma {:induction false} AllPointToIntro(hasValues: bool, segments: seq<seq<byte>>, slots: seq<Entry>, t: Table,
                                           n: nat)
    requires n <= |t| == |slots|
    requires forall s :: 0 <= s < n ==> PointsTo(hasValues, segments, slots[s], t[s])
    ensures AllPointTo(hasValues, segments, slots, t, n)
  {
    if n > 0 {
      AllPointToIntro(hasValues, segments, slots, t, n - 1);
    }
  }

  ghost predicate PointsTo(hasValues: bool, segments: seq<seq<byte>>, e: Entry, s: Slot) {
    if e.segment == 0 then s.Free? else
    && s.Holds?
    && e.segment <= |segments|
    && EncodedAt(hasValues, segments[e.segment - 1], e.offset, s.rec)
  }

  lemma EncodedAtExtends(hasValues: bool, seg: seq<byte>, more: seq<byte>, p: nat, r: Record)
    requires EncodedAt(hasValues, seg, p, r)
    ensures EncodedAt(hasValues, seg + more, p, r)
  {
    var n := |Encode(hasValues, r)|;
    assert (seg + more)[p..p + n] == seg[p..p + n];
  }

  lemma RepresentsExtends(hasValues: bool, segments: seq<seq<byte>>, more: seq<byte>, slots: seq<Entry>, t: Table)
    requires segments != [] && Represents(hasValues, segments, slots, t)
    ensures Represents(hasValues, AppendLast(segments, more), slots, t)
  {
    var n := |segments| - 1;
    forall s | 0 <= s < |slots|
      ensures PointsTo(hasValues, AppendLast(segments, more), slots[s], t[s])
    {
      AllPointToAt(hasValues, segments, slots, t, |t|, s);
      if slots[s].segment == n + 1 {
        EncodedAtExtends(hasValues, segments[n], more, slots[s].offset, t[s].rec);
      }
    }
    AllPointToIntro(hasValues, AppendLast(segments, more), slots, t, |t|);
  }

  /** Entry e points at the record r. */
  ghost predicate RefersTo(hasValues: bool, segments: seq<seq<byte>>, e: Entry, r: Record) {
    Represents(hasValues, segments, [e], [Holds(r)])
  }

  lemma RefersToRecord(hasValues: bool, segments: seq<seq<byte>>, e: Entry, r: Record)
    requires 0 < e.segment <= |segments| && EncodedAt(hasValues, segments[e.segment - 1], e.offset, r)
    ensures RefersTo(hasValues, segments, e, r)
  {
    assert AllPointTo(hasValues, segments, [e], [Holds(r)], 0);
  }

  lemma RepresentsInsert(hasValues: bool, segments: seq<seq<byte>>, slots: seq<Entry>, t: Table, slot: nat, e: Entry,
                         r: Record)
    requires Represents(hasValues, segments, slots, t) && slot < |slots|
    requires RefersTo(hasValues, segments, e, r)
    ensures Represents(hasValues, segments, slots[slot := e], t[slot := Holds(r)])
  {
    var slots', t' := slots[slot := e], t[slot := Holds(r)];
    AllPointToAt(hasValues, segments, [e], [Holds(r)], 1, 0);
    forall s | 0 <= s < |slots|
      ensures PointsTo(hasValues, segments, slots'[s], t'[s])
    {
      AllPointToAt(hasValues, segments, slots, t, |t|, s);
    }
    AllPointToIntro(hasValues, segments, slots', t', |t'|);
  }

  lemma SegmentsHoldExtends(hasValues: bool, segments: seq<seq<byte>>, records: seq<seq<Record>>, r: Record)
    requires segments != [] && SegmentsHold(hasValues, segments, records) && WellFormed(hasValues, r)
    requires |segments[|segments| - 1]| + |Encode(hasValues, r)| < TWO_TO_THE_32
    ensures SegmentsHold(hasValues, AppendLast(segments, Encode(hasValues, r)), AppendLast(records, [r]))
    ensures var n := |segments| - 1;
            EncodedAt(hasValues, AppendLast(segments, Encode(hasValues, r))[n], |segments[n]|, r)
  {
    var n := |segments| - 1;
    var rs := records[n];
    assert AppendLast(segments, Encode(hasValues, r))[..n] == segments[..n];
    assert AppendLast(records, [r])[..n] == records[..n];
    EncodeAllSplit(hasValues, rs, [r]);
    assert [r][..0] == [];
    assert EncodeAll(hasValues, [r]) == Encode(hasValues, r);
  }

  /** The segments are the given records in the order they were added, each key once. */
  ghost predicate StoreOk(hasValues: bool, segments: seq<seq<byte>>, capacities: seq<Capacity>,
                          records: seq<seq<Record>>, m: Contents) {
    && 0 < |segments| == |capacities| < TWO_TO_THE_32
    && SegmentsHold(hasValues, segments, records)
    && KeysUnique(Flat(records))
    && m == ToMap(Flat(records))
  }

  // ---------- results ----------

  /**
    What the operating system and the runtime decide: whether a mapped file
    could be created, and how far append regrows a full segment.
   */
  datatype Environment = Environment(mappedFile: bool, regrownCapacity: Capacity)

  datatype PutResult = Added | AlreadyPresent | Panic(message: string)

  datatype GetResult = GetResult(data: seq<byte>, found: bool)

  /** What PutIfAbsent reports, given what is bound and whether the largest table is exhausted. */
  function PutSpec(hasValues: bool, m: Contents, exhausted: bool, key: seq<byte>, value: seq<byte>): PutResult {
    if |key| < MIN_KEY_LENGTH then Panic("key too short")
    else if |key| > MAX_KEY_LENGTH then Panic("key too long")
    else if !hasValues && |value| > 0 then Panic("values are not enabled")
    else if key in m then AlreadyPresent
    else if exhausted then Panic("index out of range")
    else Added
  }

  /** What Get returns: the value appended to the caller's buffer. */
  function GetSpec(hasValues: bool, m: Contents, buf: seq<byte>, key: seq<byte>): GetResult {
    if key !in m then GetResult([], false)
    else if !hasValues then GetResult([], true)
    else GetResult(buf + m[key], true)
  }

  lemma FitsIn32Bits(x: nat)
    requires x < TWO_TO_THE_32
    ensures U32(x) == x
  {
  }

  /** The value of the record at offset koff, located with the 32-bit offset arithmetic of Get. */
  method ReadValue(data: seq<byte>, koff: nat, ghost r: Record) returns (value: seq<byte>)
    requires EncodedAt(true, data, koff, r) && |data| < TWO_TO_THE_32
    ensures value == r.value
  {
    KeyDecodes(true, data, koff, r);
    ValueDecodes(data, koff, r);
    var off := U32(koff + data[koff] + 1);
    assert off == koff + 1 + |r.key|;
    var (vlen, vlenLen) := Uvarint(data[off..]);
    var start := U32(off + vlenLen);
    var end := U32(start + U32(vlen));
    FitsIn32Bits(off + vlenLen);
    FitsIn32Bits(vlen);
    FitsIn32Bits(start + vlen);
    value := data[start..end];
  }

  method FirstSlot(key: seq<byte>, n: nat, ghost path: Path) returns (slot: nat)
    requires n == path.n && MIN_KEY_LENGTH <= |key|
    ensures slot == path.at(key, 0)
  {
    FirstStep(path, key);
    slot := HashValue(key) % n;
  }

  method NextSlot(slot: nat, delta: nat, n: nat, ghost key: seq<byte>, ghost path: Path, ghost i: nat)
    returns (next: nat)
    requires n == path.n && MIN_KEY_LENGTH <= |key|
    requires slot == path.at(key, i) && delta == Delta(key, path.h2Prime)
    ensures next == path.at(key, i + 1)
  {
    next := (slot + delta) % n;
    NextStep(path, key, i, delta, next);
  }

  /** Appends the encoding of a record to the bytes of a segment. */
  method AppendBytes(hasValues: bool, segment: seq<byte>, key: seq<byte>, value: seq<byte>) returns (r: seq<byte>)
    requires |key| <= MAX_KEY_LENGTH
    ensures r == segment + Encode(hasValues, Record(key, value))
  {
    r := segment + [|key|];
    r := r + key;
    if hasValues {
      r := r + PutUvarint(|value|);
      r := r + value;
    }
  }

  method ReadKey(hasValues: bool, seg: seq<byte>, p: nat, ghost r: Record) returns (key: seq<byte>)
    requires EncodedAt(hasValues, seg, p, r)
    ensures key == r.key
  {
    KeyDecodes(hasValues, seg, p, r);
    key := seg[p + 1..p + 1 + seg[p]];
  }

  /** The offset of the record after the one at koff, as the rescan computes it. */
  method SkipRecord(hasValues: bool, seg: seq<byte>, koff: nat, ghost r: Record) returns (p: nat)
    requires EncodedAt(hasValues, seg, koff, r)
    ensures p == koff + |Encode(hasValues, r)|
  {
    KeyDecodes(hasValues, seg, koff, r);
    p := koff + seg[koff] + 1;
    if hasValues {
      ValueDecodes(seg, koff, r);
      var (vlen, vlenLen) := Uvarint(seg[p..]);
      p := p + vlenLen + vlen;
    }
  }

  /** The rescan of segment i is at offset p, after its first j records; `done` holds all records before that point. */
  ghost predicate RescanAt(hasValues: bool, records: seq<seq<Record>>, i: nat, j: nat, p: nat, done: Contents) {
    && i < |records| && j <= |records[i]|
    && AllWellFormed(hasValues, records[i])
    && p == |EncodeAll(hasValues, records[i][..j])|
    && done == ToMap(Flat(records[..i]) + records[i][..j])
  }

  lemma RescanStarts(hasValues: bool, segments: seq<seq<byte>>, records: seq<seq<Record>>, i: nat)
    requires SegmentsHold(hasValues, segments, records) && i < |records|
    ensures RescanAt(hasValues, records, i, 0, 0, ToMap(Flat(records[..i])))
  {
    SegmentHoldsAt(hasValues, segments, records, i);
    assert Flat(records[..i]) + records[i][..0] == Flat(records[..i]);
  }

  /** While the length byte is not zero the rescan is at the next record, whose key is new. */
  lemma RescanAdvances(hasValues: bool, segments: seq<seq<byte>>, records: seq<seq<Record>>, i: nat, j: nat, p: nat,
                       done: Contents)
    requires SegmentsHold(hasValues, segments, records) && KeysUnique(Flat(records))
    requires RescanAt(hasValues, records, i, j, p, done)
    requires p < |segments[i]| && segments[i][p] != 0
    ensures j < |records[i]|
    ensures var r := records[i][j];
            && EncodedAt(hasValues, segments[i], p, r)
            && r.key !in done && |done| < |ToMap(Flat(records))|
            && RescanAt(hasValues, records, i, j + 1, p + |Encode(hasValues, r)|, done[r.key := r.value])
    ensures |segments[i]| < TWO_TO_THE_32
  {
    SegmentHoldsAt(hasValues, segments, records, i);
    assert j < |records[i]| by {
      assert records[i][..|records[i]|] == records[i];
    }
    RecordOffset(hasValues, records[i], j);
    NextRecord(records, i, j);
    ToMapPrefixSize(Flat(records), |Flat(records)|);
    assert Flat(records)[..|Flat(records)|] == Flat(records);
  }

  /** The rescan stops only at the end of the segment. */
  lemma RescanEnds(hasValues: bool, segments: seq<seq<byte>>, records: seq<seq<Record>>, i: nat, j: nat, p: nat,
                   done: Contents)
    requires SegmentsHold(hasValues, segments, records)
    requires RescanAt(hasValues, records, i, j, p, done)
    requires p >= |segments[i]| || segments[i][p] == 0
    ensures j == |records[i]| && p == |segments[i]|
    ensures done == ToMap(Flat(records[..i + 1]))
  {
    SegmentHoldsAt(hasValues, segments, records, i);
    if j < |records[i]| {
      RecordOffset(hasValues, records[i], j);
      KeyDecodes(hasValues, segments[i], p, records[i][j]);
    }
    assert records[i][..j] == records[i];
    assert records[..i + 1][..i] == records[..i];
  }

  /** Appending a record with a new key to the last segment keeps all that is known of segments and slots. */
  lemma AppendKeepsOrder(hasValues: bool, segments: seq<seq<byte>>, records: seq<seq<Record>>, m: Contents,
                         slots: seq<Entry>, t: Table, r: Record, segments': seq<seq<byte>>,
                         records': seq<seq<Record>>, m': Contents, e: Entry)
    requires segments != [] && SegmentsHold(hasValues, segments, records) && WellFormed(hasValues, r)
    requires KeysUnique(Flat(records)) && m == ToMap(Flat(records)) && r.key !in m
    requires Represents(hasValues, segments, slots, t)
    requires |segments[|segments| - 1]| + 1 + |r.key| + MAX_VARINT_LEN32 + |r.value| < TWO_TO_THE_32
    requires segments' == AppendLast(segments, Encode(hasValues, r)) && records' == AppendLast(records, [r])
    requires m' == m[r.key := r.value] && e == Entry(|segments|, |segments[|segments| - 1]|)
    ensures SegmentsHold(hasValues, segments', records') && KeysUnique(Flat(records')) && m' == ToMap(Flat(records'))
    ensures Represents(hasValues, segments', slots, t)
    ensures RefersTo(hasValues, segments', e, r)
  {
    PutUvarintFits(|r.value|);
    RepresentsExtends(hasValues, segments, Encode(hasValues, r), slots, t);
    SegmentsHoldExtends(hasValues, segments, records, r);
    UniqueExtends(Flat(records), r);
    ToMapExtend(Flat(records), r);
    FlatAppend(records, r);
    RefersToRecord(hasValues, segments', e, r);
  }

  /** Filling the empty slot a probe ends at with an entry for a record keeps table and slots in step. */
  lemma InsertKeepsIndex(hasValues: bool, segments: seq<seq<byte>>, slots: seq<Entry>, path: Path, t: Table,
                         m: Contents, r: Record, i: nat, e: Entry, slots': seq<Entry>, t': Table, m': Contents)
    requires TableOk(t, path) && Binds(t, m) && Represents(hasValues, segments, slots, t)
    requires MIN_KEY_LENGTH <= |r.key| && RefersTo(hasValues, segments, e, r)
    requires i < |t| && Passes(t, path, r.key, i) && t[path.at(r.key, i)].Free?
    requires slots' == slots[path.at(r.key, i) := e] && t' == t[path.at(r.key, i) := Holds(r)]
    requires m' == m[r.key := r.value]
    ensures TableOk(t', path) && Binds(t', m') && Represents(hasValues, segments, slots', t')
  {
    InsertKeepsOrder(t, path, m, r, i);
    RepresentsInsert(hasValues, segments, slots, t, path.at(r.key, i), e, r);
  }

  lemma NewSegmentHolds(hasValues: bool, segments: seq<seq<byte>>, records: seq<seq<Record>>)
    requires SegmentsHold(hasValues, segments, records)
    ensures SegmentsHold(hasValues, segments + [[]], records + [[]]) && Flat(records + [[]]) == Flat(records)
  {
    var n := |segments|;
    assert (segments + [[]])[..n] == segments && (records + [[]])[..n] == records;
  }

  lemma NewSegmentRepresents(hasValues: bool, segments: seq<seq<byte>>, slots: seq<Entry>, t: Table)
    requires Represents(hasValues, segments, slots, t)
    ensures Represents(hasValues, segments + [[]], slots, t)
  {
    forall s | 0 <= s < |slots|
      ensures PointsTo(hasValues, segments + [[]], slots[s], t[s])
    {
      AllPointToAt(hasValues, segments, slots, t, |t|, s);
    }
    AllPointToIntro(hasValues, segments + [[]], slots, t, |t|);
  }

  lemma EmptySegments(hasValues: bool)
    ensures SegmentsHold(hasValues, [[]], [[]]) && Flat([[]]) == []
  {
    var records: seq<seq<Record>> := [[]];
    assert records[..0] == [];
  }

  lemma EmptySlotsRepresent(hasValues: bool, segments: seq<seq<byte>>, slots: seq<Entry>)
    requires forall s :: 0 <= s < |slots| ==> slots[s].segment == 0
    ensures Represents(hasValues, segments, slots, EmptyTable(|slots|))
  {
    AllPointToIntro(hasValues, segments, slots, EmptyTable(|slots|), |slots|);
  }

  /** The capacity of a segment created when `existing` segments are there. */
  method NewSegmentCapacity(opts: Options, existing: nat, env: Environment) returns (capacity: Capacity)
    requires Supported(opts)
    ensures existing < opts.numMemorySegments || !env.mappedFile ==> capacity == opts.memorySegmentSize
    ensures existing >= opts.numMemorySegments && env.mappedFile ==> capacity == opts.fileSegmentSize
  {
    var mapped := existing >= opts.numMemorySegments && env.mappedFile;
    capacity := if mapped then opts.fileSegmentSize else opts.memorySegmentSize;
  }

  /** Starts a new segment unless the current one has room for `payload` more bytes. */
  method EnsureRoom(hasValues: bool, opts: Options, segments: seq<seq<byte>>, capacities: seq<Capacity>, payload: nat,
                    env: Environment, ghost records: seq<seq<Record>>, ghost m: Contents, ghost slots: seq<Entry>,
                    ghost t: Table)
    returns (segments': seq<seq<byte>>, capacities': seq<Capacity>, ghost records': seq<seq<Record>>)
    requires Supported(opts) && StoreOk(hasValues, segments, capacities, records, m)
    requires Represents(hasValues, segments, slots, t)
    requires |segments| + 1 < TWO_TO_THE_32 && payload < TWO_TO_THE_32
    ensures StoreOk(hasValues, segments', capacities', records', m) && Represents(hasValues, segments', slots, t)
    ensures |segments'| <= |segments| + 1
    ensures |segments'[|segments'| - 1]| + payload < TWO_TO_THE_32
    ensures segments' == segments <==> |segments[|segments| - 1]| + payload <= capacities[|segments| - 1]
    ensures segments' == segments || segments' == segments + [[]]
  {
    segments', capacities', records' := segments, capacities, records;
    var current := segments[|segments| - 1];
    if |current| + payload > capacities[|segments| - 1] {
      NewSegmentHolds(hasValues, segments, records);
      NewSegmentRepresents(hasValues, segments, slots, t);
      var capacity := NewSegmentCapacity(opts, |segments|, env);
      segments', capacities', records' := segments + [[]], capacities + [capacity], records + [[]];
    }
  }

  /** Appending beyond its capacity moves a segment to a larger one. */
  method Regrow(capacities: seq<Capacity>, last: nat, used: Capacity, env: Environment) returns (r: seq<Capacity>)
    requires last < |capacities|
    ensures |r| == |capacities| && used <= r[last] && forall i :: 0 <= i < |r| && i != last ==> r[i] == capacities[i]
    ensures used <= capacities[last] ==> r == capacities
  {
    r := capacities;
    if used > capacities[last] {
      r := capacities[last := if env.regrownCapacity < used then used else env.regrownCapacity];
    }
  }

  /** Appends a record for a new key to the current segment and returns the entry that refers to it. */
  method AppendRecord(hasValues: bool, segments: seq<seq<byte>>, capacities: seq<Capacity>, key: seq<byte>,
                      value: seq<byte>, env: Environment, ghost records: seq<seq<Record>>, ghost m: Contents,
                      ghost slots: seq<Entry>, ghost t: Table)
    returns (segments': seq<seq<byte>>, capacities': seq<Capacity>, ghost records': seq<seq<Record>>, e: Entry)
    requires StoreOk(hasValues, segments, capacities, records, m) && Represents(hasValues, segments, slots, t)
    requires WellFormed(hasValues, Record(key, value)) && key !in m
    requires |segments[|segments| - 1]| + 1 + |key| + MAX_VARINT_LEN32 + |value| < TWO_TO_THE_32
    ensures StoreOk(hasValues, segments', capacities', records', m[key := value])
    ensures Represents(hasValues, segments', slots, t)
    ensures |segments'| == |segments|
    ensures RefersTo(hasValues, segments', e, Record(key, value))
  {
    var last := |segments| - 1;
    var current := segments[last];
    var koff := U32(|current|);
    current := AppendBytes(hasValues, current, key, value);
    EncodedLength(hasValues, Record(key, value));
    segments' := segments[last := current];
    capacities' := Regrow(capacities, last, |current|, env);
    records' := AppendLast(records, [Record(key, value)]);
    e := Entry(U32(|segments|), koff); // 1-based, 0 is an empty slot
    AppendKeepsOrder(hasValues, segments, records, m, slots, t, Record(key, value), segments', records',
                     m[key := value], e);
  }

  /** The new segments for a new key, the entry for the slot its probe ends at, and what table and slots become. */
  method StoreRecord(hasValues: bool, opts: Options, segments: seq<seq<byte>>, capacities: seq<Capacity>, slot: nat,
                     key: seq<byte>, value: seq<byte>, env: Environment, ghost path: Path, ghost i: nat,
                     ghost slots: seq<Entry>, ghost t: Table, ghost records: seq<seq<Record>>, ghost m: Contents)
    returns (segments': seq<seq<byte>>, capacities': seq<Capacity>, e: Entry,
             ghost slots': seq<Entry>, ghost t': Table, ghost records': seq<seq<Record>>, ghost m': Contents)
    requires Supported(opts) && StoreOk(hasValues, segments, capacities, records, m)
    requires TableOk(t, path) && Binds(t, m) && Represents(hasValues, segments, slots, t)
    requires WellFormed(hasValues, Record(key, value)) && key !in m
    requires |segments| + 1 < TWO_TO_THE_32 && 1 + |key| + MAX_VARINT_LEN32 + |value| < TWO_TO_THE_32
    requires i < |t| && slot == path.at(key, i) && Passes(t, path, key, i) && t[slot].Free?
    ensures StoreOk(hasValues, segments', capacities', records', m')
    ensures TableOk(t', path) && Binds(t', m') && Represents(hasValues, segments', slots', t')
    ensures slots' == slots[slot := e] && m' == m[key := value] && |m'| == |m| + 1
    ensures |segments'| <= |segments| + 1
  {
    var payload := 1 + |key| + MAX_VARINT_LEN32 + |value|;
    segments', capacities', records' := EnsureRoom(hasValues, opts, segments, capacities, payload, env, records, m,
                                                   slots, t);
    segments', capacities', records', e := AppendRecord(hasValues, segments', capacities', key, value, env, records',
                                                        m, slots, t);
    slots', t', m' := slots[slot := e], t[slot := Holds(Record(key, value))], m[key := value];
    InsertKeepsIndex(hasValues, segments', slots, path, t, m, Record(key, value), i, e, slots', t', m');
  }

  class InternalMap {
    const hasValues: bool
    const opts: Options
    const sizes: SizeTable // tableSizesPrimes
    var tableSizeIndex: nat
    var segments: seq<seq<byte>>
    var capacities: seq<Capacity> // cap() of each segment
    var slots: array<Entry>
    var count: nat
    var h2Prime: nat

    ghost var path: Path                 // the slots each probe examines
    ghost var table: Table               // the record each slot stands for
    ghost var records: seq<seq<Record>>  // the records of each segment
    ghost var contents: Contents         // the finite map this object refines

    ghost predicate Valid()
      reads this, slots
    {
      && Supported(opts)
      && ValidTable()
      && ValidSegments()
      && Represents(hasValues, segments, slots[..], table)
      && count == |contents| < slots.Length
      && (opts.loadFactorPercentage >= 1 ==> count <= Threshold(slots.Length, opts.loadFactorPercentage))
    }

    /** The table is in order; its length and h2Prime are consecutive table sizes. */
    ghost predicate ValidTable()
      reads this
    {
      && 1 <= tableSizeIndex < |sizes|
      && slots.Length == sizes[tableSizeIndex]
      && h2Prime == sizes[tableSizeIndex - 1]
      && path.n == slots.Length && path.h2Prime == h2Prime
      && TableOk(table, path)
      && Binds(table, contents)
    }

    /** The segments are the records in the order they were added, each key once. */
    ghost predicate ValidSegments()
      reads this
    {
      StoreOk(hasValues, segments, capacities, records, contents)
    }

    constructor (hasValues: bool, opts: Options, sizes: SizeTable)
      requires Supported(opts)
      requires 1 <= opts.initialSizeLogarithm - MIN_SIZE_LOGARITHM < |sizes|
      ensures Valid() && fresh(slots) && contents == map[]
      ensures this.hasValues == hasValues && this.opts == opts && this.sizes == sizes && |segments| == 1
    {
      var index := opts.initialSizeLogarithm - MIN_SIZE_LOGARITHM;
      ghost var path := DoubleHashing(sizes[index], sizes[index - 1]);
      EmptyTableOk(sizes[index], path);
      EmptySegments(hasValues);
      this.hasValues := hasValues;
      this.opts := opts;
      this.sizes := sizes;
      tableSizeIndex := index;
      h2Prime := sizes[index - 1];
      slots := new Entry[sizes[index]](_ => Entry(0, 0));
      count := 0;
      segments := [[]];
      capacities := [if 0 >= opts.numMemorySegments then opts.fileSegmentSize else opts.memorySegmentSize];
      this.path := path;
      table := EmptyTable(sizes[index]);
      records := [[]];
      contents := map[];
      new;
      EmptySlotsRepresent(hasValues, segments, slots[..]);
      ThresholdNonNegative(slots.Length, opts.loadFactorPercentage);
    }

    /** Whether entry e holds the given key. */
    method KeyEquals(e: Entry, key: seq<byte>, ghost s: Slot) returns (equal: bool)
      requires e.segment != 0 && PointsTo(hasValues, segments, e, s)
      ensures equal == (s.rec.key == key)
    {
      var stored := ReadKey(hasValues, segments[e.segment - 1], e.offset, s.rec);
      equal := key == stored;
    }

    /** Probes `slots` for `key`: the slot that holds it, or the empty one where it belongs. */
    method FindSlotInSlice(key: seq<byte>, slots: array<Entry>, h2Prime: nat, ghost path: Path, ghost t: Table,
                           ghost m: Contents)
      returns (slot: nat, ghost i: nat)
      requires MIN_KEY_LENGTH <= |key|
      requires path.n == slots.Length && path.h2Prime == h2Prime && TableOk(t, path) && Binds(t, m) && |m| < |t|
      requires Represents(hasValues, segments, slots[..], t)
      ensures i < |t| && slot == path.at(key, i) && Passes(t, path, key, i)
      ensures PointsTo(hasValues, segments, slots[slot], t[slot])
      ensures key in m ==> t[slot] == Holds(Record(key, m[key]))
      ensures key !in m ==> t[slot].Free?
    {
      slot := FirstSlot(key, slots.Length, path);
      var delta := Delta(key, h2Prime);
      i := 0;
      while slots[slot].segment != 0
        invariant 0 <= i < |t|
        invariant slot == path.at(key, i)
        invariant Passes(t, path, key, i)
        decreases |t| - i
      {
        AllPointToAt(hasValues, segments, slots[..], t, |t|, slot);
        var equal := KeyEquals(slots[slot], key, t[slot]);
        if equal {
          KeysAreDistinct(t, path);
          SlotIsBound(t, slot);
          return;
        }
        PassesOneMore(t, path, key, i);
        slot := NextSlot(slot, delta, slots.Length, key, path, i);
        i := i + 1;
        ProbeHasSlotsLeft(t, path, m, key, i);
      }
      AllPointToAt(hasValues, segments, slots[..], t, |t|, slot);
      EmptySlotMeansAbsent(t, path, m, key, i);
    }

    /** Whether the key is bound. */
    method Contains(key: seq<byte>) returns (found: bool)
      requires Valid() && MIN_KEY_LENGTH <= |key|
      ensures found <==> key in contents
    {
      var slot, i := FindSlotInSlice(key, slots, h2Prime, path, table, contents);
      found := slots[slot].segment != 0;
    }

    /** The value bound to the key, appended to the given buffer. */
    method Get(buf: seq<byte>, key: seq<byte>) returns (r: GetResult)
      requires Valid() && MIN_KEY_LENGTH <= |key|
      ensures r == GetSpec(hasValues, contents, buf, key)
      ensures r.found <==> key in contents
      ensures r.found && hasValues ==>
                && |r.data| == |buf| + |contents[key]|
                && r.data[..|buf|] == buf && r.data[|buf|..] == contents[key]
    {
      var slot, i := FindSlotInSlice(key, slots, h2Prime, path, table, contents);
      var e := slots[slot];
      if e.segment == 0 {
        return GetResult([], false);
      }
      if !hasValues {
        return GetResult([], true);
      }
      SegmentHoldsAt(hasValues, segments, records, e.segment - 1);
      var value := ReadValue(segments[e.segment - 1], e.offset, table[slot].rec);
      r := GetResult(buf + value, true);
    }

    /** Enters the record at `koff` of segment number `segNum` into a table under construction. */
    method PlaceRecord(segNum: nat, koff: nat, key: seq<byte>, newSlots: array<Entry>, newH2Prime: nat,
                       ghost newPath: Path, ghost t: Table, ghost done: Contents, ghost r: Record)
      returns (ghost t': Table)
      requires segNum < |segments| < TWO_TO_THE_32 && koff < TWO_TO_THE_32
      requires EncodedAt(hasValues, segments[segNum], koff, r) && key == r.key && key !in done
      requires newPath.n == newSlots.Length && newPath.h2Prime == newH2Prime && TableOk(t, newPath) && Binds(t, done)
      requires |done| < |t|
      requires Represents(hasValues, segments, newSlots[..], t)
      modifies newSlots
      ensures TableOk(t', newPath) && Binds(t', done[r.key := r.value])
      ensures Represents(hasValues, segments, newSlots[..], t')
    {
      var slot, i := FindSlotInSlice(key, newSlots, newH2Prime, newPath, t, done);
      InsertKeepsOrder(t, newPath, done, r, i);
      var e := Entry(U32(segNum) + 1, U32(koff));
      RefersToRecord(hasValues, segments, e, r);
      RepresentsInsert(hasValues, segments, newSlots[..], t, slot, e, r);
      newSlots[slot] := e;
      t' := t[slot := Holds(r)];
    }

    /** One round of the rescan: enters the record at offset `koff` and moves past it. */
    method RescanOne(segNum: nat, koff: nat, newSlots: array<Entry>, newH2Prime: nat,
                     ghost newPath: Path, ghost t: Table, ghost done: Contents, ghost j: nat)
      returns (p: nat, ghost t': Table, ghost done': Contents)
      requires ValidSegments() && |contents| < newSlots.Length
      requires newPath.n == newSlots.Length && newPath.h2Prime == newH2Prime && TableOk(t, newPath) && Binds(t, done)
      requires Represents(hasValues, segments, newSlots[..], t)
      requires RescanAt(hasValues, records, segNum, j, koff, done)
      requires koff < |segments[segNum]| && segments[segNum][koff] != 0
      modifies newSlots
      ensures TableOk(t', newPath) && Binds(t', done')
      ensures Represents(hasValues, segments, newSlots[..], t')
      ensures j < |records[segNum]| && RescanAt(hasValues, records, segNum, j + 1, p, done')
    {
      RescanAdvances(hasValues, segments, records, segNum, j, koff, done);
      ghost var r := records[segNum][j];
      var key := ReadKey(hasValues, segments[segNum], koff, r);
      p := SkipRecord(hasValues, segments[segNum], koff, r);
      t' := PlaceRecord(segNum, koff, key, newSlots, newH2Prime, newPath, t, done, r);
      done' := done[r.key := r.value];
    }

    /** Enters all records of segment number `segNum` into a table under construction. */
    method RescanSegment(segNum: nat, newSlots: array<Entry>, newH2Prime: nat,
                         ghost newPath: Path, ghost t0: Table, ghost done0: Contents)
      returns (ghost t: Table, ghost done: Contents)
      requires ValidSegments() && segNum < |segments| && |contents| < newSlots.Length
      requires newPath.n == newSlots.Length && newPath.h2Prime == newH2Prime && TableOk(t0, newPath) && Binds(t0, done0)
      requires Represents(hasValues, segments, newSlots[..], t0)
      requires done0 == ToMap(Flat(records[..segNum]))
      modifies newSlots
      ensures TableOk(t, newPath) && Binds(t, done)
      ensures Represents(hasValues, segments, newSlots[..], t)
      ensures done == ToMap(Flat(records[..segNum + 1]))
    {
      var seg := segments[segNum];
      ghost var j := 0;
      var p: nat := 0;
      t, done := t0, done0;
      RescanStarts(hasValues, segments, records, segNum);
      while p < |seg| && seg[p] != 0
        invariant TableOk(t, newPath) && Binds(t, done) && Represents(hasValues, segments, newSlots[..], t)
        invariant RescanAt(hasValues, records, segNum, j, p, done)
        decreases |records[segNum]| - j
      {
        p, t, done := RescanOne(segNum, p, newSlots, newH2Prime, newPath, t, done, j);
        j := j + 1;
      }
      RescanEnds(hasValues, segments, records, segNum, j, p, done);
    }

    /** Rescans all segments into a fresh table of the given larger size. */
    method Rebuild(newSize: nat, newH2Prime: nat) returns (newSlots: array<Entry>, ghost newPath: Path, ghost t: Table)
      requires ValidSegments() && |contents| < newSize
      requires 1 < newH2Prime < newSize && IsPrime(newSize)
      ensures fresh(newSlots) && newSlots.Length == newSize
      ensures newPath.n == newSize && newPath.h2Prime == newH2Prime && TableOk(t, newPath) && Binds(t, contents)
      ensures Represents(hasValues, segments, newSlots[..], t)
    {
      newSlots := new Entry[newSize](_ => Entry(0, 0));
      newPath := DoubleHashing(newSize, newH2Prime);
      t := EmptyTable(newSize);
      ghost var done: Contents := map[];
      EmptyTableOk(newSize, newPath);
      EmptySlotsRepresent(hasValues, segments, newSlots[..]);
      assert Flat(records[..0]) == [];
      for segNum := 0 to |segments|
        invariant TableOk(t, newPath) && Binds(t, done) && Represents(hasValues, segments, newSlots[..], t)
        invariant done == ToMap(Flat(records[..segNum]))
      {
        t, done := RescanSegment(segNum, newSlots, newH2Prime, newPath, t, done);
      }
      assert records[..|segments|] == records;
    }

    method GrowLocked(newSize: nat)
      requires ValidSegments()
      requires |contents| < slots.Length < newSize && 1 < slots.Length && IsPrime(newSize)
      modifies `slots, `h2Prime, `path, `table
      ensures fresh(slots) && slots.Length == newSize && h2Prime == old(slots.Length)
      ensures path.n == newSize && path.h2Prime == h2Prime && TableOk(table, path) && Binds(table, contents)
      ensures Represents(hasValues, segments, slots[..], table)
    {
      var newSlots, newPath, t := Rebuild(newSize, slots.Length);
      h2Prime := slots.Length;
      slots := newSlots;
      path := newPath;
      table := t;
    }

    /**
      Binds the key unless it is bound already. In the one case where the code
      runs off the list of table sizes the object is left unusable.
     */
    method PutIfAbsent(key: seq<byte>, value: seq<byte>, env: Environment) returns (r: PutResult)
      requires Valid()
      requires |segments| + 1 < TWO_TO_THE_32
      requires 1 + |key| + MAX_VARINT_LEN32 + |value| < TWO_TO_THE_32
      modifies this, slots
      ensures r == PutSpec(hasValues, old(contents), old(TableExhausted()), key, value)
      ensures contents == if r == Added then old(contents)[key := value] else old(contents)
      ensures r != Panic("index out of range") ==> Valid()
      ensures |segments| <= old(|segments|) + 1
      ensures slots == old(slots) || fresh(slots)
    {
      if |key| < MIN_KEY_LENGTH {
        return Panic("key too short");
      }
      if |key| > MAX_KEY_LENGTH {
        return Panic("key too long");
      }
      if !hasValues && |value| > 0 {
        return Panic("values are not enabled");
      }
      var slot, i := FindSlotInSlice(key, slots, h2Prime, path, table, contents);
      if slots[slot].segment != 0 {
        return AlreadyPresent;
      }
      r := InsertAbsent(slot, key, value, env, i);
    }

    /** The rest of PutIfAbsent for a key that is not bound: grows the table if it must, then adds the record. */
    method InsertAbsent(freeSlot: nat, key: seq<byte>, value: seq<byte>, env: Environment, ghost j: nat)
      returns (r: PutResult)
      requires Valid() && key !in contents && WellFormed(hasValues, Record(key, value))
      requires |segments| + 1 < TWO_TO_THE_32 && 1 + |key| + MAX_VARINT_LEN32 + |value| < TWO_TO_THE_32
      requires j < |table| && freeSlot == path.at(key, j) && Passes(table, path, key, j) && table[freeSlot].Free?
      modifies this, slots
      ensures r == if old(TableExhausted()) then Panic("index out of range") else Added
      ensures contents == if r == Added then old(contents)[key := value] else old(contents)
      ensures r == Added ==> Valid()
      ensures |segments| <= old(|segments|) + 1
      ensures slots == old(slots) || fresh(slots)
    {
      r := Added;
      if MustGrow(count, slots.Length, opts.loadFactorPercentage) {
        tableSizeIndex := tableSizeIndex + 1;
        if tableSizeIndex >= |sizes| {
          return Panic("index out of range");
        }
        GrowAndAdd(key, value, env);
      } else {
        AddedFits(count + 1, slots.Length, opts.loadFactorPercentage);
        Add(freeSlot, key, value, env, j);
      }
    }

    /** Adds a new key after a growth: its slot has to be found again. */
    method GrowAndAdd(key: seq<byte>, value: seq<byte>, env: Environment)
      requires key !in contents && WellFormed(hasValues, Record(key, value))
      requires |segments| + 1 < TWO_TO_THE_32 && 1 + |key| + MAX_VARINT_LEN32 + |value| < TWO_TO_THE_32
      requires CanGrow()
      modifies this
      ensures Valid() && contents == old(contents)[key := value] && fresh(slots)
      ensures |segments| <= old(|segments|) + 1
    {
      Grow();
      var slot, i := FindSlotInSlice(key, slots, h2Prime, path, table, contents);
      Add(slot, key, value, env, i);
    }

    /** `tableSizeIndex` has been advanced, the table is still the smaller one. */
    ghost predicate CanGrow()
      reads this
    {
      && Supported(opts) && ValidSegments() && count == |contents| < slots.Length
      && 2 <= tableSizeIndex < |sizes| && slots.Length == sizes[tableSizeIndex - 1]
      && (opts.loadFactorPercentage >= 1 ==> count <= Threshold(slots.Length, opts.loadFactorPercentage))
    }

    /** Moves to the table size that `tableSizeIndex` has just been advanced to. */
    method Grow()
      requires CanGrow()
      modifies `slots, `h2Prime, `path, `table
      ensures Valid() && HasRoom() && fresh(slots)
      ensures segments == old(segments) && contents == old(contents)
    {
      var newSize := sizes[tableSizeIndex];
      if opts.loadFactorPercentage >= 1 {
        ThresholdIncreases(slots.Length, newSize, opts.loadFactorPercentage);
      }
      GrowLocked(newSize);
    }

    /** One more element fits the current table. */
    ghost predicate HasRoom()
      reads this
    {
      && count + 1 < slots.Length
      && (opts.loadFactorPercentage >= 1 ==> count + 1 <= Threshold(slots.Length, opts.loadFactorPercentage))
    }

    /** Writes the record of a new key and fills the empty slot its probe ends at. */
    method Add(slot: nat, key: seq<byte>, value: seq<byte>, env: Environment, ghost i: nat)
      requires Valid() && HasRoom()
      requires |segments| + 1 < TWO_TO_THE_32
      requires WellFormed(hasValues, Record(key, value)) && key !in contents
      requires 1 + |key| + MAX_VARINT_LEN32 + |value| < TWO_TO_THE_32
      requires i < |table| && slot == path.at(key, i) && Passes(table, path, key, i) && table[slot].Free?
      modifies slots, `segments, `capacities, `records, `contents, `count, `table
      ensures Valid() && contents == old(contents)[key := value]
      ensures |segments| <= old(|segments|) + 1
    {
      var segs, caps, e, filled, t, recs, m := StoreRecord(hasValues, opts, segments, capacities, slot, key, value, env,
                                                          path, i, slots[..], table, records, contents);
      Install(segs, caps, slot, e, t, recs, m);
    }

    method Install(segs: seq<seq<byte>>, caps: seq<Capacity>, slot: nat, e: Entry, ghost t: Table,
                   ghost recs: seq<seq<Record>>, ghost m: Contents)
      requires slot < slots.Length
      modifies slots, `segments, `capacities, `records, `contents, `count, `table
      ensures segments == segs && capacities == caps && count == old(count) + 1
      ensures slots[..] == old(slots[..])[slot := e]
      ensures table == t && records == recs && contents == m
    {
      segments, capacities, count := segs, caps, count + 1;
      slots[slot] := e;
      table, records, contents := t, recs, m;
    }

    lemma ExhaustedExactlyAt(limit: int)
      requires Valid() && LimitOf(opts, sizes, limit)
      ensures TableExhausted() <==> |contents| >= limit
    {
      ExhaustedAtLimit(sizes, tableSizeIndex, count, opts.loadFactorPercentage);
    }

    /** The largest table has reached its growth threshold. */
    ghost predicate TableExhausted()
      requires Valid()
      reads this, slots
    {
      MustGrow(count, slots.Length, opts.loadFactorPercentage) && tableSizeIndex + 1 == |sizes|
    }
  }

  // ---------- whole runs ----------

  datatype NewResult = Created(m: InternalMap) | InvalidSize | IndexPanic

  /**
    newInternalMapWithOptions with the list of sizes in the code: too small a
    size is an error, too large a one a panic.
   */
  method NewInternalMapWithOptions(hasValues: bool, options: Options) returns (r: NewResult)
    requires ListedSizesArePrime() && Supported(WithDefaults(options))
    ensures var index := WithDefaults(options).initialSizeLogarithm - MIN_SIZE_LOGARITHM;
            if index < 1 then r == InvalidSize else if index >= NUM_TABLE_SIZES then r == IndexPanic else r.Created?
    ensures r.Created? ==> fresh(r.m) && fresh(r.m.slots) && r.m.Valid() && r.m.contents == map[] && |r.m.segments| == 1
    ensures r.Created? ==>
              r.m.hasValues == hasValues && r.m.opts == WithDefaults(options) && r.m.sizes == AllTableSizes()
  {
    var opts := WithDefaults(options);
    var index := opts.initialSizeLogarithm - MIN_SIZE_LOGARITHM;
    if index < 1 {
      return InvalidSize;
    }
    if index >= NUM_TABLE_SIZES {
      return IndexPanic;
    }
    TableSizesOk();
    var m := new InternalMap(hasValues, opts, AllTableSizes());
    r := Created(m);
  }

  datatype Op =
    | PutOp(key: seq<byte>, value: seq<byte>, env: Environment)
    | GetOp(buf: seq<byte>, key: seq<byte>)
    | ContainsOp(key: seq<byte>)
  datatype Out = PutOut(put: PutResult) | GetOut(got: GetResult) | ContainsOut(found: bool)

  /** What callers must respect: keys that are looked up have their four hash bytes; a record fits a 32-bit segment. */
  ghost predicate Callable(op: Op) {
    match op
    case PutOp(key, value, _) => 1 + |key| + MAX_VARINT_LEN32 + |value| < TWO_TO_THE_32
    case GetOp(_, key) => MIN_KEY_LENGTH <= |key|
    case ContainsOp(key) => MIN_KEY_LENGTH <= |key|
  }

  function SpecOut(hasValues: bool, limit: int, m: Contents, op: Op): Out {
    match op
    case PutOp(key, value, _) => PutOut(PutSpec(hasValues, m, |m| >= limit, key, value))
    case GetOp(buf, key) => GetOut(GetSpec(hasValues, m, buf, key))
    case ContainsOp(key) => ContainsOut(key in m)
  }

  function SpecNext(m: Contents, op: Op, out: Out): Contents {
    if op.PutOp? && out == PutOut(Added) then m[op.key := op.value] else m
  }

  predicate Fatal(out: Out) {
    out == PutOut(Panic("index out of range"))
  }

  /** The answers of a finite map to a list of operations, up to the panic at the size limit. */
  function SpecRun(hasValues: bool, limit: int, m: Contents, ops: seq<Op>): seq<Out>
    decreases |ops|
  {
    if ops == [] then [] else
    var out := SpecOut(hasValues, limit, m, ops[0]);
    [out] + if Fatal(out) then [] else SpecRun(hasValues, limit, SpecNext(m, ops[0], out), ops[1..])
  }

  /** With a positive load factor, the sizes run out exactly when the limit is reached. */
  lemma ExhaustedAtLimit(sizes: SizeTable, index: nat, count: nat, loadFactor: int)
    requires 1 <= index < |sizes| && loadFactor >= 1
    requires count <= Threshold(sizes[index], loadFactor)
    ensures MustGrow(count, sizes[index], loadFactor) && index + 1 == |sizes| <==>
              count >= Threshold(sizes[|sizes| - 1], loadFactor)
  {
    if index + 1 < |sizes| {
      ThresholdIncreases(sizes[index], sizes[|sizes| - 1], loadFactor);
    }
  }

  ghost predicate LimitOf(opts: Options, sizes: SizeTable, limit: int) {
    sizes != [] && 1 <= opts.loadFactorPercentage && limit == Threshold(sizes[|sizes| - 1], opts.loadFactorPercentage)
  }

  method PerformPut(m: InternalMap, key: seq<byte>, value: seq<byte>, env: Environment, ghost limit: int)
    returns (out: Out)
    requires m.Valid() && |m.segments| + 1 < TWO_TO_THE_32 && 1 + |key| + MAX_VARINT_LEN32 + |value| < TWO_TO_THE_32
    requires LimitOf(m.opts, m.sizes, limit)
    modifies m, m.slots
    ensures out == PutOut(PutSpec(m.hasValues, old(m.contents), old(|m.contents|) >= limit, key, value))
    ensures m.contents == if out == PutOut(Added) then old(m.contents)[key := value] else old(m.contents)
    ensures !Fatal(out) ==> m.Valid()
    ensures |m.segments| <= old(|m.segments|) + 1
    ensures m.slots == old(m.slots) || fresh(m.slots)
  {
    m.ExhaustedExactlyAt(limit);
    var r := m.PutIfAbsent(key, value, env);
    out := PutOut(r);
  }

  /** One operation on the map answers as the finite map does. */
  method Perform(m: InternalMap, op: Op, ghost limit: int) returns (out: Out)
    requires m.Valid() && Callable(op) && |m.segments| + 1 < TWO_TO_THE_32
    requires LimitOf(m.opts, m.sizes, limit)
    modifies m, m.slots
    ensures out == SpecOut(m.hasValues, limit, old(m.contents), op)
    ensures m.contents == SpecNext(old(m.contents), op, out)
    ensures !Fatal(out) ==> m.Valid()
    ensures |m.segments| <= old(|m.segments|) + 1
    ensures m.slots == old(m.slots) || fresh(m.slots)
  {
    match op {
      case PutOp(key, value, env) =>
        out := PerformPut(m, key, value, env, limit);
      case GetOp(buf, key) =>
        var r := m.Get(buf, key);
        out := GetOut(r);
      case ContainsOp(key) =>
        var found := m.Contains(key);
        out := ContainsOut(found);
    }
  }

  // ---------- what the answers mean ----------

  /** Operation i was a Put of key and value, and added them. */
  ghost predicate AddedAt(ops: seq<Op>, outs: seq<Out>, i: nat, key: seq<byte>, value: seq<byte>) {
    && i < |outs| && i < |ops| && outs[i] == PutOut(Added)
    && ops[i].PutOp? && ops[i].key == key && ops[i].value == value
  }

  /** The number of bindings that the first j operations added. */
  function NumAdded(outs: seq<Out>, j: nat): nat
    requires j <= |outs|
  {
    if j == 0 then 0 else NumAdded(outs, j - 1) + if outs[j - 1] == PutOut(Added) then 1 else 0
  }

  /** key is bound to value in m, or has been added by one of the first j operations. */
  ghost predicate BoundAt(m: Contents, ops: seq<Op>, outs: seq<Out>, j: nat, key: seq<byte>, value: seq<byte>) {
    (key in m && m[key] == value) || exists i :: 0 <= i < j && AddedAt(ops, outs, i, key, value)
  }

  /** The contents before operation j. */
  function ContentsAt(hasValues: bool, limit: int, m: Contents, ops: seq<Op>, j: nat): Contents
    requires j <= |ops|
    decreases j
  {
    if j == 0 then m
    else ContentsAt(hasValues, limit, SpecNext(m, ops[0], SpecOut(hasValues, limit, m, ops[0])), ops[1..], j - 1)
  }

  lemma {:induction false} AnswerAt(hasValues: bool, limit: int, m: Contents, ops: seq<Op>, j: nat)
    requires j < |SpecRun(hasValues, limit, m, ops)|
    ensures |SpecRun(hasValues, limit, m, ops)| <= |ops|
    ensures SpecRun(hasValues, limit, m, ops)[j] ==
              SpecOut(hasValues, limit, ContentsAt(hasValues, limit, m, ops, j), ops[j])
    decreases j
  {
    SpecRunLength(hasValues, limit, m, ops);
    if j > 0 {
      var m' := SpecNext(m, ops[0], SpecOut(hasValues, limit, m, ops[0]));
      AnswerAt(hasValues, limit, m', ops[1..], j - 1);
    }
  }

  lemma {:induction false} SpecRunLength(hasValues: bool, limit: int, m: Contents, ops: seq<Op>)
    ensures var outs := SpecRun(hasValues, limit, m, ops);
            |outs| <= |ops| && (|outs| < |ops| ==> outs != [] && Fatal(outs[|outs| - 1]))
    decreases |ops|
  {
    if ops != [] {
      SpecRunLength(hasValues, limit, SpecNext(m, ops[0], SpecOut(hasValues, limit, m, ops[0])), ops[1..]);
    }
  }

  lemma BoundNext(m: Contents, ops: seq<Op>, outs: seq<Out>, j: nat, m': Contents, key: seq<byte>, value: seq<byte>)
    requires 0 < j < |outs| <= |ops| && m' == SpecNext(m, ops[0], outs[0])
    requires ops[0].PutOp? && outs[0] == PutOut(Added) ==> ops[0].key !in m
    ensures BoundAt(m', ops[1..], outs[1..], j - 1, key, value) <==> BoundAt(m, ops, outs, j, key, value)
  {
    if i :| 0 <= i < j - 1 && AddedAt(ops[1..], outs[1..], i, key, value) {
      assert AddedAt(ops, outs, i + 1, key, value);
    }
    if i :| 0 <= i < j && AddedAt(ops, outs, i, key, value) {
      if i > 0 {
        assert AddedAt(ops[1..], outs[1..], i - 1, key, value);
      }
    }
    if key in m' && m'[key] == value && !(key in m && m[key] == value) {
      assert AddedAt(ops, outs, 0, key, value);
    }
  }

  lemma {:induction false} NumAddedNext(outs: seq<Out>, j: nat)
    requires 0 < j <= |outs|
    ensures NumAdded(outs, j) == NumAdded(outs[1..], j - 1) + if outs[0] == PutOut(Added) then 1 else 0
  {
    if j > 1 {
      NumAddedNext(outs, j - 1);
    } else {
      assert NumAdded(outs, 0) == 0;
    }
  }

  /** The contents before operation j are what the operations before it have added. */
  lemma {:induction false} ContentsAreAdded(hasValues: bool, limit: int, m: Contents, ops: seq<Op>, outs: seq<Out>,
                                            j: nat, key: seq<byte>, value: seq<byte>)
    requires outs == SpecRun(hasValues, limit, m, ops) && j < |outs| <= |ops|
    ensures var c := ContentsAt(hasValues, limit, m, ops, j);
            && (key in c && c[key] == value <==> BoundAt(m, ops, outs, j, key, value))
            && |c| == |m| + NumAdded(outs, j)
    decreases j
  {
    if j > 0 {
      var m' := SpecNext(m, ops[0], outs[0]);
      ContentsAreAdded(hasValues, limit, m', ops[1..], outs[1..], j - 1, key, value);
      BoundNext(m, ops, outs, j, m', key, value);
      NumAddedNext(outs, j);
    }
  }

  /** One of the first j operations added the key. */
  ghost predicate AddedBefore(ops: seq<Op>, outs: seq<Out>, j: nat, key: seq<byte>) {
    exists i, value :: 0 <= i < j && AddedAt(ops, outs, i, key, value)
  }

  /**
    The answer to operation j, in terms of the operations before it: a key is
    found exactly if it was added, with the value it was added with after the
    caller's buffer; it is added once, if it is well-formed and there is room.
   */
  ghost predicate AnsweredRight(hasValues: bool, limit: int, ops: seq<Op>, outs: seq<Out>, j: nat)
    requires j < |outs| <= |ops|
  {
    match ops[j]
    case GetOp(buf, key) =>
      && outs[j].GetOut? && (outs[j].got.found <==> AddedBefore(ops, outs, j, key))
      && (forall i, value :: 0 <= i < j && AddedAt(ops, outs, i, key, value) ==>
            outs[j].got.data == if hasValues then buf + value else [])
    case ContainsOp(key) => outs[j].ContainsOut? && (outs[j].found <==> AddedBefore(ops, outs, j, key))
    case PutOp(key, value, _) =>
      var wellFormed := 4 <= |key| <= 255 && (hasValues || value == []);
      && outs[j].PutOut?
      && (outs[j].put.Added? <==> wellFormed && !AddedBefore(ops, outs, j, key) && NumAdded(outs, j) < limit)
      && (outs[j].put.AlreadyPresent? <==> wellFormed && AddedBefore(ops, outs, j, key))
  }

  lemma KeyIsAdded(hasValues: bool, limit: int, ops: seq<Op>, outs: seq<Out>, j: nat, key: seq<byte>)
    requires outs == SpecRun(hasValues, limit, map[], ops) && j < |outs| <= |ops|
    ensures var c := ContentsAt(hasValues, limit, map[], ops, j);
            && (key in c <==> AddedBefore(ops, outs, j, key)) && |c| == NumAdded(outs, j)
            && forall i, value :: 0 <= i < j && AddedAt(ops, outs, i, key, value) ==> key in c && c[key] == value
  {
    var c := ContentsAt(hasValues, limit, map[], ops, j);
    ContentsAreAdded(hasValues, limit, map[], ops, outs, j, key, if key in c then c[key] else []);
    forall i, value | 0 <= i < j && AddedAt(ops, outs, i, key, value)
      ensures key in c && c[key] == value
    {
      ContentsAreAdded(hasValues, limit, map[], ops, outs, j, key, value);
    }
  }

  lemma RunAnswersRight(hasValues: bool, limit: int, ops: seq<Op>, outs: seq<Out>, j: nat)
    requires outs == SpecRun(hasValues, limit, map[], ops) && j < |outs| <= |ops|
    ensures AnsweredRight(hasValues, limit, ops, outs, j)
  {
    AnswerAt(hasValues, limit, map[], ops, j);
    KeyIsAdded(hasValues, limit, ops, outs, j, ops[j].key);
  }

  /**
    Every run of operations on a new map, through any number of growths and
    segment changes, gives the answers of a finite map from keys to values,
    for every list of table sizes that are primes well apart.
   */
  method Run(hasValues: bool, options: Options, sizes: SizeTable, ops: seq<Op>) returns (outs: seq<Out>)
    requires Supported(WithDefaults(options)) && 1 <= WithDefaults(options).loadFactorPercentage
    requires 1 <= WithDefaults(options).initialSizeLogarithm - MIN_SIZE_LOGARITHM < |sizes|
    requires forall i :: 0 <= i < |ops| ==> Callable(ops[i])
    requires |ops| + 1 < TWO_TO_THE_32
    ensures outs ==
              SpecRun(hasValues, Threshold(sizes[|sizes| - 1], WithDefaults(options).loadFactorPercentage), map[], ops)
    ensures |outs| <= |ops| && (|outs| < |ops| ==> outs != [] && Fatal(outs[|outs| - 1]))
    ensures var limit := sizes[|sizes| - 1] * WithDefaults(options).loadFactorPercentage / 100;
            forall j :: 0 <= j < |outs| ==> AnsweredRight(hasValues, limit, ops, outs, j)
  {
    var m := new InternalMap(hasValues, WithDefaults(options), sizes);
    ghost var limit := Threshold(sizes[|sizes| - 1], m.opts.loadFactorPercentage);
    outs := RunOn(m, ops, limit);
    SpecRunLength(hasValues, limit, map[], ops);
    forall j | 0 <= j < |outs|
      ensures AnsweredRight(hasValues, limit, ops, outs, j)
    {
      RunAnswersRight(hasValues, limit, ops, outs, j);
    }
  }

  method RunOn(m: InternalMap, ops: seq<Op>, ghost limit: int) returns (outs: seq<Out>)
    requires m.Valid() && LimitOf(m.opts, m.sizes, limit)
    requires forall i :: 0 <= i < |ops| ==> Callable(ops[i])
    requires |m.segments| + |ops| < TWO_TO_THE_32
    modifies m, m.slots
    ensures outs == SpecRun(m.hasValues, limit, old(m.contents), ops)
    ensures m.slots == old(m.slots) || fresh(m.slots)
    decreases |ops|
  {
    if ops == [] {
      return [];
    }
    var out := Perform(m, ops[0], limit);
    outs := [out];
    if !Fatal(out) {
      var rest := RunOn(m, ops[1..], limit);
      outs := outs + rest;
    }
  }
}
