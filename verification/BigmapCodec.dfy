/**
  The byte layout of a bigmap segment: records `[keyLen][key][varint valueLen][value]`
  packed back to back, with no length and no terminator of their own.
 */
module BigmapCodec {
  import opened Basics

  datatype Record = Record(key: seq<byte>, value: seq<byte>)

  const MIN_KEY_LENGTH := 4
  const MAX_KEY_LENGTH := 255
  const MAX_VARINT_LEN32 := 5
  const MAX_VARINT_LEN64 := 10
  const TWO_TO_THE_32 := 0x1_0000_0000

  /** A conversion to uint32. */
  function U32(x: nat): nat {
    x % TWO_TO_THE_32
  }

  // ---------- base-128 lengths ----------

  /** encoding/binary.PutUvarint */
  function PutUvarint(v: nat): (s: seq<byte>)
    ensures |s| > 0
  {
    if v < 128 then [v] else [128 + v % 128] + PutUvarint(v / 128)
  }

  /** encoding/binary.Uvarint, from index i on: the value and the number of bytes read (not positive on error). */
  function UvarintFrom(buf: seq<byte>, i: nat): (nat, int)
    requires i <= |buf|
    decreases |buf| - i
  {
    if i == |buf| then (0, 0)
    else if i == MAX_VARINT_LEN64 then (0, -(i + 1))
    else if buf[i] < 128 then
      if i == MAX_VARINT_LEN64 - 1 && buf[i] > 1 then (0, -(i + 1)) else (buf[i], i + 1)
    else
      var (x, n) := UvarintFrom(buf, i + 1);
      if n <= 0 then (0, n) else (buf[i] - 128 + 128 * x, n)
  }

  function Uvarint(buf: seq<byte>): (nat, int) {
    UvarintFrom(buf, 0)
  }

  lemma {:induction false} UvarintInvertsPutUvarint(buf: seq<byte>, i: nat, v: nat)
    requires i + |PutUvarint(v)| <= |buf|
    requires i + |PutUvarint(v)| < MAX_VARINT_LEN64
    requires buf[i..i + |PutUvarint(v)|] == PutUvarint(v)
    ensures UvarintFrom(buf, i) == (v, i + |PutUvarint(v)|)
    decreases v
  {
    assert buf[i] == PutUvarint(v)[0];
    if v >= 128 {
      var rest := PutUvarint(v / 128);
      assert buf[i + 1..i + 1 + |rest|] == PutUvarint(v)[1..];
      UvarintInvertsPutUvarint(buf, i + 1, v / 128);
    }
  }

  /** A number that does not end is no number. */
  lemma {:induction false} UnendingIsTruncated(buf: seq<byte>, i: nat)
    requires i <= |buf| < MAX_VARINT_LEN64 && forall j :: i <= j < |buf| ==> buf[j] >= 128
    ensures UvarintFrom(buf, i) == (0, 0)
    decreases |buf| - i
  {
    if i < |buf| {
      UnendingIsTruncated(buf, i + 1);
    }
  }

  /** A number of ten bytes is read exactly if it fits 64 bits, that is, if its last byte is 0 or 1. */
  lemma {:induction false} LongestNumber(buf: seq<byte>, i: nat)
    requires i < 10 <= |buf| && (forall j :: i <= j < 9 ==> buf[j] >= 128) && buf[9] < 128
    ensures if buf[9] <= 1 then UvarintFrom(buf, i).1 == 10 else UvarintFrom(buf, i) == (0, -10)
    decreases 10 - i
  {
    if i < 9 {
      LongestNumber(buf, i + 1);
    }
  }

  /** A length below 2^32 needs at most the five bytes the writer reserves for it. */
  lemma PutUvarintFits(v: nat)
    requires v < TWO_TO_THE_32
    ensures |PutUvarint(v)| <= MAX_VARINT_LEN32
  {
    var v1 := v / 128;
    var v2 := v1 / 128;
    var v3 := v2 / 128;
    var v4 := v3 / 128;
    assert v4 < 128;
    assert |PutUvarint(v4)| == 1;
    assert |PutUvarint(v3)| <= 2;
    assert |PutUvarint(v2)| <= 3;
    assert |PutUvarint(v1)| <= 4;
  }

  // ---------- records ----------

  ghost predicate WellFormed(hasValues: bool, r: Record) {
    && MIN_KEY_LENGTH <= |r.key| <= MAX_KEY_LENGTH
    && |r.value| < TWO_TO_THE_32
    && (!hasValues ==> r.value == [])
  }

  function Encode(hasValues: bool, r: Record): (s: seq<byte>)
    requires |r.key| <= MAX_KEY_LENGTH
    ensures |s| > |r.key|
  {
    [|r.key|] + r.key + if hasValues then PutUvarint(|r.value|) + r.value else []
  }

  /** The layout, byte by byte, for a value of 300 bytes: base 128, low bits first, the high bit for "more". */
  lemma LayoutExample(value: seq<byte>)
    requires |value| == 300
    ensures Encode(true, Record([1, 2, 3, 4], value)) == [4, 1, 2, 3, 4, 0xAC, 0x02] + value
    ensures Encode(false, Record([1, 2, 3, 4], value)) == [4, 1, 2, 3, 4]
  {
    assert PutUvarint(2) == [2] && PutUvarint(300) == [0xAC] + PutUvarint(2) == [0xAC, 0x02];
  }

  /** A record takes no more than the room reserved for it. */
  lemma EncodedLength(hasValues: bool, r: Record)
    requires WellFormed(hasValues, r)
    ensures |Encode(hasValues, r)| <= 1 + |r.key| + MAX_VARINT_LEN32 + |r.value|
  {
    PutUvarintFits(|r.value|);
  }

  /** Segment `seg` holds the encoding of r at offset p. */
  ghost predicate EncodedAt(hasValues: bool, seg: seq<byte>, p: nat, r: Record) {
    && WellFormed(hasValues, r)
    && p + |Encode(hasValues, r)| <= |seg|
    && seg[p..p + |Encode(hasValues, r)|] == Encode(hasValues, r)
  }

  lemma SliceOfSlice<T>(s: seq<T>, a: nat, b: nat, c: nat, d: nat)
    requires a <= b <= |s| && c <= d <= b - a
    ensures s[a..b][c..d] == s[a + c..a + d]
  {
    var t := s[a..b][c..d];
    forall i | 0 <= i < d - c
      ensures t[i] == s[a + c + i]
    {
    }
  }

  /** What the readers see at an offset where a record was written. */
  lemma KeyDecodes(hasValues: bool, seg: seq<byte>, p: nat, r: Record)
    requires EncodedAt(hasValues, seg, p, r)
    ensures seg[p] == |r.key| > 0
    ensures seg[p + 1..p + 1 + |r.key|] == r.key
  {
    var e := Encode(hasValues, r);
    assert seg[p] == e[0];
    assert e[1..1 + |r.key|] == r.key;
    SliceOfSlice(seg, p, p + |e|, 1, 1 + |r.key|);
  }

  lemma PartsInPlace(seg: seq<byte>, p: nat, head: seq<byte>, v: seq<byte>, value: seq<byte>)
    requires p + |head| + |v| + |value| <= |seg|
    requires seg[p..p + |head| + |v| + |value|] == head + (v + value)
    ensures var off := p + |head|; seg[off..][..|v|] == v && seg[off + |v|..off + |v| + |value|] == value
  {
    var e, n := head + (v + value), |head| + |v| + |value|;
    SliceOfSlice(seg, p, p + n, |head|, |head| + |v|);
    SliceOfSlice(seg, p, p + n, |head| + |v|, n);
    SliceOfSlice(seg, p + |head|, |seg|, 0, |v|);
    assert e[|head|..|head| + |v|] == v && e[|head| + |v|..n] == value;
  }

  lemma ValueDecodes(seg: seq<byte>, p: nat, r: Record)
    requires EncodedAt(true, seg, p, r)
    ensures var off := p + 1 + |r.key|;
            var n := |PutUvarint(|r.value|)|;
            && Uvarint(seg[off..]) == (|r.value|, n)
            && n <= MAX_VARINT_LEN32
            && p + |Encode(true, r)| == off + n + |r.value|
            && seg[off + n..off + n + |r.value|] == r.value
  {
    var head, v := [|r.key|] + r.key, PutUvarint(|r.value|);
    PutUvarintFits(|r.value|);
    PartsInPlace(seg, p, head, v, r.value);
    UvarintInvertsPutUvarint(seg[p + |head|..], 0, |r.value|);
  }

  // ---------- segments ----------

  ghost predicate AllWellFormed(hasValues: bool, rs: seq<Record>) {
    forall i :: 0 <= i < |rs| ==> WellFormed(hasValues, rs[i])
  }

  ghost function EncodeAll(hasValues: bool, rs: seq<Record>): seq<byte>
    requires AllWellFormed(hasValues, rs)
  {
    if rs == [] then [] else EncodeAll(hasValues, rs[..|rs| - 1]) + Encode(hasValues, rs[|rs| - 1])
  }

  lemma {:induction false} EncodeAllSplit(hasValues: bool, a: seq<Record>, b: seq<Record>)
    requires AllWellFormed(hasValues, a) && AllWellFormed(hasValues, b)
    ensures AllWellFormed(hasValues, a + b)
    ensures EncodeAll(hasValues, a + b) == EncodeAll(hasValues, a) + EncodeAll(hasValues, b)
    decreases |b|
  {
    if b == [] {
      assert a + b == a;
    } else {
      var front := b[..|b| - 1];
      EncodeAllSplit(hasValues, a, front);
      assert (a + b)[..|a + b| - 1] == a + front;
    }
  }

  /** Record number j of a segment starts where the encoding of the first j records ends. */
  lemma RecordOffset(hasValues: bool, rs: seq<Record>, j: nat)
    requires AllWellFormed(hasValues, rs) && j < |rs|
    ensures var p := |EncodeAll(hasValues, rs[..j])|;
            && EncodedAt(hasValues, EncodeAll(hasValues, rs), p, rs[j])
            && |EncodeAll(hasValues, rs[..j + 1])| == p + |Encode(hasValues, rs[j])|
  {
    assert rs[..j + 1][..j] == rs[..j];
    assert rs == rs[..j + 1] + rs[j + 1..];
    EncodeAllSplit(hasValues, rs[..j + 1], rs[j + 1..]);
  }

  datatype ReadResult = Stop | Read(rec: Record, next: nat)

  /**
    One step of the rescan in growLocked: the record at offset p and where the
    next one starts. A zero byte stops it.
   */
  function ReadRecord(hasValues: bool, seg: seq<byte>, p: nat): (r: ReadResult)
    ensures r.Read? ==> p < r.next <= |seg|
  {
    if p >= |seg| || seg[p] == 0 || p + 1 + seg[p] > |seg| then Stop else
    var off := p + 1 + seg[p];
    var key := seg[p + 1..off];
    if !hasValues then Read(Record(key, []), off) else
    var (vlen, n) := Uvarint(seg[off..]);
    if n <= 0 || off + n + vlen > |seg| then Stop else
    Read(Record(key, seg[off + n..off + n + vlen]), off + n + vlen)
  }

  lemma ReadRecordDecodes(hasValues: bool, seg: seq<byte>, p: nat, r: Record)
    requires EncodedAt(hasValues, seg, p, r)
    ensures ReadRecord(hasValues, seg, p) == Read(r, p + |Encode(hasValues, r)|)
  {
    KeyDecodes(hasValues, seg, p, r);
    if hasValues {
      ValueDecodes(seg, p, r);
    }
  }

  /** The rescan of a segment from offset p on. */
  function Rescan(hasValues: bool, seg: seq<byte>, p: nat): seq<Record>
    requires p <= |seg|
    decreases |seg| - p
  {
    var r := ReadRecord(hasValues, seg, p);
    if r.Stop? then [] else [r.rec] + Rescan(hasValues, seg, r.next)
  }

  /** Parsing a segment from offset 0 recovers exactly the records appended to it, in order. */
  lemma RescanRecoversRecords(hasValues: bool, rs: seq<Record>)
    requires AllWellFormed(hasValues, rs)
    ensures Rescan(hasValues, EncodeAll(hasValues, rs), 0) == rs
  {
    assert rs[..0] == [];
    RescanFrom(hasValues, rs, EncodeAll(hasValues, rs), 0, 0);
  }

  /** ... and stops at a zero byte, whatever follows. */
  lemma ZeroEndsRescan(hasValues: bool, rs: seq<Record>, rest: seq<byte>)
    requires AllWellFormed(hasValues, rs)
    ensures Rescan(hasValues, EncodeAll(hasValues, rs) + [0] + rest, 0) == rs
  {
    assert rs[..0] == [];
    RescanFrom(hasValues, rs, EncodeAll(hasValues, rs) + [0] + rest, 0, 0);
  }

  /** The segment starts with the records, and then ends or has a zero byte. */
  ghost predicate StartsWith(hasValues: bool, seg: seq<byte>, rs: seq<Record>)
    requires AllWellFormed(hasValues, rs)
  {
    var n := |EncodeAll(hasValues, rs)|;
    n <= |seg| && seg[..n] == EncodeAll(hasValues, rs) && (n < |seg| ==> seg[n] == 0)
  }

  lemma {:induction false} RescanFrom(hasValues: bool, rs: seq<Record>, seg: seq<byte>, j: nat, p: nat)
    requires AllWellFormed(hasValues, rs) && j <= |rs|
    requires StartsWith(hasValues, seg, rs) && p == |EncodeAll(hasValues, rs[..j])| <= |seg|
    ensures Rescan(hasValues, seg, p) == rs[j..]
    decreases |rs| - j
  {
    if j == |rs| {
      assert rs[..j] == rs;
    } else {
      var next := RescanMeets(hasValues, rs, seg, j, p);
      RescanFrom(hasValues, rs, seg, j + 1, next);
      RescanStep(hasValues, seg, p, rs[j], next, rs[j + 1..]);
      assert rs[j..] == [rs[j]] + rs[j + 1..];
    }
  }

  /** After j records the rescan reads record j. */
  lemma RescanMeets(hasValues: bool, rs: seq<Record>, seg: seq<byte>, j: nat, p: nat) returns (next: nat)
    requires AllWellFormed(hasValues, rs) && j < |rs|
    requires StartsWith(hasValues, seg, rs) && p == |EncodeAll(hasValues, rs[..j])|
    ensures ReadRecord(hasValues, seg, p) == Read(rs[j], next)
    ensures next == |EncodeAll(hasValues, rs[..j + 1])| <= |seg|
  {
    RecordOffset(hasValues, rs, j);
    next := p + |Encode(hasValues, rs[j])|;
    var all := EncodeAll(hasValues, rs);
    SliceOfSlice(seg, 0, |all|, p, next);
    assert seg[0..|all|] == all;
    assert seg[p..next] == all[p..next];
    ReadRecordDecodes(hasValues, seg, p, rs[j]);
  }

  lemma RescanStep(hasValues: bool, seg: seq<byte>, p: nat, r: Record, next: nat, rest: seq<Record>)
    requires p <= |seg| && next <= |seg| && ReadRecord(hasValues, seg, p) == Read(r, next)
    requires Rescan(hasValues, seg, next) == rest
    ensures Rescan(hasValues, seg, p) == [r] + rest
  {
  }
}
