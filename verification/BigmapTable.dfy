/**
  The open-addressing table of a bigmap, seen through the records its slots
  stand for: a slot is empty or holds a record.
 */
module BigmapTable {
  import opened Basics
  import opened BigmapCodec
  import opened ProbeSequence

  datatype Slot = Free | Holds(rec: Record)

  type Table = seq<Slot>
  type Contents = map<seq<byte>, seq<byte>>

  // ---------- hashing ----------

  function BigEndian(bytes: seq<byte>): nat {
    if bytes == [] then 0 else 256 * BigEndian(bytes[..|bytes| - 1]) + bytes[|bytes| - 1]
  }

  /** The first eight bytes of the key, or the first four if there are fewer than eight. */
  function HashValue(key: seq<byte>): nat
    requires MIN_KEY_LENGTH <= |key|
  {
    if |key| < 8 then BigEndian(key[..4]) else BigEndian(key[..8])
  }

  /** The secondary hash; short keys use a linear scan. */
  function H2(key: seq<byte>): nat {
    if |key| < 16 then 1 else BigEndian(key[8..16])
  }

  function Delta(key: seq<byte>, h2Prime: nat): (delta: nat)
    requires 1 < h2Prime
    ensures 0 < delta < h2Prime
  {
    var delta := H2(key) % h2Prime;
    if delta == 0 then 1 else delta
  }

  /** Big-endian numbers of the same length are equal exactly if all bytes are, and the first byte weighs most. */
  lemma {:induction false} BigEndianExactly(a: seq<byte>, b: seq<byte>)
    requires |a| == |b|
    ensures BigEndian(a) == BigEndian(b) <==> a == b
  {
    if a != [] {
      var n := |a| - 1;
      BigEndianExactly(a[..n], b[..n]);
      assert a == a[..n] + [a[n]] && b == b[..n] + [b[n]];
    }
  }

  /** Keys hash alike exactly if they agree in the bytes that count: the first 4 or 8, and 8 to 16 for the step. */
  lemma KeysHashAlikeExactly(a: seq<byte>, b: seq<byte>)
    requires MIN_KEY_LENGTH <= |a| && MIN_KEY_LENGTH <= |b|
    ensures |a| < 8 && |b| < 8 ==> (HashValue(a) == HashValue(b) <==> a[..4] == b[..4])
    ensures |a| >= 8 && |b| >= 8 ==> (HashValue(a) == HashValue(b) <==> a[..8] == b[..8])
    ensures |a| >= 16 && |b| >= 16 ==> (H2(a) == H2(b) <==> a[8..16] == b[8..16])
    ensures |a| < 16 ==> H2(a) == 1
    ensures BigEndian([1, 0]) == 256
  {
    if |a| < 8 && |b| < 8 {
      BigEndianExactly(a[..4], b[..4]);
    } else if |a| >= 8 && |b| >= 8 {
      BigEndianExactly(a[..8], b[..8]);
    }
    if |a| >= 16 && |b| >= 16 {
      BigEndianExactly(a[8..16], b[8..16]);
    }
    var s: seq<byte> := [1, 0];
    assert s[..1][..0] == [] && s[..1] == [1];
  }

  // ---------- probe paths ----------

  /** at(key, i) is the slot examined by step i of the probe for `key` in a table of n slots. */
  datatype ProbePath = ProbePath(n: nat, h2Prime: nat, at: (seq<byte>, nat) -> nat)

  /** What findSlotInSlice walks. */
  type Path = p: ProbePath | IsPath(p) ghost witness OneSlotPath()

  ghost predicate IsPath(p: ProbePath) {
    p.n > 0 && 1 < p.h2Prime && Steps(p) && Covers(p)
  }

  /** Names a step of a probe, so that `Steps` is used only where a proof asks for it. */
  ghost predicate Step(key: seq<byte>, i: nat) {
    true
  }

  /** The walk starts at the hash and advances by the secondary hash. */
  ghost predicate Steps(p: ProbePath)
    requires p.n > 0 && 1 < p.h2Prime
  {
    forall key: seq<byte>, i: nat {:trigger Step(key, i)} :: Step(key, i) && MIN_KEY_LENGTH <= |key| ==>
      && p.at(key, 0) == HashValue(key) % p.n
      && p.at(key, i + 1) == (p.at(key, i) + Delta(key, p.h2Prime)) % p.n
  }

  /** The walk stays in the table, and its first n steps visit all slots. */
  ghost predicate Covers(p: ProbePath) {
    && (forall key: seq<byte>, i: nat :: p.at(key, i) < p.n)
    && forall key: seq<byte>, s: nat {:trigger Visits(p, key, s)} :: MIN_KEY_LENGTH <= |key| && s < p.n ==>
      Visits(p, key, s)
  }

  ghost predicate Visits(p: ProbePath, key: seq<byte>, s: nat) {
    exists i: nat :: i < p.n && p.at(key, i) == s
  }

  ghost function OneSlotPath(): (p: ProbePath)
    ensures IsPath(p)
  {
    var p := ProbePath(1, 2, (key: seq<byte>, i: nat) => 0);
    assert forall key: seq<byte>, s: nat | s < 1 :: Visits(p, key, s) by {
      forall key: seq<byte>, s: nat | s < 1
        ensures Visits(p, key, s)
      {
        assert p.at(key, 0) == s;
      }
    }
    p
  }

  ghost function DoubleHash(n: nat, h2Prime: nat): ProbePath
    requires n > 0 && 1 < h2Prime
  {
    ProbePath(n, h2Prime, (key: seq<byte>, i: nat) =>
      if |key| < MIN_KEY_LENGTH then 0 else ProbeSlot(HashValue(key) % n, Delta(key, h2Prime), n, i))
  }

  lemma DoubleHashSteps(n: nat, h2Prime: nat)
    requires n > 0 && 1 < h2Prime
    ensures Steps(DoubleHash(n, h2Prime))
  {
    var p := DoubleHash(n, h2Prime);
    forall key: seq<byte>, i: nat | Step(key, i) && MIN_KEY_LENGTH <= |key|
      ensures p.at(key, 0) == HashValue(key) % n
      ensures p.at(key, i + 1) == (p.at(key, i) + Delta(key, h2Prime)) % n
    {
      var start, delta := HashValue(key) % n, Delta(key, h2Prime);
      ProbeAdvances(start, delta, n, i);
      ModUnique(start, start, 0, n);
      assert 0 * delta == 0;
    }
  }

  lemma DoubleHashCovers(n: nat, h2Prime: nat)
    requires IsPrime(n) && 1 < h2Prime < n
    ensures Covers(DoubleHash(n, h2Prime))
  {
    var p := DoubleHash(n, h2Prime);
    forall key: seq<byte>, s: nat | MIN_KEY_LENGTH <= |key| && s < n
      ensures Visits(p, key, s)
    {
      var start, delta := HashValue(key) % n, Delta(key, h2Prime);
      ProbesCoverAllSlots(start, delta, n, s);
      var i :| 0 <= i < n && ProbeSlot(start, delta, n, i) == s;
      assert p.at(key, i) == s;
    }
  }

  /** Double hashing over a prime number of slots reaches every slot, for every key. */
  lemma DoubleHashing(n: nat, h2Prime: nat) returns (path: Path)
    requires IsPrime(n) && 1 < h2Prime < n
    ensures path.n == n && path.h2Prime == h2Prime
  {
    DoubleHashSteps(n, h2Prime);
    DoubleHashCovers(n, h2Prime);
    path := DoubleHash(n, h2Prime);
  }

  lemma FirstStep(path: Path, key: seq<byte>)
    requires MIN_KEY_LENGTH <= |key|
    ensures path.at(key, 0) == HashValue(key) % path.n
  {
    assert Step(key, 0);
  }

  lemma NextStep(path: Path, key: seq<byte>, i: nat, delta: nat, next: nat)
    requires MIN_KEY_LENGTH <= |key| && delta == Delta(key, path.h2Prime)
    requires next == (path.at(key, i) + delta) % path.n
    ensures next == path.at(key, i + 1)
  {
    assert Step(key, i);
  }

  // ---------- invariant ----------

  /** The first i probes for `key` meet slots taken by other keys. */
  ghost predicate Passes(t: Table, path: Path, key: seq<byte>, i: nat)
    requires |t| == path.n
  {
    forall j: nat :: j < i ==> t[path.at(key, j)].Holds? && t[path.at(key, j)].rec.key != key
  }

  lemma PassesOneMore(t: Table, path: Path, key: seq<byte>, i: nat)
    requires |t| == path.n && Passes(t, path, key, i)
    requires t[path.at(key, i)].Holds? && t[path.at(key, i)].rec.key != key
    ensures Passes(t, path, key, i + 1)
  {
  }

  /** The record in slot s is found by probing for its key: every earlier slot of its path is taken. */
  ghost predicate Reachable(t: Table, path: Path, s: nat)
    requires s < |t| && |t| == path.n
  {
    t[s].Holds? ==>
      && MIN_KEY_LENGTH <= |t[s].rec.key|
      && exists i: nat ::
        && i < |t|
        && path.at(t[s].rec.key, i) == s
        && Passes(t, path, t[s].rec.key, i)
  }

  ghost predicate KeysDistinct(t: Table) {
    forall s, u :: 0 <= s < u < |t| && t[s].Holds? && t[u].Holds? ==> t[s].rec.key != t[u].rec.key
  }

  ghost predicate TableOk(t: Table, path: Path) {
    |t| == path.n && AllReachable(t, path, |t|)
  }

  ghost predicate AllReachable(t: Table, path: Path, n: nat)
    requires n <= |t| && |t| == path.n
  {
    n > 0 ==> Reachable(t, path, n - 1) && AllReachable(t, path, n - 1)
  }

  lemma {:induction false} AllReachableAt(t: Table, path: Path, n: nat, s: nat)
    requires s < n <= |t| && |t| == path.n && AllReachable(t, path, n)
    ensures Reachable(t, path, s)
  {
    if s < n - 1 {
      AllReachableAt(t, path, n - 1, s);
    }
  }

  lemma {:induction false} AllReachableIntro(t: Table, path: Path, n: nat)
    requires n <= |t| && |t| == path.n
    requires forall s :: 0 <= s < n ==> Reachable(t, path, s)
    ensures AllReachable(t, path, n)
  {
    if n > 0 {
      AllReachableIntro(t, path, n - 1);
    }
  }

  /** The bindings a table holds. */
  ghost function TableMap(t: Table): Contents {
    if t == [] then map[] else
    var front, last := TableMap(t[..|t| - 1]), t[|t| - 1];
    if last.Free? then front else front[last.rec.key := last.rec.value]
  }

  /** The table holds exactly the bindings of m. */
  ghost predicate Binds(t: Table, m: Contents) {
    m == TableMap(t)
  }

  lemma {:induction false} SlotIsBound(t: Table, s: nat)
    requires KeysDistinct(t) && s < |t| && t[s].Holds?
    ensures t[s].rec.key in TableMap(t) && TableMap(t)[t[s].rec.key] == t[s].rec.value
  {
    if s < |t| - 1 {
      SlotIsBound(t[..|t| - 1], s);
    }
  }

  lemma {:induction false} BindingHasSlot(t: Table, k: seq<byte>) returns (s: nat)
    requires k in TableMap(t)
    ensures s < |t| && t[s] == Holds(Record(k, TableMap(t)[k]))
  {
    var last := t[|t| - 1];
    if last.Holds? && last.rec.key == k {
      s := |t| - 1;
    } else {
      s := BindingHasSlot(t[..|t| - 1], k);
    }
  }

  lemma {:induction false} InsertBinds(t: Table, s: nat, r: Record)
    requires s < |t| && t[s].Free? && r.key !in TableMap(t)
    ensures TableMap(t[s := Holds(r)]) == TableMap(t)[r.key := r.value]
  {
    var t', n := t[s := Holds(r)], |t| - 1;
    if s < n {
      assert t'[..n] == t[..n][s := Holds(r)];
      InsertBinds(t[..n], s, r);
    } else {
      assert t'[..n] == t[..n];
    }
  }

  lemma {:induction false} EmptyBinds(n: nat)
    ensures TableMap(EmptyTable(n)) == map[]
  {
    if n > 0 {
      assert EmptyTable(n)[..n - 1] == EmptyTable(n - 1);
      EmptyBinds(n - 1);
    }
  }

  function EmptyTable(n: nat): Table {
    seq(n, _ => Free)
  }

  lemma EmptyTableOk(n: nat, path: Path)
    requires path.n == n
    ensures TableOk(EmptyTable(n), path) && Binds(EmptyTable(n), map[])
  {
    EmptyBinds(n);
    AllReachableIntro(EmptyTable(n), path, n);
  }

  // ---------- lookup and insertion ----------

  lemma PositionOf(t: Table, path: Path, m: Contents, key: seq<byte>) returns (k: nat)
    requires TableOk(t, path) && Binds(t, m) && key in m
    ensures k < |t| && Passes(t, path, key, k) && t[path.at(key, k)] == Holds(Record(key, m[key]))
  {
    var s := BindingHasSlot(t, key);
    AllReachableAt(t, path, |t|, s);
    k :| k < |t| && path.at(key, k) == s && Passes(t, path, key, k);
  }

  /** No key is in two slots, since each is the first slot of its path that holds its key. */
  lemma KeysAreDistinct(t: Table, path: Path)
    requires TableOk(t, path)
    ensures KeysDistinct(t)
  {
    forall s, u | 0 <= s < u < |t| && t[s].Holds? && t[u].Holds?
      ensures t[s].rec.key != t[u].rec.key
    {
      AllReachableAt(t, path, |t|, s);
      AllReachableAt(t, path, |t|, u);
    }
  }

  /** A probe that stops at an empty slot proves the key absent. */
  lemma EmptySlotMeansAbsent(t: Table, path: Path, m: Contents, key: seq<byte>, i: nat)
    requires TableOk(t, path) && Binds(t, m) && MIN_KEY_LENGTH <= |key|
    requires Passes(t, path, key, i) && t[path.at(key, i)].Free?
    ensures key !in m
  {
    if key in m {
      var k := PositionOf(t, path, m, key);
      assert false;
    }
  }

  /** Filling the empty slot where a probe stops keeps the table in order and adds one binding. */
  lemma InsertKeepsOrder(t: Table, path: Path, m: Contents, r: Record, i: nat)
    requires TableOk(t, path) && Binds(t, m) && MIN_KEY_LENGTH <= |r.key| && i < |t|
    requires Passes(t, path, r.key, i) && t[path.at(r.key, i)].Free?
    ensures var t' := t[path.at(r.key, i) := Holds(r)];
            TableOk(t', path) && Binds(t', m[r.key := r.value])
  {
    EmptySlotMeansAbsent(t, path, m, r.key, i);
    var s := path.at(r.key, i);
    var t' := t[s := Holds(r)];
    forall u | 0 <= u < |t'|
      ensures Reachable(t', path, u)
    {
      AllReachableAt(t, path, |t|, u);
      InsertKeepsReachable(t, path, r, i, u);
    }
    AllReachableIntro(t', path, |t'|);
    InsertBinds(t, s, r);
  }

  lemma KeyIsNew(t: Table, m: Contents, key: seq<byte>)
    requires KeysDistinct(t) && Binds(t, m) && key !in m
    ensures forall s :: 0 <= s < |t| && t[s].Holds? ==> t[s].rec.key != key
  {
    forall s | 0 <= s < |t| && t[s].Holds?
      ensures t[s].rec.key != key
    {
      SlotIsBound(t, s);
    }
  }

  lemma InsertKeepsReachable(t: Table, path: Path, r: Record, i: nat, u: nat)
    requires |t| == path.n && MIN_KEY_LENGTH <= |r.key| && i < |t| && u < |t| && Reachable(t, path, u)
    requires Passes(t, path, r.key, i) && t[path.at(r.key, i)].Free?
    ensures Reachable(t[path.at(r.key, i) := Holds(r)], path, u)
  {
    var s := path.at(r.key, i);
    var t' := t[s := Holds(r)];
    if u == s {
      assert Passes(t', path, r.key, i);
    } else if t[u].Holds? {
      var k: nat :| k < |t| && path.at(t[u].rec.key, k) == u && Passes(t, path, t[u].rec.key, k);
      assert Passes(t', path, t'[u].rec.key, k);
    }
  }

  // ---------- termination of the probe ----------

  ghost predicate Full(t: Table) {
    forall s :: 0 <= s < |t| ==> t[s].Holds?
  }

  /**
    The slots in use are as many as the bindings; so a table is full exactly
    when it binds as many keys as it has slots.
   */
  lemma {:induction false} SlotsInUse(t: Table)
    requires KeysDistinct(t)
    ensures |TableMap(t)| <= |t|
    ensures Full(t) <==> |TableMap(t)| == |t|
  {
    if t != [] {
      var front, last := t[..|t| - 1], t[|t| - 1];
      SlotsInUse(front);
      if last.Holds? {
        if last.rec.key in TableMap(front) {
          var s := BindingHasSlot(front, last.rec.key);
        }
        assert TableMap(t).Keys == TableMap(front).Keys + {last.rec.key};
      }
      if Full(front) && last.Holds? {
        assert forall s :: 0 <= s < |t| - 1 ==> t[s] == front[s];
      }
    }
  }

  /** Probing |t| slots without stopping means the table is full. */
  lemma ExhaustedProbeMeansFull(t: Table, path: Path, key: seq<byte>)
    requires |t| == path.n && MIN_KEY_LENGTH <= |key|
    requires Passes(t, path, key, |t|)
    ensures Full(t)
  {
    forall s | 0 <= s < |t|
      ensures t[s].Holds?
    {
      assert Visits(path, key, s);
    }
  }

  /** A probe that has not stopped yet has slots left to visit, as long as one is free. */
  lemma ProbeHasSlotsLeft(t: Table, path: Path, m: Contents, key: seq<byte>, i: nat)
    requires TableOk(t, path) && Binds(t, m) && |m| < |t| && MIN_KEY_LENGTH <= |key|
    requires i <= |t| && Passes(t, path, key, i)
    ensures i < |t|
  {
    if i == |t| {
      ExhaustedProbeMeansFull(t, path, key);
      KeysAreDistinct(t, path);
      SlotsInUse(t);
    }
  }

  /** The probe for `key` reaches a slot that is empty or holds `key`. */
  ghost predicate ProbeStops(t: Table, path: Path, key: seq<byte>)
    requires |t| == path.n
  {
    exists i: nat :: !Passes(t, path, key, i)
  }

  /** The probe ends exactly when the key is present or a slot is free. */
  lemma ProbeStopsExactly(t: Table, path: Path, m: Contents, key: seq<byte>)
    requires TableOk(t, path) && Binds(t, m) && MIN_KEY_LENGTH <= |key|
    ensures ProbeStops(t, path, key) <==> key in m || !Full(t)
    ensures ProbeStops(t, path, key) <==> key in m || |m| < |t|
  {
    if !Full(t) {
      if Passes(t, path, key, |t|) {
        ExhaustedProbeMeansFull(t, path, key);
      }
    }
    KeysAreDistinct(t, path);
    SlotsInUse(t);
    if key !in m {
      KeyIsNew(t, m, key);
    } else {
      var k := PositionOf(t, path, m, key);
      assert !Passes(t, path, key, k + 1);
    }
  }
}
