/** Copying and moving the snapshot history of one source to another. */
module History {
  import opened Basics
  import opened Source

  type ID = nat

  datatype Manifest = Manifest(source: SourceInfo, startTime: int, rootID: string, tags: Labels)

  /** A stored manifest: a snapshot with its labels, or a manifest of another type. */
  datatype Stored = Snapshot(labels: Labels, manifest: Manifest) | Other(labels: Labels)

  type Store = map<ID, Stored>

  // ---------- labels ----------

  const TYPE_KEY := "type"
  const HOSTNAME_LABEL := "hostname"
  const USERNAME_LABEL := "username"
  const PATH_LABEL := "path"

  function SourceInfoToLabels(si: SourceInfo): Labels {
    var m := map[TYPE_KEY := "snapshot", HOSTNAME_LABEL := si.host];
    var m := if si.userName != "" then m[USERNAME_LABEL := si.userName] else m;
    if si.path != "" then m[PATH_LABEL := si.path] else m
  }

  function SourceInfoFromLabels(labels: Labels): SourceInfo {
    SourceInfo(
      LabelOrEmpty(labels, HOSTNAME_LABEL),
      LabelOrEmpty(labels, USERNAME_LABEL),
      LabelOrEmpty(labels, PATH_LABEL))
  }

  /** Labels keep the whole source. */
  lemma LabelsRoundTrip(si: SourceInfo)
    ensures SourceInfoFromLabels(SourceInfoToLabels(si)) == si
  {
    var m := SourceInfoToLabels(si);
    assert HOSTNAME_LABEL != USERNAME_LABEL && HOSTNAME_LABEL != PATH_LABEL && USERNAME_LABEL != PATH_LABEL;
    assert (USERNAME_LABEL in m <==> si.userName != "") && (PATH_LABEL in m <==> si.path != "");
  }

  /** FindManifests returns what has all labels of the query. */
  predicate HasLabels(labels: Labels, query: Labels) {
    forall k :: k in query ==> k in labels && labels[k] == query[k]
  }

  /** A source with nothing left open. */
  predicate Complete(si: SourceInfo) {
    si.host != "" && si.userName != "" && si.path != ""
  }

  /** The source fits the pattern: same host, and same user and path where the pattern has one. */
  predicate Matches(pattern: SourceInfo, si: SourceInfo) {
    && si.host == pattern.host
    && (pattern.userName != "" ==> si.userName == pattern.userName)
    && (pattern.path != "" ==> si.path == pattern.path)
  }

  /** What SaveSnapshot puts: the labels of the source, then the tags. */
  predicate Saved(s: Stored) {
    s.Snapshot? ==>
      && Complete(s.manifest.source)
      && SourceInfoToLabels(s.manifest.source).Keys !! s.manifest.tags.Keys
      && s.labels == SourceInfoToLabels(s.manifest.source) + s.manifest.tags
  }

  ghost predicate StoreOk(store: Store) {
    forall id :: id in store ==>
      Saved(store[id]) && (store[id].Other? ==> LabelOrEmpty(store[id].labels, TYPE_KEY) != "snapshot")
  }

  /** A query by labels finds exactly the snapshots whose source matches the pattern. */
  lemma QueryFindsMatches(s: Stored, pattern: SourceInfo)
    requires s.Snapshot? && Saved(s)
    ensures HasLabels(s.labels, SourceInfoToLabels(pattern)) <==> Matches(pattern, s.manifest.source)
  {
    var query, own := SourceInfoToLabels(pattern), SourceInfoToLabels(s.manifest.source);
    var si := s.manifest.source;
    assert own == map[TYPE_KEY := "snapshot", HOSTNAME_LABEL := si.host,
                      USERNAME_LABEL := si.userName, PATH_LABEL := si.path];
    assert forall k :: k in own ==> k in s.labels && s.labels[k] == own[k];
    assert HOSTNAME_LABEL in query && query[HOSTNAME_LABEL] == pattern.host;
    if HasLabels(s.labels, query) {
      assert s.labels[HOSTNAME_LABEL] == pattern.host;
      if pattern.userName != "" {
        assert USERNAME_LABEL in query && query[USERNAME_LABEL] == pattern.userName;
      }
      if pattern.path != "" {
        assert PATH_LABEL in query && query[PATH_LABEL] == pattern.path;
      }
    }
  }

  // ---------- source and destination ----------

  /** getCopyDestination: the source with the non-empty fields of the overrides. */
  function Destination(source: SourceInfo, overrides: SourceInfo): SourceInfo {
    SourceInfo(
      if overrides.host != "" then overrides.host else source.host,
      if overrides.userName != "" then overrides.userName else source.userName,
      if overrides.path != "" then overrides.path else source.path)
  }

  /** getCopySourceAndDestination refuses a destination that is more specific than the source. */
  predicate Accepted(si: SourceInfo, di: SourceInfo) {
    !(di.path != "" && si.path == "") && !(di.userName != "" && si.userName == "")
  }

  /** No two matching sources have the same destination. */
  ghost predicate KeepsApart(si: SourceInfo, di: SourceInfo) {
    forall a, b :: Complete(a) && Complete(b) && Matches(si, a) && Matches(si, b) ==>
      Destination(a, di) == Destination(b, di) ==> a == b
  }

  /** The guards refuse exactly the pairs that would collapse histories (if any snapshot can match at all). */
  lemma AcceptedExactlyWhenApart(si: SourceInfo, di: SourceInfo)
    requires si.host != ""
    ensures Accepted(si, di) <==> KeepsApart(si, di)
  {
    var user := if si.userName != "" then si.userName else "u";
    var path := if si.path != "" then si.path else "/p";
    var a := SourceInfo(si.host, user, path);
    if di.path != "" && si.path == "" {
      var b := SourceInfo(si.host, user, "/q");
      assert Destination(a, di) == Destination(b, di) && a != b;
    } else if di.userName != "" && si.userName == "" {
      var b := SourceInfo(si.host, "v", path);
      assert Destination(a, di) == Destination(b, di) && a != b;
    }
  }

  lemma DestinationIsFixed(source: SourceInfo, di: SourceInfo)
    ensures Destination(Destination(source, di), di) == Destination(source, di)
    ensures Complete(source) ==> Complete(Destination(source, di))
    ensures di.host != "" ==> Matches(di, Destination(source, di))
  {
  }

  // ---------- what a run does ----------

  /** sameSnapshot: same start time and root. */
  predicate SameSnapshot(a: Manifest, b: Manifest) {
    a.startTime == b.startTime && a.rootID == b.rootID
  }

  /** The snapshots ListSnapshots returns. */
  ghost function Listed(store: Store, pattern: SourceInfo): set<ID> {
    set id | id in store && store[id].Snapshot? && HasLabels(store[id].labels, SourceInfoToLabels(pattern))
  }

  /** The snapshot is at its destination already. */
  predicate InPlace(m: Manifest, di: SourceInfo) {
    Destination(m.source, di) == m.source
  }

  /** A snapshot listed for the destination shows that a copy of m exists there. */
  ghost predicate Evidence(store: Store, di: SourceInfo, m: Manifest, id: ID) {
    && id in Listed(store, di)
    && store[id].manifest.source == Destination(m.source, di) && SameSnapshot(m, store[id].manifest)
  }

  ghost predicate HasEvidence(store: Store, di: SourceInfo, m: Manifest) {
    exists id :: Evidence(store, di, m, id)
  }

  /** A manifest with the labels of its source and its tags. */
  function Labelled(m: Manifest): Stored {
    Snapshot(SourceInfoToLabels(m.source) + m.tags, m)
  }

  /** What the run saves for m. */
  function CopyOf(m: Manifest, di: SourceInfo): Stored {
    Labelled(m.(source := Destination(m.source, di)))
  }

  /** The listed snapshots that are not in place: a move deletes them. */
  ghost predicate ToMove(store: Store, si: SourceInfo, di: SourceInfo, id: ID) {
    id in Listed(store, si) && !InPlace(store[id].manifest, di)
  }

  /** ... and those without a copy yet: a run saves one. */
  ghost predicate ToCopy(store: Store, si: SourceInfo, di: SourceInfo, id: ID) {
    ToMove(store, si, di, id) && !HasEvidence(store, di, store[id].manifest)
  }

  /**
    st is a state of a run that started from s0: `removed` were deleted and
    `copies` maps each new manifest to the one it is a copy of.
   */
  ghost predicate Shape(s0: Store, si: SourceInfo, di: SourceInfo, st: Store, removed: set<ID>, copies: map<ID, ID>) {
    && copies.Keys !! s0.Keys
    && (forall id :: id in removed ==>
          ToMove(s0, si, di, id) && (HasEvidence(s0, di, s0[id].manifest) || id in copies.Values))
    && (forall n :: n in copies ==> ToCopy(s0, si, di, copies[n]))
    && (forall n, n' :: n in copies && n' in copies && n != n' ==> copies[n] != copies[n'])
    && st.Keys == (s0.Keys - removed) + copies.Keys
    && (forall id :: id in s0 && id !in removed ==> st[id] == s0[id])
    && (forall n :: n in copies ==> st[n] == CopyOf(s0[copies[n]].manifest, di))
  }

  /** A stored snapshot of the source, taken at the time, with the root. */
  ghost predicate IsSnapshot(s: Stored, source: SourceInfo, startTime: int, rootID: string) {
    s.Snapshot? && s.manifest.source == source && s.manifest.startTime == startTime && s.manifest.rootID == rootID
  }

  /** Snapshot m0 is still there, with its start time and root, at its source or at its destination. */
  ghost predicate StillThere(st: Store, di: SourceInfo, m0: Manifest) {
    exists id :: id in st &&
      (|| IsSnapshot(st[id], m0.source, m0.startTime, m0.rootID)
       || IsSnapshot(st[id], Destination(m0.source, di), m0.startTime, m0.rootID))
  }

  /** Snapshots that serve as evidence are in place, so a run never deletes them. */
  lemma EvidenceIsInPlace(s0: Store, di: SourceInfo, m: Manifest, id: ID)
    requires Evidence(s0, di, m, id)
    ensures InPlace(s0[id].manifest, di)
  {
    DestinationIsFixed(m.source, di);
  }

  lemma EvidenceSurvives(s0: Store, si: SourceInfo, di: SourceInfo, st: Store, removed: set<ID>, copies: map<ID, ID>,
                         m: Manifest, id: ID)
    requires Shape(s0, si, di, st, removed, copies) && Evidence(s0, di, m, id)
    ensures id in st && st[id] == s0[id]
  {
    EvidenceIsInPlace(s0, di, m, id);
  }

  /** No state of a run has lost a snapshot. */
  lemma NothingIsLost(s0: Store, si: SourceInfo, di: SourceInfo, st: Store, removed: set<ID>, copies: map<ID, ID>,
                      id0: ID)
    requires Shape(s0, si, di, st, removed, copies) && id0 in s0 && s0[id0].Snapshot?
    ensures exists n ::
              && n in st && st[n].Snapshot?
              && st[n].manifest.startTime == s0[id0].manifest.startTime
              && st[n].manifest.rootID == s0[id0].manifest.rootID
              && (|| st[n].manifest.source == s0[id0].manifest.source
                  || st[n].manifest.source == Destination(s0[id0].manifest.source, di))
  {
    var m0 := s0[id0].manifest;
    if id0 !in removed {
      assert st[id0] == s0[id0];
    } else if HasEvidence(s0, di, m0) {
      var e :| Evidence(s0, di, m0, e);
      EvidenceSurvives(s0, si, di, st, removed, copies, m0, e);
    } else {
      var n :| n in copies && copies[n] == id0;
      assert st[n] == CopyOf(m0, di);
    }
  }

  /** Saved copies are as SaveSnapshot makes them. */
  lemma CopyIsSaved(s: Stored, di: SourceInfo)
    requires s.Snapshot? && Saved(s)
    ensures Saved(CopyOf(s.manifest, di))
  {
    DestinationIsFixed(s.manifest.source, di);
    assert SourceInfoToLabels(Destination(s.manifest.source, di)).Keys == SourceInfoToLabels(s.manifest.source).Keys;
  }

  lemma ShapeKeepsStoreOk(s0: Store, si: SourceInfo, di: SourceInfo, st: Store, removed: set<ID>, copies: map<ID, ID>)
    requires StoreOk(s0) && Shape(s0, si, di, st, removed, copies)
    ensures StoreOk(st)
  {
    forall id | id in st
      ensures Saved(st[id]) && (st[id].Other? ==> LabelOrEmpty(st[id].labels, TYPE_KEY) != "snapshot")
    {
      if id in copies {
        CopyIsSaved(s0[copies[id]], di);
      }
    }
  }

  lemma CopyKeepsShape(s0: Store, si: SourceInfo, di: SourceInfo, st: Store, removed: set<ID>, copies: map<ID, ID>,
                       id: ID, n: ID, st': Store, copies': map<ID, ID>)
    requires Shape(s0, si, di, st, removed, copies)
    requires ToCopy(s0, si, di, id) && id !in copies.Values && n !in st && n !in s0
    requires st' == st[n := CopyOf(s0[id].manifest, di)] && copies' == copies[n := id]
    ensures Shape(s0, si, di, st', removed, copies') && copies'.Values == copies.Values + {id}
  {
    assert n !in copies;
    assert forall k :: k in copies ==> copies'[k] == copies[k] && copies[k] in copies.Values;
    assert copies'[n] == id;
    forall k | k in copies.Values
      ensures k in copies'.Values
    {
      var x :| x in copies && copies[x] == k;
      assert copies'[x] == k;
    }
  }

  lemma RemoveKeepsShape(s0: Store, si: SourceInfo, di: SourceInfo, st: Store, removed: set<ID>, copies: map<ID, ID>,
                         id: ID, st': Store)
    requires Shape(s0, si, di, st, removed, copies)
    requires ToMove(s0, si, di, id) && (HasEvidence(s0, di, s0[id].manifest) || id in copies.Values)
    requires st' == st - {id}
    ensures Shape(s0, si, di, st', removed + {id}, copies)
  {
    assert id in s0 && id !in copies;
  }

  /** st is what a run from s0 can have reached. */
  ghost predicate Safe(s0: Store, si: SourceInfo, di: SourceInfo, st: Store) {
    exists removed, copies :: Shape(s0, si, di, st, removed, copies)
  }

  /** The stores from s0 to st that a run went through. */
  ghost predicate Traced(s0: Store, si: SourceInfo, di: SourceInfo, st: Store, trace: seq<Store>) {
    && trace != [] && trace[0] == s0 && trace[|trace| - 1] == st
    && forall i :: 0 <= i < |trace| ==> Safe(s0, si, di, trace[i])
  }

  /** The books of a run: what it removed and copied, and the stores it went through. */
  datatype Progress = Progress(removed: set<ID>, copies: map<ID, ID>, trace: seq<Store>)

  /** A run dealt with `done` of the listed snapshots: it removed and copied what its mode asks for. */
  ghost predicate Dealt(s0: Store, si: SourceInfo, di: SourceInfo, isMove: bool, dryRun: bool, removed: set<ID>,
                        copied: set<ID>, done: set<ID>) {
    && removed <= done && copied <= done
    && (isMove && !dryRun ==> forall id :: id in done && ToMove(s0, si, di, id) ==> id in removed)
    && (!isMove || dryRun ==> removed == {})
    && (!dryRun ==> forall id :: id in done && ToCopy(s0, si, di, id) ==> id in copied)
    && (dryRun ==> copied == {})
  }

  ghost predicate ProgressOk(s0: Store, si: SourceInfo, di: SourceInfo, isMove: bool, dryRun: bool, st: Store,
                             p: Progress, done: set<ID>) {
    && Shape(s0, si, di, st, p.removed, p.copies)
    && Dealt(s0, si, di, isMove, dryRun, p.removed, p.copies.Values, done)
    && Traced(s0, si, di, st, p.trace)
  }

  lemma TraceGrows(s0: Store, si: SourceInfo, di: SourceInfo, st: Store, trace: seq<Store>, removed: set<ID>,
                   copies: map<ID, ID>, st': Store)
    requires Traced(s0, si, di, st, trace) && Shape(s0, si, di, st', removed, copies)
    ensures Traced(s0, si, di, st', trace + [st'])
  {
    assert Safe(s0, si, di, st');
  }

  lemma ProgressStart(s0: Store, si: SourceInfo, di: SourceInfo, isMove: bool, dryRun: bool)
    ensures ProgressOk(s0, si, di, isMove, dryRun, s0, Progress({}, map[], [s0]), {})
  {
    assert Shape(s0, si, di, s0, {}, map[]);
  }

  lemma DealtMove(s0: Store, si: SourceInfo, di: SourceInfo, removed: set<ID>, copied: set<ID>, done: set<ID>, id: ID)
    requires Dealt(s0, si, di, true, false, removed, copied - {id}, done)
    requires id in copied || (id in s0 && s0[id].Snapshot? && HasEvidence(s0, di, s0[id].manifest))
    ensures Dealt(s0, si, di, true, false, removed + {id}, copied, done + {id})
  {
  }

  /** A listed snapshot that is in place, or needs nothing in this mode, is passed over. */
  lemma ProgressSkip(s0: Store, si: SourceInfo, di: SourceInfo, isMove: bool, dryRun: bool, st: Store, p: Progress,
                     done: set<ID>, id: ID)
    requires ProgressOk(s0, si, di, isMove, dryRun, st, p, done)
    requires !ToMove(s0, si, di, id) || dryRun || (!isMove && !ToCopy(s0, si, di, id))
    ensures ProgressOk(s0, si, di, isMove, dryRun, st, p, done + {id})
  {
  }

  lemma ProgressDelete(s0: Store, si: SourceInfo, di: SourceInfo, st: Store, p: Progress, done: set<ID>, id: ID,
                       st': Store)
    requires Shape(s0, si, di, st, p.removed, p.copies) && Traced(s0, si, di, st, p.trace)
    requires Dealt(s0, si, di, true, false, p.removed, p.copies.Values - {id}, done)
    requires ToMove(s0, si, di, id) && (HasEvidence(s0, di, s0[id].manifest) || id in p.copies.Values)
    requires st' == st - {id}
    ensures ProgressOk(s0, si, di, true, false, st', Progress(p.removed + {id}, p.copies, p.trace + [st']), done + {id})
  {
    RemoveKeepsShape(s0, si, di, st, p.removed, p.copies, id, st');
    TraceGrows(s0, si, di, st, p.trace, p.removed + {id}, p.copies, st');
    DealtMove(s0, si, di, p.removed, p.copies.Values, done, id);
  }

  /** After the copy of a snapshot is saved and, for a move, before the original is deleted. */
  lemma ProgressCopy(s0: Store, si: SourceInfo, di: SourceInfo, isMove: bool, st: Store, p: Progress, done: set<ID>,
                     id: ID, n: ID, st': Store)
    requires ProgressOk(s0, si, di, isMove, false, st, p, done) && id !in done
    requires ToCopy(s0, si, di, id) && n !in st && n !in s0 && st' == st[n := CopyOf(s0[id].manifest, di)]
    ensures var p' := Progress(p.removed, p.copies[n := id], p.trace + [st']);
            && Shape(s0, si, di, st', p'.removed, p'.copies) && Traced(s0, si, di, st', p'.trace)
            && p'.copies.Values - {id} == p.copies.Values && id in p'.copies.Values
            && (!isMove ==> ProgressOk(s0, si, di, isMove, false, st', p', done + {id}))
  {
    var copies' := p.copies[n := id];
    CopyKeepsShape(s0, si, di, st, p.removed, p.copies, id, n, st', copies');
    TraceGrows(s0, si, di, st, p.trace, p.removed, copies', st');
    assert copies'.Values - {id} == p.copies.Values;
    assert !isMove ==> Dealt(s0, si, di, isMove, false, p.removed, copies'.Values, done + {id});
  }

  // ---------- the repository ----------

  /** One manifest was put under a new ID, or one was deleted. */
  ghost predicate OneChange(a: Store, b: Store) {
    exists id :: ChangedAt(a, b, id)
  }

  ghost predicate ChangedAt(a: Store, b: Store, id: ID) {
    b == a - {id} || (id !in a && id in b && b == a[id := b[id]])
  }

  /** The stores gone through, with nothing left out. */
  ghost predicate IsHistory(history: seq<Store>) {
    history != [] && forall i :: 0 < i < |history| ==> OneChange(history[i - 1], history[i])
  }

  lemma HistoryGrows(history: seq<Store>, st: Store)
    requires IsHistory(history) && OneChange(history[|history| - 1], st)
    ensures IsHistory(history + [st])
  {
  }

  datatype SaveResult = SavedAs(id: ID) | NotSaved(message: string)

  /** The manifest store; `works` says whether a storage operation succeeds. */
  class Repository {
    var manifests: Store
    var nextID: ID
    ghost var history: seq<Store> // every store so far

    ghost predicate Valid()
      reads this
    {
      (forall id :: id in manifests ==> id < nextID) && IsHistory(history) && history[|history| - 1] == manifests
    }

    constructor ()
      ensures Valid() && manifests == map[] && StoreOk(manifests)
    {
      manifests, nextID, history := map[], 0, [map[]];
    }

    /** A new manifest gets an ID no manifest has had before. */
    method PutManifest(s: Stored, works: bool) returns (r: SaveResult)
      requires Valid()
      modifies this
      ensures Valid() && old(nextID) <= nextID
      ensures works ==> r == SavedAs(old(nextID)) && manifests == old(manifests)[old(nextID) := s]
      ensures works ==> history == old(history) + [manifests]
      ensures !works ==> r.NotSaved? && manifests == old(manifests) && history == old(history)
    {
      if !works {
        return NotSaved("error putting manifest");
      }
      ghost var st: Store := manifests[nextID := s];
      assert ChangedAt(manifests, st, nextID);
      HistoryGrows(history, st);
      manifests, nextID, r, history := manifests[nextID := s], nextID + 1, SavedAs(nextID), history + [st];
    }

    method DeleteManifest(id: ID, works: bool) returns (ok: bool)
      requires Valid()
      modifies this`manifests, this`history
      ensures Valid() && ok == works
      ensures works ==> manifests == old(manifests) - {id} && history == old(history) + [manifests]
      ensures !works ==> manifests == old(manifests) && history == old(history)
    {
      ok := works;
      if works {
        assert ChangedAt(manifests, manifests - {id}, id);
        HistoryGrows(history, manifests - {id});
        manifests := manifests - {id};
        history := history + [manifests];
      }
    }

    /** Each snapshot that has the labels of the pattern, once. */
    method ListSnapshots(pattern: SourceInfo) returns (ids: seq<ID>)
      ensures forall i, j :: 0 <= i < j < |ids| ==> ids[i] != ids[j]
      ensures forall id :: id in ids <==> id in Listed(manifests, pattern)
    {
      ids := [];
      var rest, query := manifests.Keys, SourceInfoToLabels(pattern);
      while rest != {}
        invariant rest <= manifests.Keys
        invariant forall i, j :: 0 <= i < j < |ids| ==> ids[i] != ids[j]
        invariant forall id :: id in ids <==> id in Listed(manifests, pattern) && id !in rest
        decreases rest
      {
        var id :| id in rest;
        rest := rest - {id};
        if manifests[id].Snapshot? && HasLabels(manifests[id].labels, query) {
          ids := ids + [id];
        }
      }
    }

    /**
      Refuses an incomplete source and a tag that is also a label of the source;
      otherwise saves a well-formed manifest.
     */
    method SaveSnapshot(m: Manifest, works: bool) returns (r: SaveResult)
      requires Valid()
      modifies this
      ensures Valid() && old(nextID) <= nextID
      ensures r.SavedAs? <==> Complete(m.source) && SourceInfoToLabels(m.source).Keys !! m.tags.Keys && works
      ensures r.SavedAs? ==> r.id == old(nextID) && manifests == old(manifests)[r.id := Labelled(m)]
      ensures r.SavedAs? ==> Saved(manifests[r.id]) && history == old(history) + [manifests]
      ensures r.NotSaved? ==> manifests == old(manifests) && history == old(history)
    {
      if m.source.host == "" {
        return NotSaved("missing host");
      }
      if m.source.userName == "" {
        return NotSaved("missing username");
      }
      if m.source.path == "" {
        return NotSaved("missing path");
      }
      var own := SourceInfoToLabels(m.source);
      var labels, rest := own, m.tags.Keys;
      while rest != {}
        invariant rest <= m.tags.Keys && own.Keys !! (m.tags.Keys - rest)
        invariant labels.Keys == own.Keys + (m.tags.Keys - rest)
        invariant forall k :: k in labels ==> labels[k] == if k in own then own[k] else m.tags[k]
        decreases rest
      {
        var key :| key in rest;
        if key in labels {
          return NotSaved("duplicate tag");
        }
        rest, labels := rest - {key}, labels[key := m.tags[key]];
      }
      assert labels == own + m.tags;
      r := PutManifest(Snapshot(labels, m), works);
    }

    /** Saves under a new ID, then deletes the old one: at no point are both gone, and a failure loses nothing. */
    method UpdateSnapshot(oldID: ID, m: Manifest, saves: bool, deletes: bool) returns (ok: bool)
      requires Valid() && StoreOk(manifests) && oldID in manifests
      modifies this
      ensures Valid() && StoreOk(manifests)
      ensures ok <==> Complete(m.source) && SourceInfoToLabels(m.source).Keys !! m.tags.Keys && saves && deletes
      ensures ok ==> manifests == (old(manifests) - {oldID})[old(nextID) := Labelled(m)]
      ensures !ok ==> forall id :: id in old(manifests) ==> id in manifests && manifests[id] == old(manifests)[id]
    {
      var r := SaveSnapshot(m, saves);
      if r.NotSaved? {
        return false;
      }
      ok := true;
      if oldID != r.id {
        ok := DeleteManifest(oldID, deletes);
      }
    }
  }

  predicate Shows(s: Stored, source: SourceInfo, m: Manifest) {
    s.Snapshot? && s.manifest.source == source && SameSnapshot(m, s.manifest)
  }

  ghost predicate Shown(store: Store, ids: seq<ID>, source: SourceInfo, m: Manifest) {
    exists i :: 0 <= i < |ids| && ids[i] in store && Shows(store[ids[i]], source, m)
  }

  /** The destination source has a listed snapshot with the start time and root of m. */
  method SnapshotExists(store: Store, ids: seq<ID>, source: SourceInfo, m: Manifest) returns (found: bool)
    requires forall i :: 0 <= i < |ids| ==> ids[i] in store && store[ids[i]].Snapshot?
    ensures found <==>
              exists i ::
                && 0 <= i < |ids| && store[ids[i]].manifest.source == source
                && store[ids[i]].manifest.startTime == m.startTime && store[ids[i]].manifest.rootID == m.rootID
    ensures found <==> Shown(store, ids, source, m)
  {
    for i := 0 to |ids|
      invariant forall j :: 0 <= j < i ==> !Shows(store[ids[j]], source, m)
    {
      if Shows(store[ids[i]], source, m) {
        return true;
      }
    }
    return false;
  }

  // ---------- the command ----------

  datatype Pair = Pair(si: SourceInfo, di: SourceInfo) | Refused(message: string)

  /** getCopySourceAndDestination: without a destination, the current user and host. */
  function CopySourceAndDestination(source: string, destination: string, hostname: string, username: string,
                                    abs: string -> ParseResult): (r: Pair)
    ensures r.Pair? ==> Accepted(r.si, r.di) && ParseSourceInfo(source, hostname, username, abs) == Parsed(r.si)
    ensures r.Pair? && destination != "" ==> ParseSourceInfo(destination, hostname, username, abs) == Parsed(r.di)
    ensures r.Pair? && destination == "" ==> r.di.host == hostname && r.di.userName == username && r.di.path == ""
  {
    match ParseSourceInfo(source, hostname, username, abs)
    case Invalid(_) => Refused("invalid source")
    case Parsed(si) =>
      var parsed :=
        if destination == "" then Parsed(SourceInfo(hostname, username, ""))
        else ParseSourceInfo(destination, hostname, username, abs);
      match parsed
      case Invalid(_) => Refused("invalid destination")
      case Parsed(di) =>
        if di.path != "" && si.path == "" then Refused("path specified on destination but not source")
        else if di.userName != "" && si.userName == "" then Refused("username specified on destination but not source")
        else Pair(si, di)
  }

  /** The pairs that can be read and keep histories apart are accepted, and no others. */
  lemma PairsAcceptedExactly(source: string, destination: string, hostname: string, username: string,
                             abs: string -> ParseResult)
    ensures var from := ParseSourceInfo(source, hostname, username, abs);
            var to := if destination == "" then Parsed(SourceInfo(hostname, username, ""))
                      else ParseSourceInfo(destination, hostname, username, abs);
            CopySourceAndDestination(source, destination, hostname, username, abs).Pair? <==>
              from.Parsed? && to.Parsed? && Accepted(from.si, to.si)
  {
  }

  /** A run from s0 that ended without an error in s1. */
  ghost predicate Completed(s0: Store, si: SourceInfo, di: SourceInfo, isMove: bool, dryRun: bool, s1: Store) {
    exists p :: ProgressOk(s0, si, di, isMove, dryRun, s1, p, Listed(s0, si))
  }

  /** The listed targets show a copy exactly if there is evidence. */
  lemma TargetsAreEvidence(store: Store, di: SourceInfo, targets: seq<ID>, m: Manifest)
    requires forall id :: id in targets <==> id in Listed(store, di)
    ensures HasEvidence(store, di, m) <==> Shown(store, targets, Destination(m.source, di), m)
  {
    if HasEvidence(store, di, m) {
      var id :| Evidence(store, di, m, id);
      var i :| 0 <= i < |targets| && targets[i] == id;
    }
    if i :| 0 <= i < |targets| && targets[i] in store && Shows(store[targets[i]], Destination(m.source, di), m) {
      assert targets[i] in targets;
      assert Evidence(store, di, m, targets[i]);
    }
  }

  method FindEvidence(store: Store, di: SourceInfo, targets: seq<ID>, m: Manifest) returns (found: bool)
    requires forall id :: id in targets <==> id in Listed(store, di)
    ensures found <==> HasEvidence(store, di, m)
  {
    assert forall i :: 0 <= i < |targets| ==> targets[i] in targets && targets[i] in Listed(store, di);
    found := SnapshotExists(store, targets, Destination(m.source, di), m);
    TargetsAreEvidence(store, di, targets, m);
  }

  /** The trace records all that was added to the history since h0. */
  ghost predicate Extends(h0: seq<Store>, trace: seq<Store>, history: seq<Store>) {
    trace != [] && history == h0 + trace[1..]
  }

  lemma ExtendsMore(h0: seq<Store>, trace: seq<Store>, history: seq<Store>, st: Store)
    requires Extends(h0, trace, history)
    ensures Extends(h0, trace + [st], history + [st])
  {
    assert (trace + [st])[1..] == trace[1..] + [st];
  }

  lemma TraceIsHistory(h0: seq<Store>, trace: seq<Store>, history: seq<Store>)
    requires Extends(h0, trace, history) && IsHistory(history) && h0 != [] && h0[|h0| - 1] == trace[0]
    ensures IsHistory(trace)
  {
    forall i | 0 < i < |trace|
      ensures OneChange(trace[i - 1], trace[i])
    {
      var k := |h0| - 1 + i;
      assert history[k - 1] == trace[i - 1] && history[k] == trace[i];
    }
  }

  /** Two stores in a row differ by one manifest: one that was deleted, or a new one that was put. */
  lemma OneManifestChanges(trace: seq<Store>, i: nat) returns (id: ID)
    requires IsHistory(trace) && 0 < i < |trace|
    ensures forall k :: k != id ==> (k in trace[i] <==> k in trace[i - 1])
    ensures forall k :: k != id && k in trace[i] ==> trace[i][k] == trace[i - 1][k]
    ensures id in trace[i] ==> id !in trace[i - 1]
  {
    assert OneChange(trace[i - 1], trace[i]);
    id :| ChangedAt(trace[i - 1], trace[i], id);
  }

  /**
    One step of the run, for a listed snapshot that is not in place. `saves` and
    `deletes` say whether the storage works.
   */
  method CopyOrMoveOne(rep: Repository, ghost s0: Store, si: SourceInfo, di: SourceInfo, isMove: bool, dryRun: bool,
                       id: ID, m: Manifest, found: bool, saves: bool, deletes: bool, ghost p: Progress,
                       ghost done: set<ID>, ghost h0: seq<Store>)
      returns (ok: bool, ghost p': Progress)
    requires rep.Valid() && StoreOk(s0) && ProgressOk(s0, si, di, isMove, dryRun, rep.manifests, p, done)
    requires ToMove(s0, si, di, id) && m == s0[id].manifest && (found <==> HasEvidence(s0, di, m))
    requires id !in done && forall k :: k in s0 ==> k < rep.nextID
    requires Extends(h0, p.trace, rep.history)
    modifies rep
    ensures rep.Valid() && old(rep.nextID) <= rep.nextID
    ensures Traced(s0, si, di, rep.manifests, p'.trace) && Extends(h0, p'.trace, rep.history)
    ensures ok ==> ProgressOk(s0, si, di, isMove, dryRun, rep.manifests, p', done + {id})
    ensures saves && deletes ==> ok
  {
    ok, p' := true, p;
    if found {
      if isMove && !dryRun {
        ok := rep.DeleteManifest(id, deletes);
        if ok {
          ProgressDelete(s0, si, di, old(rep.manifests), p, done, id, rep.manifests);
          ExtendsMore(h0, p.trace, old(rep.history), rep.manifests);
          p' := Progress(p.removed + {id}, p.copies, p.trace + [rep.manifests]);
        }
      } else {
        ProgressSkip(s0, si, di, isMove, dryRun, rep.manifests, p, done, id);
      }
      return;
    }
    if dryRun {
      ProgressSkip(s0, si, di, isMove, dryRun, rep.manifests, p, done, id);
      return;
    }
    CopyIsSaved(s0[id], di);
    var r := rep.SaveSnapshot(m.(source := Destination(m.source, di)), saves);
    if r.NotSaved? {
      return false, p;
    }
    ProgressCopy(s0, si, di, isMove, old(rep.manifests), p, done, id, r.id, rep.manifests);
    ExtendsMore(h0, p.trace, old(rep.history), rep.manifests);
    p' := Progress(p.removed, p.copies[r.id := id], p.trace + [rep.manifests]);
    if isMove {
      ghost var st, h := rep.manifests, rep.history;
      ok := rep.DeleteManifest(id, deletes);
      if ok {
        ProgressDelete(s0, si, di, st, p', done, id, rep.manifests);
        ExtendsMore(h0, p'.trace, h, rep.manifests);
        p' := Progress(p'.removed + {id}, p'.copies, p'.trace + [rep.manifests]);
      }
    }
  }

  /** The loop body of a run, for any listed snapshot. */
  method HandleListed(rep: Repository, s0: Store, si: SourceInfo, di: SourceInfo, isMove: bool, dryRun: bool,
                      targets: seq<ID>, id: ID, saves: bool, deletes: bool, ghost p: Progress, ghost done: set<ID>,
                      ghost h0: seq<Store>)
    returns (ok: bool, ghost p': Progress)
    requires rep.Valid() && StoreOk(s0) && ProgressOk(s0, si, di, isMove, dryRun, rep.manifests, p, done)
    requires id in Listed(s0, si) && id !in done && forall k :: k in s0 ==> k < rep.nextID
    requires (forall k :: k in targets <==> k in Listed(s0, di)) && Extends(h0, p.trace, rep.history)
    modifies rep
    ensures rep.Valid() && old(rep.nextID) <= rep.nextID
    ensures Traced(s0, si, di, rep.manifests, p'.trace) && Extends(h0, p'.trace, rep.history)
    ensures ok ==> ProgressOk(s0, si, di, isMove, dryRun, rep.manifests, p', done + {id})
    ensures saves && deletes ==> ok
  {
    var m := s0[id].manifest;
    if Destination(m.source, di) == m.source {
      ProgressSkip(s0, si, di, isMove, dryRun, rep.manifests, p, done, id);
      return true, p;
    }
    var found := FindEvidence(s0, di, targets, m);
    ok, p' := CopyOrMoveOne(rep, s0, si, di, isMove, dryRun, id, m, found, saves, deletes, p, done, h0);
  }

  /** The loop of a run; saves(k) and deletes(k) say whether the storage works for the k-th listed snapshot. */
  method CopyOrMove(rep: Repository, si: SourceInfo, di: SourceInfo, isMove: bool, dryRun: bool, saves: nat -> bool,
                    deletes: nat -> bool)
    returns (ok: bool, ghost trace: seq<Store>)
    requires rep.Valid() && StoreOk(rep.manifests)
    modifies rep
    ensures rep.Valid() && Traced(old(rep.manifests), si, di, rep.manifests, trace)
    ensures Extends(old(rep.history), trace, rep.history)
    ensures ok ==> Completed(old(rep.manifests), si, di, isMove, dryRun, rep.manifests)
    ensures (forall k :: saves(k) && deletes(k)) ==> ok
  {
    var s0 := rep.manifests;
    var sources := rep.ListSnapshots(si);
    var targets := rep.ListSnapshots(di);
    ghost var p, done: set<ID> := Progress({}, map[], [s0]), {};
    ProgressStart(s0, si, di, isMove, dryRun);
    for i := 0 to |sources|
      invariant rep.Valid() && old(rep.nextID) <= rep.nextID
      invariant forall id :: id in done <==> id in sources[..i]
      invariant ProgressOk(s0, si, di, isMove, dryRun, rep.manifests, p, done)
      invariant Extends(old(rep.history), p.trace, rep.history)
    {
      var id := sources[i];
      assert id in sources && sources[..i + 1] == sources[..i] + [id];
      ok, p := HandleListed(rep, s0, si, di, isMove, dryRun, targets, id, saves(i), deletes(i), p, done,
                            old(rep.history));
      if !ok {
        return false, p.trace;
      }
      done := done + {id};
    }
    assert sources[..|sources|] == sources;
    assert done == Listed(s0, si);
    return true, p.trace;
  }

  datatype Outcome = Done | Failed | Rejected(message: string)

  /** Every snapshot of s0 is still there in st, at its source or its destination, and all manifests are well-formed. */
  ghost predicate Intact(s0: Store, di: SourceInfo, st: Store) {
    StoreOk(st) && forall id :: id in s0 && s0[id].Snapshot? ==> StillThere(st, di, s0[id].manifest)
  }

  lemma SafeIsIntact(s0: Store, si: SourceInfo, di: SourceInfo, st: Store)
    requires StoreOk(s0) && Safe(s0, si, di, st)
    ensures Intact(s0, di, st)
  {
    var removed, copies :| Shape(s0, si, di, st, removed, copies);
    ShapeKeepsStoreOk(s0, si, di, st, removed, copies);
    forall id | id in s0 && s0[id].Snapshot?
      ensures StillThere(st, di, s0[id].manifest)
    {
      NothingIsLost(s0, si, di, st, removed, copies, id);
      var m0 := s0[id].manifest;
      var n :|
        && n in st && st[n].Snapshot? && st[n].manifest.startTime == m0.startTime && st[n].manifest.rootID == m0.rootID
        && (st[n].manifest.source == m0.source || st[n].manifest.source == Destination(m0.source, di));
      assert IsSnapshot(st[n], m0.source, m0.startTime, m0.rootID) ||
             IsSnapshot(st[n], Destination(m0.source, di), m0.startTime, m0.rootID);
    }
  }

  lemma TraceIsIntact(s0: Store, si: SourceInfo, di: SourceInfo, st: Store, trace: seq<Store>)
    requires StoreOk(s0) && Traced(s0, si, di, st, trace)
    ensures forall i :: 0 <= i < |trace| ==> Intact(s0, di, trace[i])
    ensures Intact(s0, di, st)
  {
    forall i | 0 <= i < |trace|
      ensures Intact(s0, di, trace[i])
    {
      SafeIsIntact(s0, si, di, trace[i]);
    }
  }

  /** What the command promises: whatever fails and whenever, none of the stores it goes through has lost a snapshot. */
  ghost predicate RunSpec(s0: Store, pair: Pair, isMove: bool, dryRun: bool, saves: nat -> bool, deletes: nat -> bool,
                          r: Outcome, trace: seq<Store>, s1: Store) {
    && IsHistory(trace) && trace[0] == s0 && trace[|trace| - 1] == s1
    && match pair
       case Refused(message) => r == Rejected(message) && s1 == s0
       case Pair(si, di) =>
         && (forall i :: 0 <= i < |trace| ==> Intact(s0, di, trace[i]))
         && (r == Done ==> Completed(s0, si, di, isMove, dryRun, s1))
         && ((forall k :: saves(k) && deletes(k)) ==> r == Done)
  }

  method RunOn(rep: Repository, pair: Pair, isMove: bool, dryRun: bool, saves: nat -> bool, deletes: nat -> bool)
      returns (r: Outcome, ghost trace: seq<Store>)
    requires rep.Valid() && StoreOk(rep.manifests)
    modifies rep
    ensures rep.Valid() && StoreOk(rep.manifests) && Extends(old(rep.history), trace, rep.history)
    ensures RunSpec(old(rep.manifests), pair, isMove, dryRun, saves, deletes, r, trace, rep.manifests)
  {
    ghost var s0 := rep.manifests;
    if pair.Refused? {
      return Rejected(pair.message), [s0];
    }
    var ok;
    ok, trace := CopyOrMove(rep, pair.si, pair.di, isMove, dryRun, saves, deletes);
    TraceIsIntact(s0, pair.si, pair.di, rep.manifests, trace);
    TraceIsHistory(old(rep.history), trace, rep.history);
    r := if ok then Done else Failed;
  }

  method Run(rep: Repository, source: string, destination: string, hostname: string, username: string,
             abs: string -> ParseResult, isMove: bool, dryRun: bool, saves: nat -> bool, deletes: nat -> bool)
      returns (r: Outcome, ghost trace: seq<Store>)
    requires rep.Valid() && StoreOk(rep.manifests)
    modifies rep
    ensures rep.Valid() && StoreOk(rep.manifests) && Extends(old(rep.history), trace, rep.history)
    ensures RunSpec(old(rep.manifests), CopySourceAndDestination(source, destination, hostname, username, abs),
                    isMove, dryRun, saves, deletes, r, trace, rep.manifests)
  {
    var pair := CopySourceAndDestination(source, destination, hostname, username, abs);
    r, trace := RunOn(rep, pair, isMove, dryRun, saves, deletes);
  }

  // ---------- what a finished run has done ----------

  /** A snapshot with evidence or a copy is at its destination. */
  lemma IsAtDestination(s0: Store, si: SourceInfo, di: SourceInfo, st: Store, removed: set<ID>, copies: map<ID, ID>,
                        id: ID)
    returns (n: ID)
    requires Shape(s0, si, di, st, removed, copies) && id in s0 && s0[id].Snapshot?
    requires HasEvidence(s0, di, s0[id].manifest) || id in copies.Values
    ensures n in st && Shows(st[n], Destination(s0[id].manifest.source, di), s0[id].manifest)
  {
    var m := s0[id].manifest;
    if id in copies.Values {
      n :| n in copies && copies[n] == id;
      assert st[n] == CopyOf(m, di);
    } else {
      n :| Evidence(s0, di, m, n);
      EvidenceSurvives(s0, si, di, st, removed, copies, m, n);
    }
  }

  /**
    After a copy or a move each matching snapshot is at its destination, and a
    move leaves none behind that belongs elsewhere.
   */
  lemma MoveArrives(s0: Store, si: SourceInfo, di: SourceInfo, isMove: bool, s1: Store, id: ID) returns (n: ID)
    requires StoreOk(s0) && Completed(s0, si, di, isMove, false, s1)
    requires id in s0 && s0[id].Snapshot? && Matches(si, s0[id].manifest.source)
    requires Destination(s0[id].manifest.source, di) != s0[id].manifest.source
    ensures (isMove <==> id !in s1) && n in s1 && s1[n].Snapshot?
    ensures s1[n].manifest.startTime == s0[id].manifest.startTime && s1[n].manifest.rootID == s0[id].manifest.rootID
    ensures var from, at := s0[id].manifest.source, s1[n].manifest.source;
            && at.host == (if di.host != "" then di.host else from.host)
            && at.userName == (if di.userName != "" then di.userName else from.userName)
            && at.path == (if di.path != "" then di.path else from.path)
  {
    var p :| ProgressOk(s0, si, di, isMove, false, s1, p, Listed(s0, si));
    assert ToMove(s0, si, di, id) by {
      QueryFindsMatches(s0[id], si);
    }
    n := IsAtDestination(s0, si, di, s1, p.removed, p.copies, id);
  }

  /** What is new is a copy of a listed snapshot. */
  lemma NewManifestsAreCopies(s0: Store, si: SourceInfo, di: SourceInfo, isMove: bool, dryRun: bool, s1: Store, n: ID)
    returns (id: ID)
    requires Completed(s0, si, di, isMove, dryRun, s1) && n in s1 && n !in s0
    ensures ToCopy(s0, si, di, id) && s1[n].Snapshot?
    ensures s1[n].manifest.source == Destination(s0[id].manifest.source, di)
    ensures s1[n].manifest.startTime == s0[id].manifest.startTime && s1[n].manifest.rootID == s0[id].manifest.rootID
    ensures s1[n].manifest.tags == s0[id].manifest.tags
    ensures s1[n].labels == SourceInfoToLabels(s1[n].manifest.source) + s1[n].manifest.tags
  {
    var p :| ProgressOk(s0, si, di, isMove, dryRun, s1, p, Listed(s0, si));
    id := p.copies[n];
    ShapeHasCopy(s0, si, di, s1, p.removed, p.copies, n);
  }

  /** A run adds at most one manifest for each snapshot that it lists. */
  lemma NoDoubleCopies(s0: Store, si: SourceInfo, di: SourceInfo, isMove: bool, dryRun: bool, s1: Store)
    requires Completed(s0, si, di, isMove, dryRun, s1)
    ensures |s1.Keys - s0.Keys| <= |Listed(s0, si)|
  {
    var p :| ProgressOk(s0, si, di, isMove, dryRun, s1, p, Listed(s0, si));
    ShapeCopiesOnce(s0, si, di, s1, p.removed, p.copies);
  }

  lemma ShapeCopiesOnce(s0: Store, si: SourceInfo, di: SourceInfo, st: Store, removed: set<ID>, copies: map<ID, ID>)
    requires Shape(s0, si, di, st, removed, copies)
    ensures |st.Keys - s0.Keys| <= |Listed(s0, si)|
  {
    NewKeysAreCopies(s0.Keys, st.Keys, removed, copies.Keys);
    forall n | n in copies
      ensures copies[n] in Listed(s0, si)
    {
      ShapeHasCopy(s0, si, di, st, removed, copies, n);
    }
    OneToOne(copies, copies.Keys, Listed(s0, si));
  }

  lemma NewKeysAreCopies(before: set<ID>, after: set<ID>, removed: set<ID>, copied: set<ID>)
    requires copied !! before && after == (before - removed) + copied
    ensures after - before == copied
  {
  }

  lemma {:induction false} OneToOne(m: map<ID, ID>, keys: set<ID>, values: set<ID>)
    requires keys <= m.Keys && (forall n :: n in keys ==> m[n] in values)
    requires forall n, n' :: n in keys && n' in keys && n != n' ==> m[n] != m[n']
    ensures |keys| <= |values|
    decreases |keys|
  {
    if keys != {} {
      var n :| n in keys;
      OneToOne(m, keys - {n}, values - {m[n]});
    }
  }

  lemma ShapeHasCopy(s0: Store, si: SourceInfo, di: SourceInfo, st: Store, removed: set<ID>, copies: map<ID, ID>, n: ID)
    requires Shape(s0, si, di, st, removed, copies) && n in copies
    ensures ToCopy(s0, si, di, copies[n]) && n in st && st[n] == CopyOf(s0[copies[n]].manifest, di)
  {
  }

  lemma ShapeKeepsOthers(s0: Store, si: SourceInfo, di: SourceInfo, s1: Store, removed: set<ID>, copies: map<ID, ID>,
                         id: ID)
    requires Shape(s0, si, di, s1, removed, copies) && id in s0 && id !in removed
    ensures id in s1 && s1[id] == s0[id]
  {
  }

  lemma ShapeWithoutChange(s0: Store, si: SourceInfo, di: SourceInfo, s1: Store)
    requires Shape(s0, si, di, s1, {}, map[])
    ensures s1 == s0
  {
  }

  /** Every manifest that is not moved stays as it was; a dry run changes nothing. */
  lemma OthersStay(s0: Store, si: SourceInfo, di: SourceInfo, isMove: bool, dryRun: bool, s1: Store, id: ID)
    requires Completed(s0, si, di, isMove, dryRun, s1)
    ensures id in s0 && !(isMove && ToMove(s0, si, di, id)) ==> id in s1 && s1[id] == s0[id]
    ensures dryRun ==> s1 == s0
  {
    var p :| ProgressOk(s0, si, di, isMove, dryRun, s1, p, Listed(s0, si));
    if id in s0 && !(isMove && ToMove(s0, si, di, id)) {
      ShapeKeepsOthers(s0, si, di, s1, p.removed, p.copies, id);
    }
    if dryRun {
      NoValuesNoKeys(p.copies);
      ShapeWithoutChange(s0, si, di, s1);
    }
  }

  lemma NoValuesNoKeys(copies: map<ID, ID>)
    requires copies.Values == {}
    ensures copies == map[]
  {
    assert forall n :: n in copies ==> copies[n] in copies.Values;
  }

  /** A second copy finds the first one: the destination names a host, or no snapshot goes anywhere. */
  predicate CopyIsFound(si: SourceInfo, di: SourceInfo) {
    || di.host != ""
    || si.host == ""
    || ((di.userName == "" || di.userName == si.userName) && (di.path == "" || di.path == si.path))
  }

  /** After a copy run, what is still to be moved was there before. */
  lemma StillToMove(s0: Store, si: SourceInfo, di: SourceInfo, s1: Store, copies: map<ID, ID>, id: ID)
    requires Shape(s0, si, di, s1, {}, copies) && ToMove(s1, si, di, id)
    ensures ToMove(s0, si, di, id) && s0[id] == s1[id]
  {
    if id in copies {
      DestinationIsFixed(s0[copies[id]].manifest.source, di);
      assert false;
    }
  }

  /** A snapshot at the destination of m is evidence, if the destination names a host. */
  lemma DestinationIsListed(st: Store, di: SourceInfo, m: Manifest, n: ID)
    requires StoreOk(st) && di.host != "" && n in st && Shows(st[n], Destination(m.source, di), m)
    ensures Evidence(st, di, m, n)
  {
    QueryFindsMatches(st[n], di);
    DestinationIsFixed(m.source, di);
  }

  /** Without a host in the destination, only snapshots of no host could be found there. */
  lemma OnlyHostsAreListed(st: Store, pattern: SourceInfo, id: ID)
    requires StoreOk(st) && id in Listed(st, pattern)
    ensures Matches(pattern, st[id].manifest.source) && pattern.host != ""
  {
    QueryFindsMatches(st[id], pattern);
  }

  /** Nothing is left to copy after a finished copy. */
  lemma NothingLeftToCopy(s0: Store, si: SourceInfo, di: SourceInfo, s1: Store, id: ID)
    requires StoreOk(s0) && Completed(s0, si, di, false, false, s1)
    requires CopyIsFound(si, di) && Accepted(si, di)
    ensures !ToCopy(s1, si, di, id)
  {
    var p :| ProgressOk(s0, si, di, false, false, s1, p, Listed(s0, si));
    ShapeKeepsStoreOk(s0, si, di, s1, p.removed, p.copies);
    if ToMove(s1, si, di, id) {
      OnlyHostsAreListed(s1, si, id);
      StillToMove(s0, si, di, s1, p.copies, id);
      var n := IsAtDestination(s0, si, di, s1, {}, p.copies, id);
      DestinationIsListed(s1, di, s0[id].manifest, n);
    }
  }

  /** Without a host in the destination nothing shows a copy. */
  lemma NoEvidenceWithoutHost(st: Store, di: SourceInfo, m: Manifest)
    requires StoreOk(st) && di.host == ""
    ensures !HasEvidence(st, di, m)
  {
    if HasEvidence(st, di, m) {
      var id :| Evidence(st, di, m, id);
      OnlyHostsAreListed(st, di, id);
      assert false;
    }
  }

  lemma DealtWithAll(s0: Store, si: SourceInfo, di: SourceInfo, copied: set<ID>, done: set<ID>, all: set<ID>)
    requires Dealt(s0, si, di, false, false, {}, copied, done) && done <= all
    requires forall id :: id in all && ToMove(s0, si, di, id) ==> id in done
    ensures Dealt(s0, si, di, false, false, {}, copied, all)
  {
  }

  /** A run from a store with one snapshot to copy, whose copy would not be found, saves it. */
  lemma UnfoundCopyCompletes(s0: Store, si: SourceInfo, di: SourceInfo, m: Manifest, n: ID, s1: Store)
    requires StoreOk(s0) && di.host == "" && 0 in s0 && s0[0].Snapshot? && s0[0].manifest == m
    requires Matches(si, m.source) && !InPlace(m, di) && n !in s0 && s1 == s0[n := CopyOf(m, di)]
    requires forall id :: id in s0 && id != 0 ==> s0[id] == CopyOf(m, di)
    ensures Completed(s0, si, di, false, false, s1)
  {
    QueryFindsMatches(s0[0], si);
    NoEvidenceWithoutHost(s0, di, m);
    DestinationIsFixed(m.source, di);
    ProgressStart(s0, si, di, false, false);
    ProgressCopy(s0, si, di, false, s0, Progress({}, map[], [s0]), {}, 0, n, s1);
    var p := Progress({}, map[n := 0], [s0, s1]);
    assert map[][n := 0] == map[n := 0] && [s0] + [s1] == [s0, s1] && {} + {0} == {0};
    DealtWithAll(s0, si, di, p.copies.Values, {0}, Listed(s0, si));
    assert ProgressOk(s0, si, di, false, false, s1, p, Listed(s0, si));
  }

  /** Copying again after a finished copy changes no store. */
  ghost predicate CopyAgainIsIdle(si: SourceInfo, di: SourceInfo) {
    forall s0, s1, s2 ::
      StoreOk(s0) && Completed(s0, si, di, false, false, s1) && Completed(s1, si, di, false, false, s2) ==> s2 == s1
  }

  /** A copy run with nothing to copy changes nothing. */
  lemma IdleWithoutWork(s1: Store, si: SourceInfo, di: SourceInfo, s2: Store)
    requires Completed(s1, si, di, false, false, s2) && forall id :: !ToCopy(s1, si, di, id)
    ensures s2 == s1
  {
    var p :| ProgressOk(s1, si, di, false, false, s2, p, Listed(s1, si));
    assert p.copies.Keys == {};
  }

  lemma FoundCopyIsIdle(s0: Store, si: SourceInfo, di: SourceInfo, s1: Store, s2: Store)
    requires StoreOk(s0) && Completed(s0, si, di, false, false, s1) && Completed(s1, si, di, false, false, s2)
    requires CopyIsFound(si, di) && Accepted(si, di)
    ensures s2 == s1
  {
    forall id
      ensures !ToCopy(s1, si, di, id)
    {
      NothingLeftToCopy(s0, si, di, s1, id);
    }
    IdleWithoutWork(s1, si, di, s2);
  }

  /** Where the copy is not found: one snapshot is copied, and copied again. */
  lemma UnfoundCopyRepeats(si: SourceInfo, di: SourceInfo)
    requires !CopyIsFound(si, di) && Accepted(si, di)
    ensures !CopyAgainIsIdle(si, di)
  {
    var user := if si.userName != "" then si.userName else "u";
    var path := if si.path != "" then si.path else "/p";
    var m := Manifest(SourceInfo(si.host, user, path), 0, "", map[]);
    var s := Snapshot(SourceInfoToLabels(m.source) + map[], m);
    var s0: Store := map[0 := s];
    var s1 := s0[1 := CopyOf(m, di)];
    var s2 := s1[2 := CopyOf(m, di)];
    assert Saved(s);
    CopyIsSaved(s, di);
    assert StoreOk(s0) && StoreOk(s1);
    UnfoundCopyCompletes(s0, si, di, m, 1, s1);
    UnfoundCopyCompletes(s1, si, di, m, 2, s2);
    assert 2 in s2 && 2 !in s1;
  }

  /** Running copy twice is the same as once, for every store, exactly if the copy is found. */
  lemma CopyAgainIsIdleExactly(si: SourceInfo, di: SourceInfo)
    requires Accepted(si, di)
    ensures CopyAgainIsIdle(si, di) <==> CopyIsFound(si, di)
  {
    if CopyIsFound(si, di) {
      forall s0, s1, s2 |
        StoreOk(s0) && Completed(s0, si, di, false, false, s1) && Completed(s1, si, di, false, false, s2)
        ensures s2 == s1
      {
        FoundCopyIsIdle(s0, si, di, s1, s2);
      }
    } else {
      UnfoundCopyRepeats(si, di);
    }
  }
}
