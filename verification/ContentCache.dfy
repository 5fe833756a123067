/** The content cache in front of blob storage, and when it is transparent. */
module ContentCache {
  import opened Basics

  type Bytes = seq<byte>
  type Key = string

  datatype Result = Ok(data: Bytes) | Error(message: string)

  // ---------- cache keys ----------

  predicate HasPrefix(contentID: string)
    requires contentID != ""
  {
    'g' <= contentID[0] <= 'z'
  }

  /** Moves the first character to the end. */
  function Rotated(id: string): (key: string)
    requires id != ""
    ensures |key| == |id|
  {
    id[1..] + id[..1]
  }

  function ContentIDCacheKey(contentID: string): Key
    requires contentID != ""
  {
    if HasPrefix(contentID) then Rotated(contentID) else contentID
  }

  function BlobIDCacheKey(id: string): Key
    requires id != ""
  {
    Rotated(id)
  }

  lemma RotatedIsInjective(a: string, b: string)
    requires a != "" && b != "" && Rotated(a) == Rotated(b)
    ensures a == b
  {
    var n := |a| - 1;
    assert a[0] == Rotated(a)[n] && b[0] == Rotated(b)[n];
    assert a[1..] == Rotated(a)[..n] && b[1..] == Rotated(b)[..n];
    assert a == [a[0]] + a[1..] && b == [b[0]] + b[1..];
  }

  predicate IsHexDigit(c: char) {
    '0' <= c <= '9' || 'a' <= c <= 'f'
  }

  /** An optional prefix from g to z, then hexadecimal digits. */
  ghost predicate IsContentID(id: string) {
    id != "" && (IsHexDigit(id[0]) || HasPrefix(id)) && forall i :: 1 <= i < |id| ==> IsHexDigit(id[i])
  }

  /** All strings of that form are content ids: any hexadecimal digits, with or without a prefix. */
  lemma ContentIDsExactly(id: string)
    ensures IsContentID(id) <==>
              && |id| > 0 && (id[0] in "0123456789abcdef" || id[0] in "ghijklmnopqrstuvwxyz")
              && forall i :: 1 <= i < |id| ==> id[i] in "0123456789abcdef"
  {
    forall i | 0 <= i < |id|
      ensures IsHexDigit(id[i]) <==> id[i] in "0123456789abcdef"
    {
      HexDigits(id[i]);
    }
    if id != "" {
      PrefixLetters(id[0]);
    }
  }

  lemma HexDigits(c: char)
    ensures IsHexDigit(c) <==> c in "0123456789abcdef"
  {
    var s := "0123456789abcdef";
    if IsHexDigit(c) {
      var i := if c <= '9' then (c - '0') as int else 10 + (c - 'a') as int;
      assert s[i] == c;
    }
  }

  lemma PrefixLetters(c: char)
    ensures 'g' <= c <= 'z' <==> c in "ghijklmnopqrstuvwxyz"
  {
    var s := "ghijklmnopqrstuvwxyz";
    if 'g' <= c <= 'z' {
      assert s[(c - 'g') as int] == c;
    }
  }

  /** Distinct contents have distinct cache keys. */
  lemma ContentKeysAreDistinct(a: string, b: string)
    requires IsContentID(a) && IsContentID(b) && ContentIDCacheKey(a) == ContentIDCacheKey(b)
    ensures a == b
  {
    var n := |a| - 1;
    assert ContentIDCacheKey(a)[n] == ContentIDCacheKey(b)[n];
    if HasPrefix(a) && HasPrefix(b) {
      RotatedIsInjective(a, b);
    }
  }

  /** A blob and a content share a cache key exactly when the blob id is the rotation that undoes the content's key. */
  lemma KeysCollideExactly(blobID: string, contentID: string)
    requires blobID != "" && contentID != ""
    ensures BlobIDCacheKey(blobID) == ContentIDCacheKey(contentID) <==>
            blobID ==
              if 'g' <= contentID[0] <= 'z' then contentID
              else [contentID[|contentID| - 1]] + contentID[..|contentID| - 1]
  {
    var n := |contentID| - 1;
    var source := if HasPrefix(contentID) then contentID else [contentID[n]] + contentID[..n];
    assert Rotated(source) == ContentIDCacheKey(contentID) by {
      if !HasPrefix(contentID) {
        assert source[1..] == contentID[..n] && source[..1] == [contentID[n]];
        assert contentID == contentID[..n] + [contentID[n]];
      }
    }
    if Rotated(blobID) == Rotated(source) {
      RotatedIsInjective(blobID, source);
    }
  }

  /** A blob id with a character other than a hexadecimal digit after the first one never collides with a content id. */
  lemma PackBlobsNeverCollide(blobID: string, contentID: string, i: nat)
    requires IsContentID(contentID) && 1 <= i < |blobID| && !('0' <= blobID[i] <= '9' || 'a' <= blobID[i] <= 'f')
    ensures BlobIDCacheKey(blobID) != ContentIDCacheKey(contentID)
  {
    KeysCollideExactly(blobID, contentID);
  }

  // ---------- storage ----------

  /** Reads a range of stored bytes, or all of them when length is negative. */
  function ReadRange(data: Bytes, offset: int, length: int): Result {
    if length < 0 then Ok(data)
    else if offset < 0 then Error("seek error")
    else if length == 0 then Ok([])
    else if offset + length <= |data| then Ok(data[offset..offset + length])
    else Error("invalid length")
  }

  function GetBlob(store: map<string, Bytes>, id: string, offset: int, length: int): Result {
    if id in store then ReadRange(store[id], offset, length) else Error("blob not found")
  }

  const OVERHEAD: nat := 32

  /** Byte i of the checksum of some data. */
  type Mac = (Bytes, nat) -> byte

  function Checksum(mac: Mac, data: Bytes): (sum: Bytes)
    ensures |sum| == OVERHEAD
  {
    seq(OVERHEAD, i requires 0 <= i < OVERHEAD => mac(data, i))
  }

  function Protect(mac: Mac, data: Bytes): Bytes {
    data + Checksum(mac, data)
  }

  predicate Verifies(mac: Mac, stored: Bytes) {
    |stored| >= OVERHEAD && stored[|stored| - OVERHEAD..] == Checksum(mac, stored[..|stored| - OVERHEAD])
  }

  lemma ProtectedVerifies(mac: Mac, data: Bytes)
    ensures Verifies(mac, Protect(mac, data)) && Protect(mac, data)[..|data|] == data
  {
    var p := Protect(mac, data);
    assert p[..|data|] == data && p[|data|..] == Checksum(mac, data);
  }

  /** Exactly what was protected verifies. */
  lemma VerifiesExactly(mac: Mac, stored: Bytes)
    ensures Verifies(mac, stored) <==> exists data :: stored == Protect(mac, data)
  {
    if Verifies(mac, stored) {
      assert stored == Protect(mac, stored[..|stored| - OVERHEAD]);
    }
    if data :| stored == Protect(mac, data) {
      ProtectedVerifies(mac, data);
    }
  }

  // ---------- the cache ----------

  type Cache = map<Key, Bytes>

  datatype Lookup = Miss | Hit(data: Bytes)

  /** Whether and with what GetPartial answers. Only full reads are verified. */
  function CacheRead(mac: Mac, cache: Cache, key: Key, offset: int, length: int): Lookup {
    match GetBlob(cache, key, offset, length)
    case Error(_) => Miss
    case Ok(stored) =>
      if length >= 0 then Hit(stored)
      else if Verifies(mac, stored) then Hit(stored[..|stored| - OVERHEAD])
      else Miss
  }

  /** A range is answered from any entry that has it, the whole only from one that was protected. */
  lemma ReadsFromCacheExactly(mac: Mac, cache: Cache, key: Key, offset: nat, length: int)
    ensures var hit := CacheRead(mac, cache, key, offset, length);
            && (hit.Hit? <==>
                  && key in cache
                  && if length < 0 then exists data :: cache[key] == Protect(mac, data)
                     else length == 0 || offset + length <= |cache[key]|)
            && (hit.Hit? && length > 0 ==> hit.data == cache[key][offset..offset + length])
            && (hit.Hit? && length == 0 ==> hit.data == [])
            && (hit.Hit? && length < 0 ==> cache[key] == Protect(mac, hit.data))
  {
    if key in cache {
      VerifiesExactly(mac, cache[key]);
    }
  }

  /** The blobs in storage and the bytes each content id stands for. */
  datatype World = World(blobs: map<string, Bytes>, contents: map<string, Bytes>)

  /** Ids are not empty and no two of them share a cache key. */
  ghost predicate KeysApart(w: World) {
    && (forall b :: b in w.blobs ==> b != "")
    && (forall c :: c in w.contents ==> c != "")
    && (forall c, c' :: c in w.contents && c' in w.contents && c != c' ==>
          ContentIDCacheKey(c) != ContentIDCacheKey(c'))
    && (forall b, c :: b in w.blobs && c in w.contents ==> BlobIDCacheKey(b) != ContentIDCacheKey(c))
  }

  ghost predicate BlobEntryOk(mac: Mac, w: World, cache: Cache, b: string)
    requires b in w.blobs && b != ""
  {
    BlobIDCacheKey(b) in cache ==>
      cache[BlobIDCacheKey(b)] == Protect(mac, w.blobs[b]) || !Verifies(mac, cache[BlobIDCacheKey(b)])
  }

  ghost predicate ContentEntryOk(mac: Mac, w: World, cache: Cache, c: string)
    requires c in w.contents && c != ""
  {
    ContentIDCacheKey(c) in cache ==>
      cache[ContentIDCacheKey(c)] == Protect(mac, w.contents[c]) || !Verifies(mac, cache[ContentIDCacheKey(c)])
  }

  /** Cached blobs and contents are intact or visibly corrupted. */
  ghost predicate CacheOk(mac: Mac, w: World, cache: Cache) {
    && KeysApart(w)
    && (forall b :: b in w.blobs ==> BlobEntryOk(mac, w, cache, b))
    && (forall c :: c in w.contents ==> ContentEntryOk(mac, w, cache, c))
  }

  lemma EvictionKeepsOk(mac: Mac, w: World, cache: Cache, key: Key)
    requires CacheOk(mac, w, cache)
    ensures CacheOk(mac, w, cache - {key})
  {
    forall b | b in w.blobs
      ensures BlobEntryOk(mac, w, cache - {key}, b)
    {
      assert BlobEntryOk(mac, w, cache, b);
    }
    forall c | c in w.contents
      ensures ContentEntryOk(mac, w, cache - {key}, c)
    {
      assert ContentEntryOk(mac, w, cache, c);
    }
  }

  /** A blob entry written by the cache, or corrupted so that it no longer verifies. */
  lemma ChangingBlobKeepsOk(mac: Mac, w: World, cache: Cache, blobID: string, stored: Bytes)
    requires CacheOk(mac, w, cache) && blobID in w.blobs
    requires stored == Protect(mac, w.blobs[blobID]) || !Verifies(mac, stored)
    ensures CacheOk(mac, w, cache[BlobIDCacheKey(blobID) := stored])
  {
    var cache' := cache[BlobIDCacheKey(blobID) := stored];
    forall b | b in w.blobs
      ensures BlobEntryOk(mac, w, cache', b)
    {
      assert BlobEntryOk(mac, w, cache, b);
      if BlobIDCacheKey(b) == BlobIDCacheKey(blobID) {
        RotatedIsInjective(b, blobID);
      }
    }
    forall c | c in w.contents
      ensures ContentEntryOk(mac, w, cache', c)
    {
      assert ContentEntryOk(mac, w, cache, c);
    }
  }

  /** A content entry written by the cache, or corrupted so that it no longer verifies. */
  lemma ChangingContentKeepsOk(mac: Mac, w: World, cache: Cache, contentID: string, stored: Bytes)
    requires CacheOk(mac, w, cache) && contentID in w.contents
    requires stored == Protect(mac, w.contents[contentID]) || !Verifies(mac, stored)
    ensures CacheOk(mac, w, cache[ContentIDCacheKey(contentID) := stored])
  {
    var cache' := cache[ContentIDCacheKey(contentID) := stored];
    forall b | b in w.blobs
      ensures BlobEntryOk(mac, w, cache', b)
    {
      assert BlobEntryOk(mac, w, cache, b);
    }
    forall c | c in w.contents
      ensures ContentEntryOk(mac, w, cache', c)
    {
      assert ContentEntryOk(mac, w, cache, c);
    }
  }

  /** The request is for the whole blob or for a range inside it. */
  ghost predicate InRange(w: World, blobID: string, offset: int, length: int) {
    && blobID in w.blobs
    && ((offset == 0 && length == -1) || (offset >= 0 && length >= 0 && offset + length <= |w.blobs[blobID]|))
  }

  /**
    If the cache has the requested range of the blob, it has the right bytes
    there. Whole blobs are verified instead.
   */
  ghost predicate RangeIntact(w: World, cache: Cache, blobID: string, offset: int, length: int)
    requires blobID != "" && InRange(w, blobID, offset, length)
  {
    var key := BlobIDCacheKey(blobID);
    length > 0 && key in cache && offset + length <= |cache[key]| ==>
      cache[key][offset..offset + length] == w.blobs[blobID][offset..offset + length]
  }

  /** A whole blob in the cache, or the same range of it, answers as storage would, exactly if the range is intact. */
  lemma BlobHitIsRightExactly(mac: Mac, w: World, cache: Cache, blobID: string, offset: int, length: int)
    requires CacheOk(mac, w, cache) && blobID != "" && InRange(w, blobID, offset, length)
    ensures var hit := CacheRead(mac, cache, BlobIDCacheKey(blobID), offset, length);
            (hit.Hit? ==> Ok(hit.data) == GetBlob(w.blobs, blobID, offset, length)) <==>
              RangeIntact(w, cache, blobID, offset, length)
  {
    assert BlobEntryOk(mac, w, cache, blobID);
    ProtectedVerifies(mac, w.blobs[blobID]);
  }

  /** Intact entries have all ranges intact. */
  lemma IntactBlobHasIntactRanges(mac: Mac, w: World, cache: Cache, blobID: string, offset: int, length: int)
    requires blobID != "" && InRange(w, blobID, offset, length)
    requires BlobIDCacheKey(blobID) in cache ==> cache[BlobIDCacheKey(blobID)] == Protect(mac, w.blobs[blobID])
    ensures RangeIntact(w, cache, blobID, offset, length)
  {
  }

  /** A cached content, read in full and verified, is the content. */
  lemma ContentHitIsRight(mac: Mac, w: World, cache: Cache, contentID: string)
    requires CacheOk(mac, w, cache) && contentID in w.contents
    ensures var hit := CacheRead(mac, cache, ContentIDCacheKey(contentID), 0, -1);
            hit.Hit? ==> hit.data == w.contents[contentID]
  {
    assert ContentEntryOk(mac, w, cache, contentID);
    ProtectedVerifies(mac, w.contents[contentID]);
  }

  /**
    An intact cached blob answers any range as storage would exactly when the
    range does not end inside the checksum.
   */
  lemma CachedRangeIsRightExactly(mac: Mac, w: World, cache: Cache, blobID: string, offset: nat, length: nat)
    requires blobID in w.blobs && blobID != "" && length > 0
    requires BlobIDCacheKey(blobID) in cache && cache[BlobIDCacheKey(blobID)] == Protect(mac, w.blobs[blobID])
    ensures var hit := CacheRead(mac, cache, BlobIDCacheKey(blobID), offset, length);
            (hit.Hit? ==> Ok(hit.data) == GetBlob(w.blobs, blobID, offset, length)) <==>
            !(|w.blobs[blobID]| < offset + length <= |w.blobs[blobID]| + OVERHEAD)
  {
  }

  // ---------- the history of a cache ----------

  /** What can happen to the cache: entries are evicted, stored, or corrupted in storage. */
  datatype Change =
    | Evicted(key: Key)
    | BlobStored(blobID: string)
    | ContentStored(contentID: string)
    | BlobCorrupted(blobID: string, bytes: Bytes)
    | ContentCorrupted(contentID: string, bytes: Bytes)

  /** The cache after a change. Corruption hits entries that are there, and shows when they are verified. */
  function Apply(mac: Mac, w: World, cache: Cache, change: Change): Cache
    requires KeysApart(w)
  {
    match change
    case Evicted(key) => cache - {key}
    case BlobStored(b) => if b in w.blobs then cache[BlobIDCacheKey(b) := Protect(mac, w.blobs[b])] else cache
    case ContentStored(c) =>
      if c in w.contents then cache[ContentIDCacheKey(c) := Protect(mac, w.contents[c])] else cache
    case BlobCorrupted(b, bytes) =>
      if b in w.blobs && BlobIDCacheKey(b) in cache && !Verifies(mac, bytes) then cache[BlobIDCacheKey(b) := bytes]
      else cache
    case ContentCorrupted(c, bytes) =>
      if c in w.contents && ContentIDCacheKey(c) in cache && !Verifies(mac, bytes)
      then cache[ContentIDCacheKey(c) := bytes]
      else cache
  }

  /** The cache that a history of changes leaves. */
  ghost function Replay(mac: Mac, w: World, log: seq<Change>): Cache
    requires KeysApart(w)
  {
    if log == [] then map[] else Apply(mac, w, Replay(mac, w, log[..|log| - 1]), log[|log| - 1])
  }

  /** The change concerns the cache entry of blob b. */
  predicate Touches(change: Change, b: string)
    requires b != ""
  {
    match change
    case Evicted(key) => key == BlobIDCacheKey(b)
    case BlobStored(x) => x == b
    case BlobCorrupted(x, _) => x == b
    case _ => false
  }

  /** A corruption hit the entry of blob b since it was last stored or evicted. */
  predicate Damaged(log: seq<Change>, b: string)
    requires b != ""
  {
    log != [] &&
      var n := |log| - 1;
      if Touches(log[n], b) then log[n].BlobCorrupted? else Damaged(log[..n], b)
  }

  lemma ApplyKeepsOk(mac: Mac, w: World, cache: Cache, change: Change)
    requires CacheOk(mac, w, cache)
    ensures CacheOk(mac, w, Apply(mac, w, cache, change))
  {
    match change
    case Evicted(key) => EvictionKeepsOk(mac, w, cache, key);
    case BlobStored(b) =>
      if b in w.blobs {
        ChangingBlobKeepsOk(mac, w, cache, b, Protect(mac, w.blobs[b]));
      }
    case ContentStored(c) =>
      if c in w.contents {
        ChangingContentKeepsOk(mac, w, cache, c, Protect(mac, w.contents[c]));
      }
    case BlobCorrupted(b, bytes) =>
      if b in w.blobs && !Verifies(mac, bytes) {
        ChangingBlobKeepsOk(mac, w, cache, b, bytes);
      }
    case ContentCorrupted(c, bytes) =>
      if c in w.contents && !Verifies(mac, bytes) {
        ChangingContentKeepsOk(mac, w, cache, c, bytes);
      }
  }

  /** After any history, entries are intact or visibly corrupted. */
  lemma {:induction false} ReplayIsOk(mac: Mac, w: World, log: seq<Change>)
    requires KeysApart(w)
    ensures CacheOk(mac, w, Replay(mac, w, log))
  {
    if log != [] {
      ReplayIsOk(mac, w, log[..|log| - 1]);
      ApplyKeepsOk(mac, w, Replay(mac, w, log[..|log| - 1]), log[|log| - 1]);
    }
  }

  ghost predicate BlobIntact(mac: Mac, w: World, cache: Cache, b: string)
    requires b in w.blobs && b != ""
  {
    BlobIDCacheKey(b) in cache ==> cache[BlobIDCacheKey(b)] == Protect(mac, w.blobs[b])
  }

  lemma ApplyElsewhere(mac: Mac, w: World, cache: Cache, change: Change, b: string)
    requires KeysApart(w) && b in w.blobs && !Touches(change, b) && BlobIntact(mac, w, cache, b)
    ensures BlobIntact(mac, w, Apply(mac, w, cache, change), b)
  {
    if (change.BlobStored? || change.BlobCorrupted?) && change.blobID in w.blobs {
      if BlobIDCacheKey(change.blobID) == BlobIDCacheKey(b) {
        RotatedIsInjective(change.blobID, b);
      }
    }
  }

  /** After any history, a blob that was not damaged since it was stored is intact in the cache. */
  lemma {:induction false} UndamagedIsIntact(mac: Mac, w: World, log: seq<Change>, b: string)
    requires KeysApart(w) && b in w.blobs && !Damaged(log, b)
    ensures BlobIntact(mac, w, Replay(mac, w, log), b)
  {
    if log != [] {
      var n := |log| - 1;
      if !Touches(log[n], b) {
        UndamagedIsIntact(mac, w, log[..n], b);
        ApplyElsewhere(mac, w, Replay(mac, w, log[..n]), log[n], b);
      }
    }
  }

  /** The blobs hit by corruption. */
  ghost function Corrupted(changes: seq<Change>): set<string> {
    set i | 0 <= i < |changes| && changes[i].BlobCorrupted? :: changes[i].blobID
  }

  lemma CorruptedSplit(a: seq<Change>, c: seq<Change>)
    ensures Corrupted(a + c) == Corrupted(a) + Corrupted(c)
  {
    forall b | b in Corrupted(c)
      ensures b in Corrupted(a + c)
    {
      var i :| 0 <= i < |c| && c[i].BlobCorrupted? && c[i].blobID == b;
      assert (a + c)[|a| + i] == c[i];
    }
    forall b | b in Corrupted(a)
      ensures b in Corrupted(a + c)
    {
      var i :| 0 <= i < |a| && a[i].BlobCorrupted? && a[i].blobID == b;
      assert (a + c)[i] == a[i];
    }
  }

  /** Without a corruption there is no damage. */
  lemma {:induction false} DamageNeedsCorruption(log: seq<Change>, b: string)
    requires b != ""
    ensures Damaged(log, b) ==> b in Corrupted(log)
  {
    if log != [] {
      var n := |log| - 1;
      DamageNeedsCorruption(log[..n], b);
      CorruptedSplit(log[..n], [log[n]]);
      assert log == log[..n] + [log[n]];
      assert log[n].BlobCorrupted? ==> log[n].blobID in Corrupted(log);
    }
  }

  /** A request in range is answered from the cache as by storage, if the blob was not damaged since it was stored. */
  lemma UndamagedBlobHitIsRight(mac: Mac, w: World, log: seq<Change>, blobID: string, offset: int, length: int)
    requires KeysApart(w) && blobID != "" && InRange(w, blobID, offset, length) && !Damaged(log, blobID)
    ensures RangeIntact(w, Replay(mac, w, log), blobID, offset, length)
  {
    UndamagedIsIntact(mac, w, log, blobID);
    IntactBlobHasIntactRanges(mac, w, Replay(mac, w, log), blobID, offset, length);
  }

  /**
    The answer to a request in range after a history: as by storage exactly if
    the range that the cache has of it is intact, and so always for a whole
    blob, and for a range of a blob that was not damaged since it was stored.
   */
  ghost predicate ReadIsRight(mac: Mac, w: World, log: seq<Change>, blobID: string, offset: int, length: int, r: Result)
    requires KeysApart(w) && blobID != "" && InRange(w, blobID, offset, length)
  {
    && (r == GetBlob(w.blobs, blobID, offset, length) <==>
          RangeIntact(w, Replay(mac, w, log), blobID, offset, length))
    && (length < 0 || !Damaged(log, blobID) ==> r == GetBlob(w.blobs, blobID, offset, length))
  }

  /** A cached content that verifies is the content, after any history. */
  lemma ContentLookupIsRight(mac: Mac, w: World, log: seq<Change>, contentID: string)
    requires KeysApart(w) && contentID in w.contents
    ensures var hit := CacheRead(mac, Replay(mac, w, log), ContentIDCacheKey(contentID), 0, -1);
            hit.Hit? ==> hit.data == w.contents[contentID]
  {
    ReplayIsOk(mac, w, log);
    ContentHitIsRight(mac, w, Replay(mac, w, log), contentID);
  }

  lemma LookupDecides(mac: Mac, w: World, log: seq<Change>, blobID: string, offset: int, length: int)
    requires KeysApart(w) && blobID != "" && InRange(w, blobID, offset, length)
    ensures var hit := CacheRead(mac, Replay(mac, w, log), BlobIDCacheKey(blobID), offset, length);
            && (hit.Hit? ==> ReadIsRight(mac, w, log, blobID, offset, length, Ok(hit.data)))
            && (hit.Miss? ==>
                  ReadIsRight(mac, w, log, blobID, offset, length, GetBlob(w.blobs, blobID, offset, length)))
  {
    ReplayIsOk(mac, w, log);
    BlobHitIsRightExactly(mac, w, Replay(mac, w, log), blobID, offset, length);
    if !Damaged(log, blobID) {
      UndamagedBlobHitIsRight(mac, w, log, blobID, offset, length);
    }
  }

  /** What others do to the cache before each access of one call, and whether what the call stores gets there. */
  datatype Interference = Interference(first: seq<Change>, second: seq<Change>, third: seq<Change>, stored: bool)

  ghost function CorruptedBy(env: Interference): set<string> {
    Corrupted(env.first) + Corrupted(env.second) + Corrupted(env.third)
  }

  // What each operation adds to the history.

  ghost function LookupAt(mac: Mac, w: World, log: seq<Change>, key: Key, offset: int, length: int): Lookup
    requires KeysApart(w)
  {
    CacheRead(mac, Replay(mac, w, log), key, offset, length)
  }

  /** A full read that fails verification deletes the entry. */
  ghost function LookupLog(mac: Mac, w: World, log: seq<Change>, key: Key, offset: int, length: int): seq<Change>
    requires KeysApart(w)
  {
    if key in Replay(mac, w, log) && length < 0 && LookupAt(mac, w, log, key, offset, length).Miss?
    then log + [Evicted(key)]
    else log
  }

  /** What is read from storage is stored, if it gets there. */
  ghost function StoreLog(log: seq<Change>, env: Interference, change: Change): seq<Change> {
    if env.stored then log + env.third + [change] else log + env.third
  }

  ghost function FetchLog(w: World, log: seq<Change>, blobID: string, env: Interference): seq<Change> {
    if blobID in w.blobs then StoreLog(log, env, BlobStored(blobID)) else log
  }

  ghost function FullBlobLog(mac: Mac, w: World, log: seq<Change>, blobID: string, offset: int, length: int,
                             env: Interference): seq<Change>
    requires KeysApart(w) && blobID != ""
  {
    var key, at := BlobIDCacheKey(blobID), log + env.first;
    var after := LookupLog(mac, w, at, key, offset, length);
    if LookupAt(mac, w, at, key, offset, length).Hit? then after else FetchLog(w, after, blobID, env)
  }

  ghost function ContentLog(mac: Mac, w: World, log: seq<Change>, contentID: string, blobID: string,
                            offset: int, length: int, env: Interference): seq<Change>
    requires KeysApart(w) && contentID in w.contents
  {
    var key, at := ContentIDCacheKey(contentID), log + env.second;
    var after := LookupLog(mac, w, at, key, 0, -1);
    if LookupAt(mac, w, at, key, 0, -1).Hit? || GetBlob(w.blobs, blobID, offset, length).Error? then after
    else StoreLog(after, env, ContentStored(contentID))
  }

  ghost function PartialBlobLog(mac: Mac, w: World, log: seq<Change>, contentID: string, blobID: string,
                                offset: int, length: int, env: Interference): seq<Change>
    requires KeysApart(w) && blobID != "" && contentID in w.contents
  {
    var key, at := BlobIDCacheKey(blobID), log + env.first;
    var after := LookupLog(mac, w, at, key, offset, length);
    if LookupAt(mac, w, at, key, offset, length).Hit? then after
    else ContentLog(mac, w, after, contentID, blobID, offset, length, env)
  }

  ghost function ReadLog(mac: Mac, w: World, full: bool, log: seq<Change>, contentID: string, blobID: string,
                         offset: int, length: int, env: Interference): seq<Change>
    requires KeysApart(w) && blobID != "" && contentID in w.contents
  {
    if full then FullBlobLog(mac, w, log, blobID, offset, length, env)
    else PartialBlobLog(mac, w, log, contentID, blobID, offset, length, env)
  }

  ghost function PrefetchLog(mac: Mac, w: World, log: seq<Change>, blobID: string, env: Interference): seq<Change>
    requires KeysApart(w) && blobID != ""
  {
    var key, at := BlobIDCacheKey(blobID), log + env.first;
    if LookupAt(mac, w, at, key, 0, 1).Hit? then at
    else if LookupAt(mac, w, at + env.second, key, 0, 1).Hit? then at + env.second
    else FetchLog(w, at + env.second, blobID, env)
  }

  lemma LookupAddsNoCorruption(mac: Mac, w: World, log: seq<Change>, key: Key, offset: int, length: int)
    requires KeysApart(w)
    ensures Corrupted(LookupLog(mac, w, log, key, offset, length)) == Corrupted(log)
  {
    CorruptedSplit(log, [Evicted(key)]);
  }

  lemma StoringAddsNoCorruption(log: seq<Change>, env: Interference, change: Change)
    requires !change.BlobCorrupted?
    ensures Corrupted(StoreLog(log, env, change)) == Corrupted(log) + Corrupted(env.third)
  {
    CorruptedSplit(log, env.third);
    CorruptedSplit(log + env.third, [change]);
  }

  /** The cache corrupts nothing itself: what is corrupted after a call is the work of others. */
  lemma ReadAddsNoCorruption(mac: Mac, w: World, full: bool, log: seq<Change>, contentID: string, blobID: string,
                             offset: int, length: int, env: Interference)
    requires KeysApart(w) && blobID != "" && contentID in w.contents
    ensures Corrupted(ReadLog(mac, w, full, log, contentID, blobID, offset, length, env)) <=
              Corrupted(log) + CorruptedBy(env)
  {
    var at, key := log + env.first, BlobIDCacheKey(blobID);
    CorruptedSplit(log, env.first);
    LookupAddsNoCorruption(mac, w, at, key, offset, length);
    var after := LookupLog(mac, w, at, key, offset, length);
    StoringAddsNoCorruption(after, env, BlobStored(blobID));
    CorruptedSplit(after, env.second);
    LookupAddsNoCorruption(mac, w, after + env.second, ContentIDCacheKey(contentID), 0, -1);
    var after' := LookupLog(mac, w, after + env.second, ContentIDCacheKey(contentID), 0, -1);
    StoringAddsNoCorruption(after', env, ContentStored(contentID));
  }

  lemma PrefetchAddsNoCorruption(mac: Mac, w: World, log: seq<Change>, blobID: string, env: Interference)
    requires KeysApart(w) && blobID != ""
    ensures Corrupted(PrefetchLog(mac, w, log, blobID, env)) <= Corrupted(log) + CorruptedBy(env)
  {
    CorruptedSplit(log, env.first);
    CorruptedSplit(log + env.first, env.second);
    StoringAddsNoCorruption(log + env.first + env.second, env, BlobStored(blobID));
  }

  lemma StoredIsThere(mac: Mac, w: World, log: seq<Change>, change: Change)
    requires KeysApart(w)
    ensures Replay(mac, w, log + [change]) == Apply(mac, w, Replay(mac, w, log), change)
  {
    assert (log + [change])[..|log|] == log;
  }

  /** After a fetch that was stored, the blob answers every request in range. */
  lemma FetchedIsHit(mac: Mac, w: World, log: seq<Change>, blobID: string, offset: int, length: int, env: Interference)
    requires KeysApart(w) && blobID != "" && InRange(w, blobID, offset, length) && env.stored
    ensures LookupAt(mac, w, FetchLog(w, log, blobID, env), BlobIDCacheKey(blobID), offset, length).Hit?
  {
    StoredIsThere(mac, w, log + env.third, BlobStored(blobID));
    ProtectedVerifies(mac, w.blobs[blobID]);
  }

  lemma StoredContentIsHit(mac: Mac, w: World, log: seq<Change>, contentID: string, env: Interference)
    requires KeysApart(w) && contentID in w.contents && env.stored
    ensures var log' := StoreLog(log, env, ContentStored(contentID));
            LookupAt(mac, w, log', ContentIDCacheKey(contentID), 0, -1).Hit?
  {
    StoredIsThere(mac, w, log + env.third, ContentStored(contentID));
    ProtectedVerifies(mac, w.contents[contentID]);
  }

  /**
    What was read once is read from the cache the next time, if it could be
    stored and nothing happens in between: from the blob, or, where contents are
    cached one by one, from the blob or the content.
   */
  lemma ReadAgainIsHit(mac: Mac, w: World, full: bool, log: seq<Change>, contentID: string, blobID: string,
                       offset: int, length: int, env: Interference)
    requires KeysApart(w) && blobID != "" && contentID in w.contents && InRange(w, blobID, offset, length) && env.stored
    ensures var log' := ReadLog(mac, w, full, log, contentID, blobID, offset, length, env);
            || LookupAt(mac, w, log', BlobIDCacheKey(blobID), offset, length).Hit?
            || (!full && LookupAt(mac, w, log', ContentIDCacheKey(contentID), 0, -1).Hit?)
  {
    var at := log + env.first;
    var after := LookupLog(mac, w, at, BlobIDCacheKey(blobID), offset, length);
    if full {
      FetchedIsHit(mac, w, after, blobID, offset, length, env);
    } else {
      var again := LookupLog(mac, w, after + env.second, ContentIDCacheKey(contentID), 0, -1);
      StoredContentIsHit(mac, w, again, contentID, env);
    }
  }

  class ContentCacheImpl {
    const w: World
    const mac: Mac
    const fetchFullBlobs: bool
    var cache: Cache
    ghost var log: seq<Change> // all that has happened to the cache

    ghost predicate Valid()
      reads this
    {
      KeysApart(w) && cache == Replay(mac, w, log)
    }

    constructor (w: World, mac: Mac, fetchFullBlobs: bool)
      requires KeysApart(w)
      ensures Valid() && log == [] && this.w == w && this.mac == mac && this.fetchFullBlobs == fetchFullBlobs
    {
      this.w, this.mac, this.fetchFullBlobs, this.cache, this.log := w, mac, fetchFullBlobs, map[], [];
    }

    method Do(change: Change)
      requires Valid()
      modifies this
      ensures Valid() && log == old(log) + [change] && cache == Apply(mac, w, old(cache), change)
    {
      assert (log + [change])[..|log|] == log;
      cache := Apply(mac, w, cache, change);
      log := log + [change];
    }

    /** Other users of the cache, evictions and the storage it is kept in. */
    method Others(changes: seq<Change>)
      requires Valid()
      modifies this
      ensures Valid() && log == old(log) + changes
    {
      for i := 0 to |changes|
        invariant Valid() && log == old(log) + changes[..i]
      {
        Do(changes[i]);
      }
    }

    /** Looks up a range; an entry that fails verification is deleted. */
    method GetPartial(key: Key, offset: int, length: int) returns (hit: Lookup)
      requires Valid()
      modifies this
      ensures Valid() && log == LookupLog(mac, w, old(log), key, offset, length)
      ensures hit == LookupAt(mac, w, old(log), key, offset, length)
      ensures length < 0 ==> (hit.Hit? <==> key in cache)
      ensures length < 0 && hit.Hit? ==> Verifies(mac, cache[key]) && hit.data == cache[key][..|cache[key]| - OVERHEAD]
      ensures cache == if length < 0 && hit.Miss? then old(cache) - {key} else old(cache)
    {
      hit := CacheRead(mac, cache, key, offset, length);
      if key in cache && length < 0 && hit.Miss? {
        Do(Evicted(key));
      }
    }

    /** Reads the whole blob from storage and tries to cache it. */
    method FetchBlobInternal(blobID: string, env: Interference) returns (r: Result)
      requires Valid() && blobID != ""
      modifies this
      ensures Valid() && r == GetBlob(w.blobs, blobID, 0, -1) && log == FetchLog(w, old(log), blobID, env)
      ensures r.Ok? && env.stored ==> !Damaged(log, blobID) && BlobIDCacheKey(blobID) in cache
      ensures r.Ok? && env.stored ==> cache[BlobIDCacheKey(blobID)] == Protect(mac, w.blobs[blobID])
    {
      r := GetBlob(w.blobs, blobID, 0, -1);
      if r.Ok? {
        Others(env.third);
        if env.stored {
          Do(BlobStored(blobID));
        }
      }
    }

    /** Reads a range of a blob, fetching and caching the whole blob if it is not there. */
    method GetContentFromFullBlob(blobID: string, offset: int, length: int, env: Interference) returns (r: Result)
      requires Valid() && blobID != ""
      modifies this
      ensures Valid() && log == FullBlobLog(mac, w, old(log), blobID, offset, length, env)
      ensures LookupAt(mac, w, old(log) + env.first, BlobIDCacheKey(blobID), offset, length).Miss? ==>
                (r.Ok? <==> InRange(w, blobID, offset, length))
      ensures InRange(w, blobID, offset, length) ==>
                ReadIsRight(mac, w, old(log) + env.first, blobID, offset, length, r)
    {
      Others(env.first);
      if InRange(w, blobID, offset, length) {
        LookupDecides(mac, w, log, blobID, offset, length);
      }
      var hit := GetPartial(BlobIDCacheKey(blobID), offset, length);
      if hit.Hit? {
        return Ok(hit.data);
      }
      var whole := FetchBlobInternal(blobID, env);
      if whole.Error? || (offset == 0 && length == -1) {
        return whole;
      }
      if offset < 0 || length < 0 || offset + length > |whole.data| {
        return Error("invalid range");
      }
      r := Ok(whole.data[offset..offset + length]);
    }

    /** Reads a range of a blob from the cached blob, or from the cached content, or from storage. */
    method GetContentFromFullOrPartialBlob(contentID: string, blobID: string, offset: int, length: int,
                                           env: Interference)
      returns (r: Result)
      requires Valid() && blobID != "" && contentID in w.contents
      requires InRange(w, blobID, offset, length) ==>
                 GetBlob(w.blobs, blobID, offset, length) == Ok(w.contents[contentID])
      modifies this
      ensures log == PartialBlobLog(mac, w, old(log), contentID, blobID, offset, length, env)
      ensures InRange(w, blobID, offset, length) ==>
                Valid() && ReadIsRight(mac, w, old(log) + env.first, blobID, offset, length, r)
    {
      Others(env.first);
      if InRange(w, blobID, offset, length) {
        LookupDecides(mac, w, log, blobID, offset, length);
      }
      var hit := GetPartial(BlobIDCacheKey(blobID), offset, length);
      if hit.Hit? {
        return Ok(hit.data);
      }
      r := GetContentFromContent(contentID, blobID, offset, length, env);
    }

    /** ... when the cached blob did not answer. */
    method GetContentFromContent(contentID: string, blobID: string, offset: int, length: int, env: Interference)
      returns (r: Result)
      requires Valid() && contentID in w.contents
      requires InRange(w, blobID, offset, length) ==>
                 GetBlob(w.blobs, blobID, offset, length) == Ok(w.contents[contentID])
      modifies this
      ensures log == ContentLog(mac, w, old(log), contentID, blobID, offset, length, env)
      ensures InRange(w, blobID, offset, length) ==> Valid() && r == GetBlob(w.blobs, blobID, offset, length)
    {
      Others(env.second);
      ContentLookupIsRight(mac, w, log, contentID);
      var hit := GetPartial(ContentIDCacheKey(contentID), 0, -1);
      if hit.Hit? {
        return Ok(hit.data);
      }
      r := GetBlob(w.blobs, blobID, offset, length);
      if r.Ok? {
        Others(env.third);
        if env.stored {
          PutContent(contentID, r.data);
        }
      }
    }

    /** Caches what was read for a content. */
    method PutContent(contentID: string, data: Bytes)
      requires Valid() && contentID in w.contents
      modifies this
      ensures data == w.contents[contentID] ==> Valid()
      ensures log == old(log) + [ContentStored(contentID)]
      ensures cache == old(cache)[ContentIDCacheKey(contentID) := Protect(mac, data)]
    {
      assert (log + [ContentStored(contentID)])[..|log|] == log;
      cache := cache[ContentIDCacheKey(contentID) := Protect(mac, data)];
      log := log + [ContentStored(contentID)];
    }

    /**
      Returns what blob storage would for every request in range, whatever has
      happened to the cache: any fetches, prefetches, evictions and visible
      corruption, before the call and by others during it. Ranges of a blob are
      read without verification: they are right unless the cached blob was
      damaged since it was stored.
     */
    method GetContent(contentID: string, blobID: string, offset: int, length: int, env: Interference)
      returns (r: Result)
      requires Valid() && contentID in w.contents && blobID != ""
      requires InRange(w, blobID, offset, length) ==>
                 GetBlob(w.blobs, blobID, offset, length) == Ok(w.contents[contentID])
      modifies this
      ensures log == ReadLog(mac, w, fetchFullBlobs, old(log), contentID, blobID, offset, length, env)
      ensures Corrupted(log) <= Corrupted(old(log)) + CorruptedBy(env)
      ensures InRange(w, blobID, offset, length) ==>
                Valid() && ReadIsRight(mac, w, old(log) + env.first, blobID, offset, length, r)
      ensures InRange(w, blobID, offset, length) && blobID !in Corrupted(old(log)) + Corrupted(env.first) ==>
                r == GetBlob(w.blobs, blobID, offset, length)
    {
      CorruptedSplit(log, env.first);
      DamageNeedsCorruption(log + env.first, blobID);
      ReadAddsNoCorruption(mac, w, fetchFullBlobs, log, contentID, blobID, offset, length, env);
      if fetchFullBlobs {
        r := GetContentFromFullBlob(blobID, offset, length, env);
      } else {
        r := GetContentFromFullOrPartialBlob(contentID, blobID, offset, length, env);
      }
    }

    /** Makes sure the blob is in the cache, unless it cannot be stored; an undamaged entry is the blob. */
    method PrefetchBlob(blobID: string, env: Interference) returns (r: Result)
      requires Valid() && blobID != ""
      modifies this
      ensures Valid() && log == PrefetchLog(mac, w, old(log), blobID, env)
      ensures Corrupted(log) <= Corrupted(old(log)) + CorruptedBy(env)
      ensures r.Ok? && env.stored ==> BlobIDCacheKey(blobID) in cache
      ensures r.Error? ==> blobID !in w.blobs
      ensures blobID in w.blobs && !Damaged(log, blobID) ==> BlobIntact(mac, w, cache, blobID)
    {
      PrefetchAddsNoCorruption(mac, w, log, blobID, env);
      r := PrefetchIfAbsent(blobID, env);
      if blobID in w.blobs && !Damaged(log, blobID) {
        UndamagedIsIntact(mac, w, log, blobID);
      }
    }

    method PrefetchIfAbsent(blobID: string, env: Interference) returns (r: Result)
      requires Valid() && blobID != ""
      modifies this
      ensures Valid() && log == PrefetchLog(mac, w, old(log), blobID, env)
      ensures r.Ok? && env.stored ==> BlobIDCacheKey(blobID) in cache
      ensures r.Error? ==> blobID !in w.blobs
    {
      Others(env.first);
      var hit := GetPartial(BlobIDCacheKey(blobID), 0, 1);
      if hit.Hit? {
        return Ok([]);
      }
      Others(env.second);
      hit := GetPartial(BlobIDCacheKey(blobID), 0, 1);
      if hit.Hit? {
        return Ok([]);
      }
      r := FetchBlobInternal(blobID, env);
    }
  }

  // ---------- whole runs ----------

  /** A call, with what others do meanwhile, or what others do alone. */
  datatype Event =
    | Read(contentID: string, blobID: string, offset: int, length: int, env: Interference)
    | Prefetch(blobID: string, env: Interference)
    | Happens(changes: seq<Change>)

  /** Reads are in range, and content ids determine the bytes. */
  ghost predicate Proper(w: World, e: Event) {
    match e
    case Read(contentID, blobID, offset, length, _) =>
      && contentID in w.contents && blobID != "" && InRange(w, blobID, offset, length)
      && GetBlob(w.blobs, blobID, offset, length) == Ok(w.contents[contentID])
    case Prefetch(blobID, _) => blobID != ""
    case Happens(_) => true
  }

  /** What others do before the first access of an event. */
  ghost function Before(e: Event): seq<Change> {
    match e
    case Read(_, _, _, _, env) => env.first
    case Prefetch(_, env) => env.first
    case Happens(changes) => changes
  }

  ghost function CorruptedIn(e: Event): set<string> {
    if e.Happens? then Corrupted(e.changes) else CorruptedBy(e.env)
  }

  /** The blobs that some event has hit by corruption. */
  ghost function CorruptedInAll(events: seq<Event>): set<string> {
    if events == [] then {} else CorruptedInAll(events[..|events| - 1]) + CorruptedIn(events[|events| - 1])
  }

  ghost predicate Answered(mac: Mac, w: World, log: seq<Change>, e: Event, r: Result)
    requires KeysApart(w) && Proper(w, e)
  {
    e.Read? ==> ReadIsRight(mac, w, log, e.blobID, e.offset, e.length, r)
  }

  /** What an event adds to the history. */
  ghost function EventLog(mac: Mac, w: World, full: bool, log: seq<Change>, e: Event): seq<Change>
    requires KeysApart(w) && Proper(w, e)
  {
    match e
    case Read(contentID, blobID, offset, length, env) =>
      ReadLog(mac, w, full, log, contentID, blobID, offset, length, env)
    case Prefetch(blobID, env) => PrefetchLog(mac, w, log, blobID, env)
    case Happens(changes) => log + changes
  }

  ghost predicate AllProper(w: World, events: seq<Event>) {
    forall i :: 0 <= i < |events| ==> Proper(w, events[i])
  }

  /** All that has happened to the cache after the first n events. */
  ghost function RunLog(mac: Mac, w: World, full: bool, events: seq<Event>, n: nat): seq<Change>
    requires KeysApart(w) && AllProper(w, events) && n <= |events|
  {
    if n == 0 then [] else EventLog(mac, w, full, RunLog(mac, w, full, events, n - 1), events[n - 1])
  }

  /** ... and when event n looks at the cache. */
  ghost function LogAt(mac: Mac, w: World, full: bool, events: seq<Event>, n: nat): seq<Change>
    requires KeysApart(w) && AllProper(w, events) && n < |events|
  {
    RunLog(mac, w, full, events, n) + Before(events[n])
  }

  /** Only events corrupt. */
  lemma {:induction false} CorruptionSoFar(mac: Mac, w: World, full: bool, events: seq<Event>, n: nat)
    requires KeysApart(w) && AllProper(w, events) && n <= |events|
    ensures Corrupted(RunLog(mac, w, full, events, n)) <= CorruptedInAll(events[..n])
  {
    if n > 0 {
      var log, e := RunLog(mac, w, full, events, n - 1), events[n - 1];
      CorruptionSoFar(mac, w, full, events, n - 1);
      assert events[..n][..n - 1] == events[..n - 1];
      match e
      case Read(contentID, blobID, offset, length, env) =>
        ReadAddsNoCorruption(mac, w, full, log, contentID, blobID, offset, length, env);
      case Prefetch(blobID, env) => PrefetchAddsNoCorruption(mac, w, log, blobID, env);
      case Happens(changes) => CorruptedSplit(log, changes);
    }
  }

  /** A read whose blob no event so far has corrupted looks at an undamaged entry. */
  lemma CleanReadIsUndamaged(mac: Mac, w: World, full: bool, events: seq<Event>, n: nat)
    requires KeysApart(w) && AllProper(w, events) && n < |events| && events[n].Read?
    requires events[n].blobID !in CorruptedInAll(events[..n + 1])
    ensures !Damaged(LogAt(mac, w, full, events, n), events[n].blobID)
  {
    CorruptionSoFar(mac, w, full, events, n);
    CorruptedSplit(RunLog(mac, w, full, events, n), Before(events[n]));
    DamageNeedsCorruption(LogAt(mac, w, full, events, n), events[n].blobID);
    assert events[..n + 1][..n] == events[..n];
  }

  method Perform(cache: ContentCacheImpl, e: Event) returns (r: Result)
    requires cache.Valid() && Proper(cache.w, e)
    modifies cache
    ensures cache.Valid() && cache.log == EventLog(cache.mac, cache.w, cache.fetchFullBlobs, old(cache.log), e)
    ensures Answered(cache.mac, cache.w, old(cache.log) + Before(e), e, r)
  {
    match e
    case Read(contentID, blobID, offset, length, env) =>
      r := cache.GetContent(contentID, blobID, offset, length, env);
    case Prefetch(blobID, env) =>
      r := cache.PrefetchBlob(blobID, env);
    case Happens(changes) =>
      cache.Others(changes);
      r := Ok([]);
  }

  /**
    The answer to event i: for a read, that of storage, unless the cached blob
    was damaged since it was stored; so always if no event so far has corrupted
    the blob.
   */
  ghost predicate EventOk(mac: Mac, w: World, full: bool, events: seq<Event>, i: nat, r: Result)
    requires KeysApart(w) && AllProper(w, events) && i < |events|
  {
    var e := events[i];
    && Answered(mac, w, LogAt(mac, w, full, events, i), e, r)
    && (e.Read? && e.blobID !in CorruptedInAll(events[..i + 1]) ==>
          r == GetBlob(w.blobs, e.blobID, e.offset, e.length))
  }

  /** Event n, after the events before it. */
  method PerformNext(cache: ContentCacheImpl, events: seq<Event>, n: nat) returns (r: Result)
    requires cache.Valid() && AllProper(cache.w, events) && n < |events|
    requires cache.log == RunLog(cache.mac, cache.w, cache.fetchFullBlobs, events, n)
    modifies cache
    ensures cache.Valid() && cache.log == RunLog(cache.mac, cache.w, cache.fetchFullBlobs, events, n + 1)
    ensures EventOk(cache.mac, cache.w, cache.fetchFullBlobs, events, n, r)
  {
    if events[n].Read? && events[n].blobID !in CorruptedInAll(events[..n + 1]) {
      CleanReadIsUndamaged(cache.mac, cache.w, cache.fetchFullBlobs, events, n);
    }
    r := Perform(cache, events[n]);
  }

  ghost predicate EventsOk(mac: Mac, w: World, full: bool, events: seq<Event>, results: seq<Result>)
    requires KeysApart(w) && AllProper(w, events)
  {
    && |results| <= |events|
    && (results != [] ==>
          var n := |results| - 1;
          EventOk(mac, w, full, events, n, results[n]) && EventsOk(mac, w, full, events, results[..n]))
  }

  lemma {:induction false} EventsOkAt(mac: Mac, w: World, full: bool, events: seq<Event>, results: seq<Result>, i: nat)
    requires KeysApart(w) && AllProper(w, events) && EventsOk(mac, w, full, events, results) && i < |results|
    ensures EventOk(mac, w, full, events, i, results[i])
  {
    if i < |results| - 1 {
      EventsOkAt(mac, w, full, events, results[..|results| - 1], i);
    }
  }

  /** The first n events on a new cache. */
  method RunOn(cache: ContentCacheImpl, events: seq<Event>, n: nat) returns (results: seq<Result>)
    requires cache.Valid() && cache.log == [] && AllProper(cache.w, events) && n <= |events|
    modifies cache
    ensures cache.Valid() && cache.log == RunLog(cache.mac, cache.w, cache.fetchFullBlobs, events, n)
    ensures |results| == n && EventsOk(cache.mac, cache.w, cache.fetchFullBlobs, events, results)
  {
    if n == 0 {
      return [];
    }
    var front := RunOn(cache, events, n - 1);
    var r := PerformNext(cache, events, n - 1);
    results := front + [r];
    assert results[..n - 1] == front;
  }

  /**
    In every run of reads, prefetches, evictions and corruption, each event
    starting from the cache that the events before it left, every read is
    answered as by storage without a cache, unless the cached blob was damaged
    since it was stored.
   */
  method Run(w: World, mac: Mac, fetchFullBlobs: bool, events: seq<Event>) returns (results: seq<Result>)
    requires KeysApart(w) && AllProper(w, events)
    ensures |results| == |events|
    ensures forall i :: 0 <= i < |events| ==> EventOk(mac, w, fetchFullBlobs, events, i, results[i])
  {
    var cache := new ContentCacheImpl(w, mac, fetchFullBlobs);
    results := RunOn(cache, events, |events|);
    forall i | 0 <= i < |events|
      ensures EventOk(mac, w, fetchFullBlobs, events, i, results[i])
    {
      EventsOkAt(mac, w, fetchFullBlobs, events, results, i);
    }
  }
}
