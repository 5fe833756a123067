/** Access control entries: whom and what they match, the effective level, and adding an entry. */
module Acl {
  import opened Basics

  type ID = nat
  type AccessLevel = int

  const NONE: AccessLevel := 1
  const READ: AccessLevel := 2
  const APPEND: AccessLevel := 3
  const FULL: AccessLevel := 4

  datatype Entry = Entry(user: string, target: Labels, access: AccessLevel)

  // ---------- users ----------

  /** strings.Split: the parts between separators. */
  function Split(s: string, sep: char): (parts: seq<string>)
    ensures parts != []
  {
    if s == "" then [""]
    else
      var rest := Split(s[1..], sep);
      if s[0] == sep then [""] + rest else [[s[0]] + rest[0]] + rest[1..]
  }

  predicate MatchOrWildcard(rule: string, actual: string) {
    rule == "*" || rule == actual
  }

  predicate UserMatches(rule: string, username: string, hostname: string) {
    var parts := Split(rule, '@');
    |parts| == 2 && MatchOrWildcard(parts[0], username) && MatchOrWildcard(parts[1], hostname)
  }

  lemma {:induction false} SplitNowhere(s: string, sep: char)
    requires sep !in s
    ensures Split(s, sep) == [s]
  {
    if s != "" {
      SplitNowhere(s[1..], sep);
      assert [s[0]] + s[1..] == s;
    }
  }

  lemma {:induction false} SplitOnce(a: string, sep: char, b: string)
    requires sep !in a && sep !in b
    ensures Split(a + [sep] + b, sep) == [a, b]
  {
    var s := a + [sep] + b;
    if a == "" {
      assert s[1..] == b;
      SplitNowhere(b, sep);
    } else {
      assert s[1..] == a[1..] + [sep] + b;
      SplitOnce(a[1..], sep, b);
      assert [a[0]] + a[1..] == a;
    }
  }

  /** Joining the parts gives the text back, and no part has the separator. */
  lemma {:induction false} SplitParts(s: string, sep: char)
    ensures |Split(s, sep)| == 1 ==> sep !in s && Split(s, sep)[0] == s
    ensures var parts := Split(s, sep); |parts| == 2 ==>
              sep !in parts[0] && sep !in parts[1] && s == parts[0] + [sep] + parts[1]
  {
    if s != "" {
      SplitParts(s[1..], sep);
      assert s == [s[0]] + s[1..];
    }
  }

  /** The rule is one user and one host. */
  ghost predicate IsRule(rule: string, u: string, h: string) {
    '@' !in u && '@' !in h && rule == u + ['@'] + h
  }

  /** A rule matches exactly if it is one user and one host, each a wildcard or the actual one. */
  lemma UserMatchesExactly(rule: string, username: string, hostname: string)
    ensures UserMatches(rule, username, hostname) <==>
              exists u: string, h: string ::
                IsRule(rule, u, h) && (u == "*" || u == username) && (h == "*" || h == hostname)
  {
    SplitParts(rule, '@');
    if u: string, h: string :|
      IsRule(rule, u, h) && (u == "*" || u == username) && (h == "*" || h == hostname) {
      SplitOnce(u, '@', h);
    }
    var parts := Split(rule, '@');
    assert UserMatches(rule, username, hostname) ==> IsRule(rule, parts[0], parts[1]);
  }

  /** A rule is valid exactly if somebody can match it. */
  lemma RuleIsUsableExactly(rule: string)
    ensures |Split(rule, '@')| == 2 <==> exists username, hostname :: UserMatches(rule, username, hostname)
  {
    var parts := Split(rule, '@');
    if |parts| == 2 {
      assert UserMatches(rule, parts[0], parts[1]);
    }
  }

  // ---------- targets ----------

  const OWN_USER := "OWN_USER"
  const OWN_HOST := "OWN_HOST"

  /** strings.ReplaceAll for a non-empty text to replace. */
  function ReplaceAll(s: string, from: string, to: string): string
    requires from != ""
    decreases |s|
  {
    if |s| < |from| then s
    else if s[..|from|] == from then to + ReplaceAll(s[|from|..], from, to)
    else [s[0]] + ReplaceAll(s[1..], from, to)
  }

  function Substituted(v: string, username: string, hostname: string): string {
    ReplaceAll(ReplaceAll(v, OWN_USER, username), OWN_HOST, hostname)
  }

  predicate TargetMatches(rule: Labels, target: Labels, username: string, hostname: string) {
    forall k :: k in rule ==> LabelOrEmpty(target, k) == Substituted(rule[k], username, hostname)
  }

  ghost predicate Occurs(sub: string, s: string) {
    exists i :: 0 <= i <= |s| - |sub| && s[i..][..|sub|] == sub
  }

  lemma OccursLater(sub: string, s: string)
    requires s != "" && !(|sub| <= |s| && s[..|sub|] == sub)
    ensures Occurs(sub, s) <==> Occurs(sub, s[1..])
  {
    if Occurs(sub, s[1..]) {
      var i :| 0 <= i <= |s[1..]| - |sub| && s[1..][i..][..|sub|] == sub;
      assert s[i + 1..] == s[1..][i..];
    }
    if Occurs(sub, s) {
      var i :| 0 <= i <= |s| - |sub| && s[i..][..|sub|] == sub;
      assert i > 0 by {
        assert s[0..] == s;
      }
      assert s[1..][i - 1..] == s[i..];
    }
  }

  /** Replacing makes the text longer or shorter with the replacement. */
  lemma {:induction false} ReplaceAllLength(s: string, from: string, to: string)
    requires from != ""
    ensures |to| >= |from| ==> |ReplaceAll(s, from, to)| >= |s|
    ensures |to| <= |from| ==> |ReplaceAll(s, from, to)| <= |s|
    decreases |s|
  {
    if |s| >= |from| {
      if s[..|from|] == from {
        ReplaceAllLength(s[|from|..], from, to);
      } else {
        ReplaceAllLength(s[1..], from, to);
      }
    }
  }

  /** Replacing changes nothing exactly if there is nothing to replace or it is replaced by itself. */
  lemma {:induction false} ReplaceAllKeepsExactly(s: string, from: string, to: string)
    requires from != ""
    ensures ReplaceAll(s, from, to) == s <==> !Occurs(from, s) || to == from
    decreases |s|
  {
    if |s| >= |from| {
      if s[..|from|] == from {
        var rest := s[|from|..];
        assert s[0..][..|from|] == from;
        ReplaceAllLength(rest, from, to);
        ReplaceAllKeepsExactly(rest, from, to);
        assert s == from + rest;
        if ReplaceAll(s, from, to) == s {
          assert (to + ReplaceAll(rest, from, to))[..|from|] == to;
        }
      } else {
        OccursLater(from, s);
        ReplaceAllKeepsExactly(s[1..], from, to);
        assert s == [s[0]] + s[1..];
        assert ([s[0]] + ReplaceAll(s[1..], from, to))[1..] == ReplaceAll(s[1..], from, to);
      }
    }
  }

  /**
    The placeholder for the user stands for the user exactly if the name has no
    host placeholder in it that is then replaced.
   */
  lemma OwnUserIsUserExactly(username: string, hostname: string)
    ensures Substituted(OWN_USER, username, hostname) == username <==>
              !Occurs(OWN_HOST, username) || hostname == OWN_HOST
  {
    assert OWN_USER[..|OWN_USER|] == OWN_USER && OWN_USER[|OWN_USER|..] == "";
    assert ReplaceAll("", OWN_USER, username) == "";
    assert username + "" == username;
    ReplaceAllKeepsExactly(username, OWN_HOST, hostname);
  }

  /** The placeholder for the host stands for the host. */
  lemma OwnHostIsHost(username: string, hostname: string)
    ensures Substituted(OWN_HOST, username, hostname) == hostname
    ensures ReplaceAll(OWN_HOST, OWN_USER, username) == OWN_HOST && ReplaceAll(OWN_HOST, OWN_HOST, hostname) == hostname
  {
    assert OWN_HOST[..|OWN_HOST|] == OWN_HOST && OWN_HOST[|OWN_HOST|..] == "" && hostname + "" == hostname;
    assert OWN_HOST[4] != OWN_USER[4] && [OWN_HOST[0]] + OWN_HOST[1..] == OWN_HOST;
    assert ReplaceAll(OWN_HOST, OWN_USER, username) == OWN_HOST;
    assert ReplaceAll("", OWN_HOST, hostname) == "";
  }

  /** A rule without placeholders matches exactly the targets that have all its labels. */
  lemma PlainRuleMatchesExactly(rule: Labels, target: Labels, username: string, hostname: string)
    requires forall k :: k in rule ==> !Occurs(OWN_USER, rule[k]) && !Occurs(OWN_HOST, rule[k])
    ensures TargetMatches(rule, target, username, hostname) <==>
              forall k :: k in rule ==> (if k in target then target[k] else "") == rule[k]
  {
    forall k | k in rule
      ensures Substituted(rule[k], username, hostname) == rule[k]
    {
      ReplaceAllKeepsExactly(rule[k], OWN_USER, username);
      ReplaceAllKeepsExactly(rule[k], OWN_HOST, hostname);
    }
  }

  /** A rule for the own user matches exactly the targets of that user, unless the name has a host placeholder. */
  lemma OwnUserRuleMatchesExactly(k: string, target: Labels, username: string, hostname: string)
    requires !Occurs(OWN_HOST, username)
    ensures TargetMatches(map[k := OWN_USER], target, username, hostname) <==>
              (if k in target then target[k] else "") == username
  {
    OwnUserIsUserExactly(username, hostname);
    assert map[k := OWN_USER][k] == OWN_USER;
  }

  /** A rule for the own host matches exactly the targets of that host. */
  lemma OwnHostRuleMatchesExactly(k: string, target: Labels, username: string, hostname: string)
    ensures TargetMatches(map[k := OWN_HOST], target, username, hostname) <==>
              (if k in target then target[k] else "") == hostname
  {
    OwnHostIsHost(username, hostname);
    assert map[k := OWN_HOST][k] == OWN_HOST;
  }

  // ---------- levels ----------

  predicate Grants(e: Entry, username: string, hostname: string, target: Labels) {
    UserMatches(e.user, username, hostname) && TargetMatches(e.target, target, username, hostname)
  }

  /** The highest level granted, at least NONE. */
  function Level(entries: seq<Entry>, username: string, hostname: string, target: Labels): AccessLevel {
    if entries == [] then NONE
    else
      var e := entries[|entries| - 1];
      var l := Level(entries[..|entries| - 1], username, hostname, target);
      if Grants(e, username, hostname, target) && e.access > l then e.access else l
  }

  method EffectivePermissions(username: string, hostname: string, target: Labels, entries: seq<Entry>)
    returns (highest: AccessLevel)
    ensures highest == Level(entries, username, hostname, target)
  {
    highest := NONE;
    for i := 0 to |entries|
      invariant highest == Level(entries[..i], username, hostname, target)
    {
      assert entries[..i + 1][..i] == entries[..i];
      var e := entries[i];
      if !UserMatches(e.user, username, hostname) {
        continue;
      }
      if !TargetMatches(e.target, target, username, hostname) {
        continue;
      }
      if e.access > highest {
        highest := e.access;
      }
    }
    assert entries[..|entries|] == entries;
  }

  function FilterUser(entries: seq<Entry>, username: string, hostname: string): seq<Entry> {
    if entries == [] then []
    else
      var e := entries[|entries| - 1];
      var before := FilterUser(entries[..|entries| - 1], username, hostname);
      if UserMatches(e.user, username, hostname) then before + [e] else before
  }

  method EntriesForUser(entries: seq<Entry>, username: string, hostname: string) returns (result: seq<Entry>)
    ensures result == FilterUser(entries, username, hostname)
  {
    result := [];
    for i := 0 to |entries|
      invariant result == FilterUser(entries[..i], username, hostname)
    {
      assert entries[..i + 1][..i] == entries[..i];
      if UserMatches(entries[i].user, username, hostname) {
        result := result + [entries[i]];
      }
    }
    assert entries[..|entries|] == entries;
  }

  /** Filtering by user first never changes the level. */
  lemma {:induction false} FilterKeepsLevel(entries: seq<Entry>, username: string, hostname: string, target: Labels)
    ensures Level(FilterUser(entries, username, hostname), username, hostname, target) ==
              Level(entries, username, hostname, target)
  {
    if entries != [] {
      var n := |entries| - 1;
      var before := FilterUser(entries[..n], username, hostname);
      FilterKeepsLevel(entries[..n], username, hostname, target);
      assert (before + [entries[n]])[..|before|] == before;
    }
  }

  // ---------- the store ----------

  type Store = map<ID, Entry>

  /** The level of a store: the highest granted, at least NONE, in whatever order the entries are loaded. */
  ghost predicate IsLevel(s: Store, username: string, hostname: string, target: Labels, level: AccessLevel) {
    && level >= NONE
    && (forall id :: id in s && Grants(s[id], username, hostname, target) ==> s[id].access <= level)
    && (level == NONE || exists id :: id in s && Grants(s[id], username, hostname, target) && s[id].access == level)
  }

  /** Every store has a level. */
  lemma {:induction false} StoreHasLevel(s: Store, username: string, hostname: string, target: Labels)
    returns (l: AccessLevel)
    ensures IsLevel(s, username, hostname, target, l)
    decreases |s|
  {
    if s == map[] {
      l := NONE;
    } else {
      var id :| id in s;
      var rest := s - {id};
      l := StoreHasLevel(rest, username, hostname, target);
      if Grants(s[id], username, hostname, target) && s[id].access > l {
        l := s[id].access;
      }
      assert forall k :: k in s && k != id ==> k in rest && rest[k] == s[k];
    }
  }

  /** The loaded entries are those of the store, in some order. */
  ghost predicate Loads(s: Store, ids: seq<ID>, entries: seq<Entry>) {
    && |entries| == |ids|
    && (forall i :: 0 <= i < |ids| ==> ids[i] in s && entries[i] == s[ids[i]])
    && (forall id :: id in s ==> id in ids)
  }

  lemma {:induction false} LevelIsHighest(entries: seq<Entry>, username: string, hostname: string, target: Labels)
    ensures var l := Level(entries, username, hostname, target);
            && l >= NONE
            && (forall i :: 0 <= i < |entries| && Grants(entries[i], username, hostname, target) ==>
                  entries[i].access <= l)
            && (|| l == NONE
                || exists i ::
                  0 <= i < |entries| && Grants(entries[i], username, hostname, target) && entries[i].access == l)
  {
    if entries != [] {
      var n := |entries| - 1;
      LevelIsHighest(entries[..n], username, hostname, target);
      assert forall i :: 0 <= i < n ==> entries[..n][i] == entries[i];
    }
  }

  lemma LoadedLevelIsLevel(s: Store, ids: seq<ID>, entries: seq<Entry>, username: string, hostname: string,
                           target: Labels)
    requires Loads(s, ids, entries)
    ensures IsLevel(s, username, hostname, target, Level(entries, username, hostname, target))
  {
    LevelIsHighest(entries, username, hostname, target);
    forall id | id in s && Grants(s[id], username, hostname, target)
      ensures s[id].access <= Level(entries, username, hostname, target)
    {
      var i :| 0 <= i < |ids| && ids[i] == id;
      assert entries[i] == s[id];
    }
  }

  // ---------- validation ----------

  const TYPE_KEY := "type"

  /** The labels that each type of target may have besides its type. */
  const ALLOWED_LABELS: map<string, set<string>> :=
    map[
      "content" := {},
      "policy" := {"hostname", "username", "path", "policyType"},
      "snapshot" := {"hostname", "username", "path"},
      "user" := {"username"},
      "acl" := {}
    ]

  const POLICY_TYPES := {"global", "host", "user", "path"}

  predicate ValidLabel(typ: string, key: string, value: string)
    requires typ in ALLOWED_LABELS
  {
    key in ALLOWED_LABELS[typ] && if key == "policyType" then value in POLICY_TYPES else value != ""
  }

  predicate Validate(e: Entry) {
    && |Split(e.user, '@')| == 2
    && LabelOrEmpty(e.target, TYPE_KEY) != ""
    && e.target[TYPE_KEY] in ALLOWED_LABELS
    && (forall k :: k in e.target && k != TYPE_KEY ==> ValidLabel(e.target[TYPE_KEY], k, e.target[k]))
    && NONE <= e.access <= FULL
  }

  /** The labels besides the type that a target of each type may have. */
  ghost predicate OtherLabels(target: Labels, allowed: set<string>) {
    && target.Keys <= {"type"} + allowed
    && (forall k :: k in target && k != "policyType" ==> target[k] != "")
    && ("policyType" in target ==> target["policyType"] in {"global", "host", "user", "path"})
  }

  lemma ValidLabelsExactly(target: Labels, allowed: set<string>)
    requires "type" in target && target["type"] in ALLOWED_LABELS && allowed == ALLOWED_LABELS[target["type"]]
    requires target["type"] != ""
    ensures (forall k :: k in target && k != TYPE_KEY ==> ValidLabel(target["type"], k, target[k])) <==>
              OtherLabels(target, allowed)
  {
    if OtherLabels(target, allowed) {
      forall k | k in target && k != TYPE_KEY
        ensures ValidLabel(target["type"], k, target[k])
      {
        assert k in {"type"} + allowed;
      }
    }
  }

  /** Exactly which entries are accepted. */
  lemma ValidatedExactly(e: Entry)
    ensures Validate(e) <==>
              && (exists u, h :: IsRule(e.user, u, h))
              && (e.access == NONE || e.access == READ || e.access == APPEND || e.access == FULL)
              && "type" in e.target
              && (|| (e.target["type"] in {"content", "acl"} && OtherLabels(e.target, {}))
                  || (e.target["type"] == "user" && OtherLabels(e.target, {"username"}))
                  || (e.target["type"] == "snapshot" && OtherLabels(e.target, {"hostname", "username", "path"}))
                  || (&& e.target["type"] == "policy"
                      && OtherLabels(e.target, {"hostname", "username", "path", "policyType"})))
  {
    ValidUserExactly(e.user);
    if "type" in e.target && e.target["type"] in ALLOWED_LABELS {
      ValidLabelsExactly(e.target, ALLOWED_LABELS[e.target["type"]]);
    }
  }

  lemma ValidUserExactly(rule: string)
    ensures |Split(rule, '@')| == 2 <==> exists u, h :: IsRule(rule, u, h)
  {
    SplitParts(rule, '@');
    if u, h :| IsRule(rule, u, h) {
      SplitOnce(u, '@', h);
    }
    var parts := Split(rule, '@');
    assert |parts| == 2 ==> IsRule(rule, parts[0], parts[1]);
  }

  // ---------- adding an entry ----------

  datatype AddResult = Added(id: ID) | Invalid | AlreadyExists | DeleteFailed | WriteFailed

  /** The entry is for the same user rule and target rule. */
  predicate SameSubject(a: Entry, b: Entry) {
    a.user == b.user && a.target == b.target
  }

  /** At most one entry for each user rule and target rule. */
  ghost predicate Unique(s: Store) {
    forall i, j :: i in s && j in s && SameSubject(s[i], s[j]) ==> i == j
  }

  /** s1 is s0 without some of the entries that e replaces; without overwriting, only those of no higher level. */
  ghost predicate Cleared(s0: Store, e: Entry, overwrite: bool, s1: Store) {
    && s1.Keys <= s0.Keys && (forall id :: id in s1 ==> s1[id] == s0[id])
    && forall id :: id in s0 && id !in s1 ==> SameSubject(e, s0[id]) && (overwrite || s0[id].access <= e.access)
  }

  ghost predicate HigherExists(s: Store, e: Entry) {
    exists id :: id in s && SameSubject(e, s[id]) && e.access < s[id].access
  }

  ghost predicate SubjectExists(s: Store, e: Entry) {
    exists id :: id in s && SameSubject(e, s[id])
  }

  /** The store without all entries for the user rule and target rule of e. */
  ghost function Remaining(s: Store, e: Entry): Store {
    map id | id in s && !SameSubject(e, s[id]) :: s[id]
  }

  datatype ClearResult = AllGone | HigherFound | Stuck

  /** The entry is no longer in the way. */
  ghost predicate GoneAt(s0: Store, e: Entry, overwrite: bool, s1: Store, id: ID) {
    id in s0 && SameSubject(e, s0[id]) ==> id !in s1 && (overwrite || s0[id].access <= e.access)
  }

  ghost predicate ClearSpec(s0: Store, e: Entry, overwrite: bool, r: ClearResult, s1: Store) {
    match r
    case AllGone => s1 == Remaining(s0, e) && (overwrite || !HigherExists(s0, e))
    case HigherFound => !overwrite && HigherExists(s1, e)
    case Stuck => SubjectExists(s1, e)
  }

  /** What AddACL does to the store s0, by outcome. */
  ghost predicate AddSpec(s0: Store, e: Entry, overwrite: bool, r: AddResult, s1: Store) {
    match r
    case Invalid => s1 == s0 && !Validate(e)
    case AlreadyExists => Validate(e) && !overwrite && Cleared(s0, e, overwrite, s1) && HigherExists(s1, e)
    case DeleteFailed => Validate(e) && Cleared(s0, e, overwrite, s1) && SubjectExists(s1, e)
    case WriteFailed => Validate(e) && s1 == Remaining(s0, e) && (overwrite || !HigherExists(s0, e))
    case Added(id) =>
      Validate(e) && id !in s0 && s1 == Remaining(s0, e)[id := e] && (overwrite || !HigherExists(s0, e))
  }

  /** The ACL manifests of a repository; parameters say which storage operations work. */
  class Repository {
    var manifests: Store
    var nextID: ID

    ghost predicate Valid()
      reads this
    {
      forall id :: id in manifests ==> id < nextID
    }

    constructor ()
      ensures Valid() && manifests == map[]
    {
      manifests, nextID := map[], 0;
    }

    /** Entries known from an earlier load are not read again. */
    method LoadEntries(known: map<ID, Entry>) returns (ids: seq<ID>, entries: seq<Entry>)
      ensures forall i, j :: 0 <= i < j < |ids| ==> ids[i] != ids[j]
      ensures |entries| == |ids| && forall id :: id in ids <==> id in manifests
      ensures forall i :: 0 <= i < |ids| ==>
                ids[i] in manifests && entries[i] == if ids[i] in known then known[ids[i]] else manifests[ids[i]]
      ensures (forall id :: id in known && id in manifests ==> known[id] == manifests[id]) ==>
                Loads(manifests, ids, entries)
    {
      ids, entries := [], [];
      var rest := manifests.Keys;
      while rest != {}
        invariant rest <= manifests.Keys
        invariant forall i, j :: 0 <= i < j < |ids| ==> ids[i] != ids[j]
        invariant |entries| == |ids| && forall id :: id in ids <==> id in manifests && id !in rest
        invariant forall i :: 0 <= i < |ids| ==>
                    ids[i] in manifests && entries[i] == if ids[i] in known then known[ids[i]] else manifests[ids[i]]
        decreases rest
      {
        var id :| id in rest;
        rest := rest - {id};
        ids := ids + [id];
        entries := entries + [if id in known then known[id] else manifests[id]];
      }
    }

    /** The loop over the old entries; `deletes` says whether the k-th delete works. */
    method DeleteOld(e: Entry, overwrite: bool, ids: seq<ID>, entries: seq<Entry>, deletes: nat -> bool)
      returns (r: ClearResult)
      requires Loads(manifests, ids, entries) && forall i, j :: 0 <= i < j < |ids| ==> ids[i] != ids[j]
      modifies this`manifests
      ensures Cleared(old(manifests), e, overwrite, manifests) && ClearSpec(old(manifests), e, overwrite, r, manifests)
      ensures (forall k :: deletes(k)) ==>
                r == if !overwrite && HigherExists(old(manifests), e) then HigherFound else AllGone
    {
      var s0 := manifests;
      for i := 0 to |ids|
        invariant Cleared(s0, e, overwrite, manifests)
        invariant forall j :: i <= j < |ids| ==> ids[j] in manifests
        invariant forall j :: 0 <= j < i ==> GoneAt(s0, e, overwrite, manifests, ids[j])
      {
        if SameSubject(e, entries[i]) {
          if !overwrite && e.access < entries[i].access {
            return HigherFound;
          }
          if !deletes(i) {
            return Stuck;
          }
          manifests := manifests - {ids[i]};
        }
      }
      forall id | id in s0
        ensures GoneAt(s0, e, overwrite, manifests, id)
      {
        var i :| 0 <= i < |ids| && ids[i] == id;
      }
      assert manifests == Remaining(s0, e);
      return AllGone;
    }

    /** With working storage the entry is refused exactly if a higher one exists and overwriting was not asked for. */
    method AddACL(e: Entry, overwrite: bool, deletes: nat -> bool, puts: bool) returns (r: AddResult)
      requires Valid()
      modifies this
      ensures Valid() && AddSpec(old(manifests), e, overwrite, r, manifests)
      ensures Validate(e) && (forall k :: deletes(k)) ==>
                if !overwrite && HigherExists(old(manifests), e) then r == AlreadyExists
                else if puts then r.Added?
                else r == WriteFailed
    {
      if !Validate(e) {
        return Invalid;
      }
      var ids, entries := LoadEntries(map[]);
      var cleared := DeleteOld(e, overwrite, ids, entries, deletes);
      if cleared == HigherFound {
        return AlreadyExists;
      }
      if cleared == Stuck {
        return DeleteFailed;
      }
      if !puts {
        return WriteFailed;
      }
      manifests, nextID, r := manifests[nextID := e], nextID + 1, Added(nextID);
    }
  }

  // ---------- what adding means for access ----------

  /** What each outcome of adding means for the entries, one by one. */
  lemma AddOutcomes(s0: Store, e: Entry, overwrite: bool, r: AddResult, s1: Store)
    requires AddSpec(s0, e, overwrite, r, s1)
    ensures r.Invalid? <==> !Validate(e)
    ensures forall id :: id in s0 && (s0[id].user != e.user || s0[id].target != e.target) ==>
              id in s1 && s1[id] == s0[id]
    ensures forall id :: id in s1 ==> (id in s0 && s1[id] == s0[id]) || (r == Added(id) && s1[id] == e)
    ensures r.Invalid? ==> s1 == s0
    ensures r.Added? ==> r.id in s1 && r.id !in s0
    ensures r.Added? || r.WriteFailed? ==>
              forall id :: id in s0 && s0[id].user == e.user && s0[id].target == e.target ==>
                id !in s1 && (overwrite || s0[id].access <= e.access)
    ensures r.AlreadyExists? ==>
              && !overwrite
              && exists id :: id in s0 && id in s1 && s0[id].user == e.user && s0[id].target == e.target &&
                   e.access < s0[id].access
    ensures r.DeleteFailed? ==> exists id :: id in s0 && id in s1 && s0[id].user == e.user && s0[id].target == e.target
    ensures !overwrite ==> forall id :: id in s0 && s0[id].access > e.access ==> id in s1
  {
    match r
    case AlreadyExists =>
      var id :| id in s1 && SameSubject(e, s1[id]) && e.access < s1[id].access;
      assert id in s0;
    case DeleteFailed =>
      var id :| id in s1 && SameSubject(e, s1[id]);
      assert id in s0;
    case _ =>
  }

  /** Every entry that grants the level l0 is for the user rule and target rule of e. */
  ghost predicate OnlySubjectGrants(s: Store, e: Entry, username: string, hostname: string, target: Labels,
                                    l0: AccessLevel) {
    forall id :: id in s && Grants(s[id], username, hostname, target) && s[id].access == l0 ==> SameSubject(e, s[id])
  }

  /** Taking away the old entries lowers a level exactly if nothing else grants it. */
  lemma RemainingLowersExactly(s0: Store, e: Entry, username: string, hostname: string, target: Labels,
                               l0: AccessLevel, l1: AccessLevel)
    requires IsLevel(s0, username, hostname, target, l0) && IsLevel(Remaining(s0, e), username, hostname, target, l1)
    ensures l1 <= l0
    ensures l1 < l0 <==> l0 > NONE && OnlySubjectGrants(s0, e, username, hostname, target, l0)
  {
    var s1 := Remaining(s0, e);
    if l0 > NONE && !OnlySubjectGrants(s0, e, username, hostname, target, l0) {
      var id :|
        id in s0 && Grants(s0[id], username, hostname, target) && s0[id].access == l0 && !SameSubject(e, s0[id]);
      assert id in s1;
    }
  }

  /**
    A failed write lowers a level exactly if every entry that granted it was for
    the user rule and target rule of e.
   */
  lemma FailedWriteLowersExactly(s0: Store, e: Entry, overwrite: bool, s1: Store, username: string, hostname: string,
                                 target: Labels, l0: AccessLevel, l1: AccessLevel)
    requires AddSpec(s0, e, overwrite, WriteFailed, s1)
    requires IsLevel(s0, username, hostname, target, l0) && IsLevel(s1, username, hostname, target, l1)
    ensures l1 < l0 <==> l0 > NONE && OnlySubjectGrants(s0, e, username, hostname, target, l0)
  {
    RemainingLowersExactly(s0, e, username, hostname, target, l0, l1);
  }

  /** A failed delete changes nothing if there was at most one entry to delete. */
  lemma FailedDeleteChangesNothing(s0: Store, e: Entry, overwrite: bool, s1: Store)
    requires AddSpec(s0, e, overwrite, DeleteFailed, s1) && Unique(s0)
    ensures s1 == s0
  {
    var k :| k in s1 && SameSubject(e, s1[k]);
    assert forall id :: id in s0 && SameSubject(e, s0[id]) ==> SameSubject(s0[id], s0[k]);
  }

  /** Every entry that grants the level l0 is gone from s1. */
  ghost predicate GrantsGone(s0: Store, s1: Store, username: string, hostname: string, target: Labels,
                             l0: AccessLevel) {
    forall id :: id in s0 && Grants(s0[id], username, hostname, target) && s0[id].access == l0 ==> id !in s1
  }

  lemma ClearedLowersExactly(s0: Store, e: Entry, overwrite: bool, s1: Store, username: string, hostname: string,
                             target: Labels, l0: AccessLevel, l1: AccessLevel)
    requires Cleared(s0, e, overwrite, s1)
    requires IsLevel(s0, username, hostname, target, l0) && IsLevel(s1, username, hostname, target, l1)
    ensures l1 <= l0
    ensures l1 < l0 <==> l0 > NONE && GrantsGone(s0, s1, username, hostname, target, l0)
  {
    if l0 > NONE && !GrantsGone(s0, s1, username, hostname, target, l0) {
      var id :| id in s0 && Grants(s0[id], username, hostname, target) && s0[id].access == l0 && id in s1;
    }
    if id :| id in s1 && Grants(s1[id], username, hostname, target) && s1[id].access == l1 {
      assert s0[id] == s1[id];
    }
  }

  /** A refusal deletes nothing that the higher entry does not outweigh. */
  lemma RefusalKeepsLevel(s0: Store, e: Entry, s1: Store, username: string, hostname: string, target: Labels,
                          l0: AccessLevel, l1: AccessLevel)
    requires AddSpec(s0, e, false, AlreadyExists, s1)
    requires IsLevel(s0, username, hostname, target, l0) && IsLevel(s1, username, hostname, target, l1)
    ensures l1 == l0
  {
    ClearedLowersExactly(s0, e, false, s1, username, hostname, target, l0, l1);
    var k :| k in s1 && SameSubject(e, s1[k]) && e.access < s1[k].access;
    if id :| id in s0 && Grants(s0[id], username, hostname, target) && s0[id].access == l0 {
      assert id in s1;
    }
  }

  /** After a success the level is the higher of what the other entries and the new one grant. */
  lemma AddedLevelExactly(s0: Store, e: Entry, overwrite: bool, r: AddResult, s1: Store,
                          username: string, hostname: string, target: Labels, others: AccessLevel, l1: AccessLevel)
    requires AddSpec(s0, e, overwrite, r, s1) && r.Added?
    requires IsLevel(Remaining(s0, e), username, hostname, target, others)
    requires IsLevel(s1, username, hostname, target, l1)
    ensures l1 == if Grants(e, username, hostname, target) && e.access > others then e.access else others
  {
    var rest := Remaining(s0, e);
    assert s1[r.id] == e && forall id :: id in rest ==> id in s1 && s1[id] == rest[id];
    if id :| id in s1 && Grants(s1[id], username, hostname, target) && s1[id].access == l1 {
      assert id == r.id || rest[id] == s1[id];
    }
  }

  /**
    Without overwriting, an entry adds its own level and takes nothing away: the
    new level is the higher of the two.
   */
  lemma AddedLevelWithoutOverwrite(s0: Store, e: Entry, r: AddResult, s1: Store, username: string, hostname: string,
                                   target: Labels, l0: AccessLevel, l1: AccessLevel)
    requires AddSpec(s0, e, false, r, s1) && r.Added?
    requires IsLevel(s0, username, hostname, target, l0) && IsLevel(s1, username, hostname, target, l1)
    ensures l1 == if Grants(e, username, hostname, target) && e.access > l0 then e.access else l0
  {
    var others := StoreHasLevel(Remaining(s0, e), username, hostname, target);
    AddedLevelExactly(s0, e, false, r, s1, username, hostname, target, others, l1);
    RemainingLowersExactly(s0, e, username, hostname, target, l0, others);
    if id :| id in s0 && Grants(s0[id], username, hostname, target) && s0[id].access == l0 {
      assert SameSubject(e, s0[id]) ==> Grants(e, username, hostname, target) && s0[id].access <= e.access;
    }
  }

  /** Exactly when adding lowers a level, unless a delete fails. */
  lemma AddLowersExactly(s0: Store, e: Entry, overwrite: bool, r: AddResult, s1: Store, username: string,
                         hostname: string, target: Labels, l0: AccessLevel, l1: AccessLevel)
    requires AddSpec(s0, e, overwrite, r, s1)
    requires IsLevel(s0, username, hostname, target, l0) && IsLevel(s1, username, hostname, target, l1)
    ensures !r.DeleteFailed? ==>
              (l1 < l0 <==>
                && l0 > NONE
                && OnlySubjectGrants(s0, e, username, hostname, target, l0)
                && (|| r.WriteFailed?
                    || (r.Added? && !(Grants(e, username, hostname, target) && e.access >= l0))))
    ensures r.DeleteFailed? && l1 < l0 ==> FailedDeleteCanLower(s0, e, overwrite, username, hostname, target, l0)
    ensures !overwrite && !r.WriteFailed? && !r.DeleteFailed? ==> l1 >= l0
  {
    var others := StoreHasLevel(Remaining(s0, e), username, hostname, target);
    RemainingLowersExactly(s0, e, username, hostname, target, l0, others);
    match r
    case Added(_) =>
      AddedLevelExactly(s0, e, overwrite, r, s1, username, hostname, target, others, l1);
      if !overwrite {
        AddedLevelWithoutOverwrite(s0, e, r, s1, username, hostname, target, l0, l1);
      }
    case WriteFailed =>
      FailedWriteLowersExactly(s0, e, overwrite, s1, username, hostname, target, l0, l1);
    case DeleteFailed =>
      if l1 < l0 {
        LoweredByFailedDelete(s0, e, overwrite, s1, username, hostname, target, l0, l1);
      }
    case AlreadyExists =>
      RefusalKeepsLevel(s0, e, s1, username, hostname, target, l0, l1);
    case Invalid =>
  }

  /**
    What to look for before the call: only entries to be deleted grant the
    level, and there is a lower one among them that a delete can fail on.
   */
  ghost predicate FailedDeleteCanLower(s0: Store, e: Entry, overwrite: bool, username: string, hostname: string,
                                       target: Labels, l0: AccessLevel) {
    && l0 > NONE && OnlySubjectGrants(s0, e, username, hostname, target, l0) && (overwrite || l0 <= e.access)
    && exists id :: id in s0 && SameSubject(e, s0[id]) && s0[id].access < l0
  }

  lemma LoweredByFailedDelete(s0: Store, e: Entry, overwrite: bool, s1: Store, username: string, hostname: string,
                              target: Labels, l0: AccessLevel, l1: AccessLevel)
    requires AddSpec(s0, e, overwrite, DeleteFailed, s1) && l1 < l0
    requires IsLevel(s0, username, hostname, target, l0) && IsLevel(s1, username, hostname, target, l1)
    ensures FailedDeleteCanLower(s0, e, overwrite, username, hostname, target, l0)
  {
    ClearedLowersExactly(s0, e, overwrite, s1, username, hostname, target, l0, l1);
    var top :| top in s0 && Grants(s0[top], username, hostname, target) && s0[top].access == l0;
    var k :| k in s1 && SameSubject(e, s1[k]);
    assert SameSubject(e, s0[top]) && s0[k] == s1[k] && Grants(s0[k], username, hostname, target);
  }

  /** Some failed delete lowers a level exactly if that was to be seen before the call. */
  lemma FailedDeleteLowersExactly(s0: Store, e: Entry, overwrite: bool, username: string, hostname: string,
                                  target: Labels, l0: AccessLevel)
    requires Validate(e) && IsLevel(s0, username, hostname, target, l0)
    ensures (exists s1, l1 ::
               && AddSpec(s0, e, overwrite, DeleteFailed, s1)
               && IsLevel(s1, username, hostname, target, l1) && l1 < l0) <==>
            FailedDeleteCanLower(s0, e, overwrite, username, hostname, target, l0)
  {
    if s1, l1 :|
      AddSpec(s0, e, overwrite, DeleteFailed, s1) && IsLevel(s1, username, hostname, target, l1) && l1 < l0 {
      LoweredByFailedDelete(s0, e, overwrite, s1, username, hostname, target, l0, l1);
    }
    if FailedDeleteCanLower(s0, e, overwrite, username, hostname, target, l0) {
      var s1: Store := map id | id in s0 && !(SameSubject(e, s0[id]) && s0[id].access == l0) :: s0[id];
      var k :| k in s0 && SameSubject(e, s0[k]) && s0[k].access < l0;
      assert k in s1;
      assert AddSpec(s0, e, overwrite, DeleteFailed, s1);
      var l1 := StoreHasLevel(s1, username, hostname, target);
      ClearedLowersExactly(s0, e, overwrite, s1, username, hostname, target, l0, l1);
    }
  }

  /** Whatever happens, nothing changes for what the entry does not match. */
  lemma OthersKeepLevel(s0: Store, e: Entry, overwrite: bool, r: AddResult, s1: Store, username: string,
                        hostname: string, target: Labels, l0: AccessLevel, l1: AccessLevel)
    requires AddSpec(s0, e, overwrite, r, s1) && !Grants(e, username, hostname, target)
    requires IsLevel(s0, username, hostname, target, l0) && IsLevel(s1, username, hostname, target, l1)
    ensures l1 == l0
  {
    var rest := if r.Added? then s1 - {r.id} else s1;
    if id0 :| id0 in s0 && Grants(s0[id0], username, hostname, target) && s0[id0].access == l0 {
      assert id0 in rest && s1[id0] == s0[id0];
    }
    if id1 :| id1 in s1 && Grants(s1[id1], username, hostname, target) && s1[id1].access == l1 {
      assert id1 in rest && s1[id1] == s0[id1];
    }
  }

  /** Adding keeps at most one entry for each user rule and target rule. */
  lemma AddKeepsUnique(s0: Store, e: Entry, overwrite: bool, r: AddResult, s1: Store)
    requires AddSpec(s0, e, overwrite, r, s1) && Unique(s0)
    ensures Unique(s1)
  {
    forall i, j | i in s1 && j in s1 && SameSubject(s1[i], s1[j])
      ensures i == j
    {
      if r.Added? && (i == r.id || j == r.id) {
        assert SameSubject(e, s1[i]) && SameSubject(e, s1[j]);
      } else {
        assert s1[i] == s0[i] && s1[j] == s0[j];
      }
    }
  }
}
