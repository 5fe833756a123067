/** Authorization: the default access entries, and what was allowed before there were any. */
module Authz {
  import opened Basics
  import opened Acl

  const ANY_USER := "*@*"

  const CONTENT_RULE: Labels := map["type" := "content"]

  const DEFAULT_ACLS: seq<Entry> :=
    [
      Entry(ANY_USER, CONTENT_RULE, APPEND),
      Entry(ANY_USER, map["type" := "policy", "policyType" := "global"], READ),
      Entry(ANY_USER, map["type" := "policy", "policyType" := "host", "hostname" := OWN_HOST], READ),
      Entry(ANY_USER, map["type" := "policy", "username" := OWN_USER, "hostname" := OWN_HOST], FULL),
      Entry(ANY_USER, map["type" := "snapshot", "username" := OWN_USER, "hostname" := OWN_HOST], FULL),
      Entry(ANY_USER, map["type" := "user", "username" := OWN_USER + "@" + OWN_HOST], FULL)
    ]

  lemma AnybodyMatches(username: string, hostname: string)
    ensures UserMatches(ANY_USER, username, hostname)
  {
    assert IsRule(ANY_USER, "*", "*");
    UserMatchesExactly(ANY_USER, username, hostname);
  }

  /** Values that are too short for a placeholder, or as long but none, stand for themselves. */
  lemma ShortIsPlain(v: string, username: string, hostname: string)
    requires |v| <= 8 && v != OWN_USER && v != OWN_HOST
    ensures Substituted(v, username, hostname) == v
  {
    assert |v| == 8 ==> v[..8] == v && v == [v[0]] + v[1..];
    assert ReplaceAll(v, OWN_USER, username) == v;
    assert ReplaceAll(v, OWN_HOST, hostname) == v;
  }

  /** Nothing is replaced before a character that cannot be part of it. */
  lemma {:induction false} ReplaceAllSkips(a: string, c: char, b: string, from: string, to: string)
    requires from != "" && c !in from && !Occurs(from, a)
    ensures ReplaceAll(a + [c] + b, from, to) == a + [c] + ReplaceAll(b, from, to)
  {
    var s := a + [c] + b;
    if |s| >= |from| {
      assert |a| < |from| ==> s[..|from|][|a|] == c;
      assert |a| >= |from| ==> a[0..][..|from|] == s[..|from|];
      if a == "" {
        assert s[1..] == b;
      } else {
        assert s[1..] == a[1..] + [c] + b;
        assert |a| >= |from| ==> a[..|from|] == s[..|from|];
        OccursLater(from, a);
        ReplaceAllSkips(a[1..], c, b, from, to);
      }
    }
  }

  lemma ReplaceAllAtStart(from: string, rest: string, to: string)
    requires from != ""
    ensures ReplaceAll(from + rest, from, to) == to + ReplaceAll(rest, from, to)
  {
    var s := from + rest;
    assert s[..|from|] == from && s[|from|..] == rest;
  }

  lemma AtIsKept(a: string, b: string, from: string, to: string)
    requires from != "" && '@' !in from && !Occurs(from, a)
    ensures ReplaceAll(a + "@" + b, from, to) == a + "@" + ReplaceAll(b, from, to)
  {
    ReplaceAllSkips(a, '@', b, from, to);
    assert a + "@" + b == a + ['@'] + b;
  }

  lemma OwnAccountIsUserAtHost(username: string, hostname: string)
    requires !Occurs(OWN_HOST, username)
    ensures Substituted(OWN_USER + "@" + OWN_HOST, username, hostname) == username + "@" + hostname
  {
    OwnHostIsHost(username, hostname);
    ReplaceAllAtStart(OWN_USER, "@" + OWN_HOST, username);
    AtIsKept("", OWN_HOST, OWN_USER, username);
    assert OWN_USER + "@" + OWN_HOST == OWN_USER + ("@" + OWN_HOST);
    assert username + ("@" + OWN_HOST) == username + "@" + OWN_HOST;
    AtIsKept(username, OWN_HOST, OWN_HOST, hostname);
  }

  /** A missing label counts as an empty one. */
  ghost predicate Has(target: Labels, k: string, v: string) {
    (if k in target then target[k] else "") == v
  }

  lemma ContentEntry(username: string, hostname: string, target: Labels)
    ensures Grants(DEFAULT_ACLS[0], username, hostname, target) <==> Has(target, "type", "content")
  {
    AnybodyMatches(username, hostname);
    ShortIsPlain("content", username, hostname);
    assert DEFAULT_ACLS[0].target["type"] == "content";
  }

  lemma GlobalPolicyEntry(username: string, hostname: string, target: Labels)
    ensures Grants(DEFAULT_ACLS[1], username, hostname, target) <==>
              Has(target, "type", "policy") && Has(target, "policyType", "global")
  {
    AnybodyMatches(username, hostname);
    ShortIsPlain("policy", username, hostname);
    ShortIsPlain("global", username, hostname);
    var rule := DEFAULT_ACLS[1].target;
    assert rule["type"] == "policy" && rule["policyType"] == "global";
  }

  lemma HostPolicyEntry(username: string, hostname: string, target: Labels)
    ensures Grants(DEFAULT_ACLS[2], username, hostname, target) <==>
              Has(target, "type", "policy") && Has(target, "policyType", "host") && Has(target, "hostname", hostname)
  {
    AnybodyMatches(username, hostname);
    ShortIsPlain("policy", username, hostname);
    ShortIsPlain("host", username, hostname);
    OwnHostIsHost(username, hostname);
    var rule := DEFAULT_ACLS[2].target;
    assert rule["type"] == "policy" && rule["policyType"] == "host" && rule["hostname"] == OWN_HOST;
  }

  lemma OwnRule(kind: string, username: string, hostname: string, target: Labels)
    requires !Occurs(OWN_HOST, username) && |kind| <= 8 && kind != OWN_USER && kind != OWN_HOST
    ensures TargetMatches(map["type" := kind, "username" := OWN_USER, "hostname" := OWN_HOST], target, username,
                          hostname) <==>
              Has(target, "type", kind) && Has(target, "username", username) && Has(target, "hostname", hostname)
  {
    ShortIsPlain(kind, username, hostname);
    OwnUserIsUserExactly(username, hostname);
    OwnHostIsHost(username, hostname);
    var rule := map["type" := kind, "username" := OWN_USER, "hostname" := OWN_HOST];
    assert rule["type"] == kind && rule["username"] == OWN_USER && rule["hostname"] == OWN_HOST;
  }

  lemma OwnEntries(username: string, hostname: string, target: Labels)
    requires !Occurs(OWN_HOST, username)
    ensures Grants(DEFAULT_ACLS[3], username, hostname, target) <==>
              Has(target, "type", "policy") && Has(target, "username", username) && Has(target, "hostname", hostname)
    ensures Grants(DEFAULT_ACLS[4], username, hostname, target) <==>
              Has(target, "type", "snapshot") && Has(target, "username", username) && Has(target, "hostname", hostname)
  {
    AnybodyMatches(username, hostname);
    OwnRule("policy", username, hostname, target);
    OwnRule("snapshot", username, hostname, target);
  }

  lemma AccountEntry(username: string, hostname: string, target: Labels)
    requires !Occurs(OWN_HOST, username)
    ensures Grants(DEFAULT_ACLS[5], username, hostname, target) <==>
              Has(target, "type", "user") && Has(target, "username", username + "@" + hostname)
  {
    AnybodyMatches(username, hostname);
    ShortIsPlain("user", username, hostname);
    OwnAccountIsUserAtHost(username, hostname);
    var rule := DEFAULT_ACLS[5].target;
    assert rule["type"] == "user" && rule["username"] == OWN_USER + "@" + OWN_HOST;
  }

  /** What the default entries let a user do, for every target. */
  ghost function DefaultLevel(username: string, hostname: string, target: Labels): AccessLevel {
    if Has(target, "type", "content") then APPEND
    else if Has(target, "type", "policy") then
      if Has(target, "username", username) && Has(target, "hostname", hostname) then FULL
      else if Has(target, "policyType", "global") then READ
      else if Has(target, "policyType", "host") && Has(target, "hostname", hostname) then READ
      else NONE
    else if Has(target, "type", "snapshot") then
      if Has(target, "username", username) && Has(target, "hostname", hostname) then FULL else NONE
    else if Has(target, "type", "user") && Has(target, "username", username + "@" + hostname) then FULL
    else NONE
  }

  lemma DefaultLevelIsHighest(username: string, hostname: string, target: Labels)
    requires !Occurs(OWN_HOST, username)
    ensures Level(DEFAULT_ACLS, username, hostname, target) == DefaultLevel(username, hostname, target)
  {
    ContentEntry(username, hostname, target);
    GlobalPolicyEntry(username, hostname, target);
    HostPolicyEntry(username, hostname, target);
    OwnEntries(username, hostname, target);
    AccountEntry(username, hostname, target);
    LevelIsHighest(DEFAULT_ACLS, username, hostname, target);
    var l := Level(DEFAULT_ACLS, username, hostname, target);
    if i :|
      0 <= i < |DEFAULT_ACLS| && Grants(DEFAULT_ACLS[i], username, hostname, target) && DEFAULT_ACLS[i].access == l {
      assert i == 0 || i == 1 || i == 2 || i == 3 || i == 4 || i == 5;
    }
  }

  // ---------- authorization without entries ----------

  predicate HasSuffix(s: string, suffix: string) {
    |suffix| <= |s| && s[|s| - |suffix|..] == suffix
  }

  function LegacyLevel(usernameAtHostname: string, labels: Labels): AccessLevel {
    var policy, kind := LabelOrEmpty(labels, "type") == "policy", LabelOrEmpty(labels, "policyType");
    if policy && kind == "global" then READ
    else if policy && kind == "host" && HasSuffix(usernameAtHostname, "@" + LabelOrEmpty(labels, "hostname")) then READ
    else if LabelOrEmpty(labels, "username") + "@" + LabelOrEmpty(labels, "hostname") == usernameAtHostname then FULL
    else NONE
  }

  /** A text with one '@' is made of its two parts in one way only. */
  lemma OneWayToJoin(a: string, b: string, username: string, hostname: string)
    requires '@' !in username && '@' !in hostname
    ensures a + "@" + b == username + "@" + hostname <==> a == username && b == hostname
    ensures HasSuffix(username + "@" + hostname, "@" + b) <==> b == hostname
  {
    var s, t := a + "@" + b, username + "@" + hostname;
    assert t[|username|] == '@' && forall i :: 0 <= i < |t| && t[i] == '@' ==> i == |username|;
    if s == t {
      assert s[|a|] == '@';
      assert s[..|a|] == a && t[..|username|] == username && s[|a| + 1..] == b && t[|username| + 1..] == hostname;
    }
    if HasSuffix(t, "@" + b) {
      assert t[|t| - 1 - |b|..][0] == '@';
      assert t[|t| - 1 - |b|..][1..] == b && t[|username| + 1..] == hostname;
    }
  }

  /**
    The default entries allow each user the same on snapshots and policies as
    was allowed without entries, except on policies that are the user's own and
    also marked global or for the host.
   */
  lemma DefaultIsLegacyExactly(username: string, hostname: string, target: Labels)
    requires '@' !in username && '@' !in hostname && !Occurs(OWN_HOST, username)
    requires Has(target, "type", "snapshot") || Has(target, "type", "policy")
    ensures Level(DEFAULT_ACLS, username, hostname, target) == LegacyLevel(username + "@" + hostname, target) <==>
              !(&& Has(target, "type", "policy")
                && Has(target, "username", username) && Has(target, "hostname", hostname)
                && (Has(target, "policyType", "global") || Has(target, "policyType", "host")))
  {
    DefaultLevelIsHighest(username, hostname, target);
    OneWayToJoin(LabelOrEmpty(target, "username"), LabelOrEmpty(target, "hostname"), username, hostname);
  }

  // ---------- authorizing a user ----------

  /** The level a user has on a manifest, given the entries of the repository. */
  method ManifestAccessLevel(usernameAtHostname: string, entries: seq<Entry>, labels: Labels)
    returns (level: AccessLevel)
    ensures (forall u, h :: !IsRule(usernameAtHostname, u, h)) ==> level == NONE
    ensures forall u, h :: IsRule(usernameAtHostname, u, h) ==>
              level == if entries == [] then LegacyLevel(usernameAtHostname, labels) else Level(entries, u, h, labels)
    ensures forall u, h :: IsRule(usernameAtHostname, u, h) && entries == DEFAULT_ACLS && !Occurs(OWN_HOST, u) ==>
              level == DefaultLevel(u, h, labels)
  {
    var parts := Split(usernameAtHostname, '@');
    SplitParts(usernameAtHostname, '@');
    forall u, h | IsRule(usernameAtHostname, u, h)
      ensures parts == [u, h]
    {
      SplitOnce(u, '@', h);
    }
    if |parts| != 2 {
      return NONE;
    }
    var u, h := parts[0], parts[1];
    assert IsRule(usernameAtHostname, u, h);
    if |entries| == 0 {
      return LegacyLevel(usernameAtHostname, labels);
    }
    var own := EntriesForUser(entries, u, h);
    FilterKeepsLevel(entries, u, h, labels);
    level := EffectivePermissions(u, h, labels, own);
    if entries == DEFAULT_ACLS && !Occurs(OWN_HOST, u) {
      DefaultLevelIsHighest(u, h, labels);
    }
  }
}
