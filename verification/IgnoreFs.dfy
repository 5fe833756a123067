/** Ignore rules: evaluation along a chain of contexts, and how contexts are built from policies and ignore files. */
module IgnoreFs {
  import opened Basics

  /** A rule with its compiled pattern; `!pattern` rules are negated, `pattern/` rules are for directories only. */
  datatype Rule = Rule(negated: bool, dirOnly: bool, pattern: string -> bool)

  predicate Hits(r: Rule, path: string, isDir: bool) {
    !(r.dirOnly && !isDir) && r.pattern(path)
  }

  /** WildcardMatcher.Match: for a negated rule, whether the path stays ignored. */
  function Match(r: Rule, path: string, isDir: bool): bool {
    if r.dirOnly && !isDir then r.negated else r.pattern(path) != r.negated
  }

  // ---------- the last matching rule wins ----------

  ghost predicate NoHit(rules: seq<Rule>, path: string, isDir: bool) {
    forall i :: 0 <= i < |rules| ==> !Hits(rules[i], path, isDir)
  }

  /** Rule k is the last that matches. */
  ghost predicate LastHit(rules: seq<Rule>, path: string, isDir: bool, k: int) {
    0 <= k < |rules| && Hits(rules[k], path, isDir) && forall i :: k < i < |rules| ==> !Hits(rules[i], path, isDir)
  }

  /** The last matching rule says so. */
  ghost predicate Ignored(rules: seq<Rule>, path: string, isDir: bool) {
    exists k :: LastHit(rules, path, isDir, k) && !rules[k].negated
  }

  /** One more rule: it decides if it matches. */
  lemma IgnoredAfter(rules: seq<Rule>, r: Rule, path: string, isDir: bool)
    ensures Ignored(rules + [r], path, isDir) <==>
              if Hits(r, path, isDir) then !r.negated else Ignored(rules, path, isDir)
  {
    var all := rules + [r];
    assert forall i :: 0 <= i < |rules| ==> all[i] == rules[i];
    if Hits(r, path, isDir) {
      assert LastHit(all, path, isDir, |rules|);
    } else if Ignored(rules, path, isDir) {
      var k :| LastHit(rules, path, isDir, k) && !rules[k].negated;
      assert LastHit(all, path, isDir, k);
    } else if Ignored(all, path, isDir) {
      var k :| LastHit(all, path, isDir, k) && !all[k].negated;
      assert LastHit(rules, path, isDir, k);
    }
  }

  /** More rules: they decide if one of them matches. */
  lemma {:induction false} IgnoredBelow(above: seq<Rule>, below: seq<Rule>, path: string, isDir: bool)
    ensures Ignored(above + below, path, isDir) <==>
              if NoHit(below, path, isDir) then Ignored(above, path, isDir) else Ignored(below, path, isDir)
    decreases |below|
  {
    if below == [] {
      assert above + below == above;
    } else {
      var n := |below| - 1;
      assert above + below == (above + below[..n]) + [below[n]] && below == below[..n] + [below[n]];
      IgnoredAfter(above + below[..n], below[n], path, isDir);
      IgnoredAfter(below[..n], below[n], path, isDir);
      if !Hits(below[n], path, isDir) {
        IgnoredBelow(above, below[..n], path, isDir);
        assert NoHit(below, path, isDir) <==> NoHit(below[..n], path, isDir);
      }
    }
  }

  /**
    A path is ignored exactly if some rule that is not negated has it, and no
    later rule does; rules for directories only do not count for files.
   */
  lemma IgnoredExactly(rules: seq<Rule>, path: string, isDir: bool)
    ensures Ignored(rules, path, isDir) <==>
              exists k ::
                && 0 <= k < |rules| && !rules[k].negated && rules[k].pattern(path) && (rules[k].dirOnly ==> isDir)
                && forall i :: k < i < |rules| ==> !(rules[i].pattern(path) && (rules[i].dirOnly ==> isDir))
  {
    if k :|
      && 0 <= k < |rules| && !rules[k].negated && rules[k].pattern(path) && (rules[k].dirOnly ==> isDir)
      && forall i :: k < i < |rules| ==> !(rules[i].pattern(path) && (rules[i].dirOnly ==> isDir)) {
      assert LastHit(rules, path, isDir, k);
    }
  }

  // ---------- combining lists of names ----------

  /** First occurrences, in order. */
  function Dedupe(s: seq<string>): seq<string> {
    if s == [] then []
    else
      var n := |s| - 1;
      var r := Dedupe(s[..n]);
      if s[n] in r then r else r + [s[n]]
  }

  /** The same names, each once. */
  lemma {:induction false} DedupeKeepsNames(s: seq<string>)
    ensures forall x :: x in Dedupe(s) <==> x in s
    ensures forall i, j :: 0 <= i < j < |Dedupe(s)| ==> Dedupe(s)[i] != Dedupe(s)[j]
  {
    if s != [] {
      var n := |s| - 1;
      DedupeKeepsNames(s[..n]);
      assert s == s[..n] + [s[n]];
    }
  }

  /** Names come in the order of their first occurrences: before the i-th come exactly those that occur before it. */
  lemma {:induction false} DedupeKeepsOrder(s: seq<string>, i: nat) returns (k: nat)
    requires i < |Dedupe(s)|
    ensures k < |s| && s[k] == Dedupe(s)[i] && s[k] !in s[..k]
    ensures forall x :: x in Dedupe(s)[..i] <==> x in s[..k]
  {
    var n := |s| - 1;
    var r := Dedupe(s[..n]);
    if i < |r| {
      k := DedupeKeepsOrder(s[..n], i);
      assert s[..n][..k] == s[..k] && Dedupe(s)[..i] == r[..i];
    } else {
      k := n;
      DedupeKeepsNames(s[..n]);
      assert Dedupe(s)[..i] == r;
    }
  }

  method CombineAndDedupe(a: seq<string>, b: seq<string>) returns (r: seq<string>)
    ensures r == Dedupe(a + b)
  {
    var all, existing: set<string> := a + b, {};
    r := [];
    for i := 0 to |all|
      invariant r == Dedupe(all[..i]) && forall x :: x in existing <==> x in r
    {
      assert all[..i + 1][..i] == all[..i];
      if all[i] in existing {
        continue;
      }
      existing := existing + {all[i]};
      r := r + [all[i]];
    }
    assert all[..|all|] == all;
  }

  /** Names that are there already add nothing. */
  lemma {:induction false} DedupeKnown(a: seq<string>, b: seq<string>)
    requires forall x :: x in b ==> x in a
    ensures Dedupe(a + b) == Dedupe(a)
    decreases |b|
  {
    if b == [] {
      assert a + b == a;
    } else {
      var n := |b| - 1;
      assert b[n] in b && b[n] in a;
      assert (a + b)[..|a + b| - 1] == a + b[..n];
      DedupeKnown(a, b[..n]);
      DedupeKeepsNames(a);
    }
  }

  lemma DedupeAgain(names: seq<string>)
    ensures Dedupe(names + names) == Dedupe(names) == Dedupe([] + names)
  {
    DedupeKnown(names, names);
    assert [] + names == names;
  }

  // ---------- contexts ----------

  datatype FilesPolicy = FilesPolicy(
    ignoreRules: seq<string>, noParentIgnoreRules: bool,
    dotIgnoreFiles: seq<string>, noParentDotIgnoreFiles: bool,
    maxFileSize: int, oneFileSystem: Option<bool>)

  /** The rules of a policy up to the first one that cannot be parsed. */
  function Compiled(compile: string -> Option<Rule>, lines: seq<string>): Option<seq<Rule>> {
    if lines == [] then Some([])
    else
      var n := |lines| - 1;
      match Compiled(compile, lines[..n])
      case None => None
      case Some(rules) =>
        match compile(lines[n])
        case None => None
        case Some(r) => Some(rules + [r])
  }

  /** Each line gives one rule, at its place. */
  lemma {:induction false} CompiledAt(compile: string -> Option<Rule>, lines: seq<string>)
    ensures Compiled(compile, lines).Some? <==> forall i :: 0 <= i < |lines| ==> compile(lines[i]).Some?
    ensures var rules := Compiled(compile, lines); rules.Some? ==>
              |rules.value| == |lines| && forall i :: 0 <= i < |lines| ==> compile(lines[i]) == Some(rules.value[i])
  {
    if lines != [] {
      var n := |lines| - 1;
      CompiledAt(compile, lines[..n]);
      assert forall i :: 0 <= i < n ==> lines[..n][i] == lines[i];
    }
  }

  /**
    The rules of the ignore files in a directory, in order; a name without a
    file is skipped, a file that cannot be parsed is an error.
   */
  function FileRules(files: map<string, Option<seq<Rule>>>, names: seq<string>): Option<seq<Rule>> {
    if names == [] then Some([])
    else
      var n := |names| - 1;
      var before := FileRules(files, names[..n]);
      if names[n] !in files then before
      else if before.None? || files[names[n]].None? then None
      else Some(before.value + files[names[n]].value)
  }

  /** A file gives its own rules, and files give theirs one after the other. */
  lemma {:induction false} FileRulesInOrder(files: map<string, Option<seq<Rule>>>, a: seq<string>, b: seq<string>)
    ensures var all, first, second := FileRules(files, a + b), FileRules(files, a), FileRules(files, b);
            && (all.Some? <==> first.Some? && second.Some?)
            && (all.Some? ==> all.value == first.value + second.value)
    ensures forall name :: FileRules(files, [name]) == if name in files then files[name] else Some([])
    decreases |b|
  {
    forall name
      ensures FileRules(files, [name]) == if name in files then files[name] else Some([])
    {
      assert [name][..0] == [] && FileRules(files, []) == Some([]);
      assert name in files && files[name].Some? ==> [] + files[name].value == files[name].value;
    }
    if b == [] {
      assert a + b == a;
    } else {
      var n := |b| - 1;
      FileRulesInOrder(files, a, b[..n]);
      assert (a + b)[..|a + b| - 1] == a + b[..n];
    }
  }

  ghost predicate AnyFile(files: map<string, Option<seq<Rule>>>, names: seq<string>) {
    exists i :: 0 <= i < |names| && names[i] in files
  }

  class IgnoreContext {
    const parent: IgnoreContext?
    var dotIgnoreFiles: seq<string>
    var matchers: seq<Rule>
    var maxFileSize: int
    var oneFileSystem: bool
    /** The contexts above this one. */
    ghost const above: set<IgnoreContext>

    ghost predicate Valid()
      decreases above
    {
      && this !in above
      && (parent == null ==> above == {})
      && (parent != null ==> parent in above && parent.above == above - {parent} && parent.Valid())
    }

    /** All rules, from the root to this context. */
    ghost function Rules(): seq<Rule>
      requires Valid()
      reads this, above
      decreases above
    {
      if parent == null then matchers else parent.Rules() + matchers
    }

    constructor (parent: IgnoreContext?, dotIgnoreFiles: seq<string>, maxFileSize: int, oneFileSystem: bool)
      requires parent != null ==> parent.Valid()
      ensures this.parent == parent && Valid() && matchers == []
      ensures this.dotIgnoreFiles == dotIgnoreFiles && this.maxFileSize == maxFileSize
      ensures this.oneFileSystem == oneFileSystem
    {
      this.parent, this.dotIgnoreFiles, this.maxFileSize, this.oneFileSystem :=
        parent, dotIgnoreFiles, maxFileSize, oneFileSystem;
      matchers := [];
      above := if parent == null then {} else parent.above + {parent};
    }

    /**
      Parents first, skipping the matchers that cannot change the outcome: still
      the last matching rule of the whole chain wins.
     */
    method ShouldIncludeByName(path: string, isDir: bool) returns (included: bool)
      requires Valid()
      ensures included <==> !Ignored(Rules(), path, isDir)
      ensures var rules := Rules();
              !included <==>
                exists k ::
                  && 0 <= k < |rules| && !rules[k].negated && rules[k].pattern(path) && (rules[k].dirOnly ==> isDir)
                  && forall i :: k < i < |rules| ==> !(rules[i].pattern(path) && (rules[i].dirOnly ==> isDir))
      decreases above
    {
      var shouldIgnore := false;
      ghost var rules: seq<Rule> := [];
      if parent != null {
        included := parent.ShouldIncludeByName(path, isDir);
        shouldIgnore := !included;
        rules := parent.Rules();
      }
      assert rules + matchers[..0] == rules;
      for i := 0 to |matchers|
        invariant shouldIgnore <==> Ignored(rules + matchers[..i], path, isDir)
      {
        var m := matchers[i];
        assert rules + matchers[..i + 1] == (rules + matchers[..i]) + [m];
        IgnoredAfter(rules + matchers[..i], m, path, isDir);
        if (!shouldIgnore && !m.negated) || (shouldIgnore && m.negated) {
          shouldIgnore := Match(m, path, isDir);
        }
      }
      assert rules + matchers[..|matchers|] == Rules();
      IgnoredExactly(Rules(), path, isDir);
      return !shouldIgnore;
    }

    /** Applies a policy to a context that is being built; fails on a rule that cannot be parsed. */
    method OverrideFromPolicy(fp: FilesPolicy, compile: string -> Option<Rule>) returns (ok: bool)
      modifies this
      ensures var inherited := if fp.noParentDotIgnoreFiles then [] else old(dotIgnoreFiles);
              dotIgnoreFiles == Dedupe(inherited + fp.dotIgnoreFiles)
      ensures maxFileSize == if fp.maxFileSize != 0 then fp.maxFileSize else old(maxFileSize)
      ensures oneFileSystem == (fp.oneFileSystem == Some(true))
      ensures ok <==> Compiled(compile, fp.ignoreRules).Some?
      ensures var kept := if fp.noParentIgnoreRules then [] else old(matchers);
              ok ==> matchers == kept + Compiled(compile, fp.ignoreRules).value
    {
      if fp.noParentDotIgnoreFiles {
        dotIgnoreFiles := [];
      }
      if fp.noParentIgnoreRules {
        matchers := [];
      }
      dotIgnoreFiles := CombineAndDedupe(dotIgnoreFiles, fp.dotIgnoreFiles);
      if fp.maxFileSize != 0 {
        maxFileSize := fp.maxFileSize;
      }
      oneFileSystem := fp.oneFileSystem == Some(true);
      ok := AppendRules(fp.ignoreRules, compile);
    }

    /** Appends the rules of a policy, up to the first one that cannot be parsed. */
    method AppendRules(lines: seq<string>, compile: string -> Option<Rule>) returns (ok: bool)
      modifies this`matchers
      ensures dotIgnoreFiles == old(dotIgnoreFiles) && maxFileSize == old(maxFileSize)
      ensures oneFileSystem == old(oneFileSystem)
      ensures ok <==> Compiled(compile, lines).Some?
      ensures ok ==> matchers == old(matchers) + Compiled(compile, lines).value
    {
      for i := 0 to |lines|
        invariant Compiled(compile, lines[..i]).Some? && matchers == old(matchers) + Compiled(compile, lines[..i]).value
      {
        assert lines[..i + 1][..i] == lines[..i];
        var m := compile(lines[i]);
        if m.None? {
          UncompiledStays(compile, lines, i + 1);
          return false;
        }
        matchers := matchers + [m.value];
      }
      assert lines[..|lines|] == lines;
      return true;
    }

    /** Appends the rules of the ignore files. */
    method LoadDotIgnoreFiles(files: map<string, Option<seq<Rule>>>, names: seq<string>) returns (ok: bool)
      modifies this`matchers
      ensures dotIgnoreFiles == old(dotIgnoreFiles) && maxFileSize == old(maxFileSize)
      ensures oneFileSystem == old(oneFileSystem)
      ensures ok <==> FileRules(files, names).Some?
      ensures ok ==> matchers == old(matchers) + FileRules(files, names).value
    {
      for i := 0 to |names|
        invariant FileRules(files, names[..i]).Some? && matchers == old(matchers) + FileRules(files, names[..i]).value
      {
        assert names[..i + 1][..i] == names[..i];
        if names[i] in files {
          if files[names[i]].None? {
            UnparsedStays(files, names, i + 1);
            return false;
          }
          matchers := matchers + files[names[i]].value;
        }
      }
      assert names[..|names|] == names;
      return true;
    }
  }

  lemma {:induction false} UncompiledStays(compile: string -> Option<Rule>, lines: seq<string>, i: nat)
    requires i <= |lines| && Compiled(compile, lines[..i]).None?
    ensures Compiled(compile, lines).None?
    decreases |lines|
  {
    if i == |lines| {
      assert lines[..i] == lines;
    } else {
      var front := lines[..|lines| - 1];
      assert front[..i] == lines[..i];
      UncompiledStays(compile, front, i);
    }
  }

  lemma {:induction false} UnparsedStays(files: map<string, Option<seq<Rule>>>, names: seq<string>, i: nat)
    requires i <= |names| && FileRules(files, names[..i]).None?
    ensures FileRules(files, names).None?
    decreases |names|
  {
    if i == |names| {
      assert names[..i] == names;
    } else {
      var front := names[..|names| - 1];
      assert front[..i] == names[..i];
      UnparsedStays(files, front, i);
    }
  }

  /** The ignore files to look for: the policy's own names, if there is one. */
  function EffectiveDotIgnoreFiles(inherited: seq<string>, policy: Option<FilesPolicy>): seq<string> {
    if policy.Some? then policy.value.dotIgnoreFiles else inherited
  }

  /** The rules a directory adds. */
  function OwnRules(inherited: seq<string>, policy: Option<FilesPolicy>, compile: string -> Option<Rule>,
                    files: map<string, Option<seq<Rule>>>): Option<seq<Rule>> {
    var fromPolicy := if policy.Some? then Compiled(compile, policy.value.ignoreRules) else Some([]);
    var fromFiles := FileRules(files, EffectiveDotIgnoreFiles(inherited, policy));
    if fromPolicy.None? || fromFiles.None? then None else Some(fromPolicy.value + fromFiles.value)
  }

  /** Ignore files come after the policy: where a rule of theirs matches, they decide. */
  lemma FilesOverridePolicy(inherited: seq<string>, policy: FilesPolicy, compile: string -> Option<Rule>,
                            files: map<string, Option<seq<Rule>>>, path: string, isDir: bool)
    requires OwnRules(inherited, Some(policy), compile, files).Some?
    ensures var own := OwnRules(inherited, Some(policy), compile, files).value;
            var fromPolicy := Compiled(compile, policy.ignoreRules);
            var fromFiles := FileRules(files, policy.dotIgnoreFiles);
            && fromPolicy.Some? && fromFiles.Some?
            && (Ignored(own, path, isDir) <==>
                  if exists i ::
                       && 0 <= i < |fromFiles.value| && fromFiles.value[i].pattern(path)
                       && (fromFiles.value[i].dirOnly ==> isDir)
                  then Ignored(fromFiles.value, path, isDir)
                  else Ignored(fromPolicy.value, path, isDir))
  {
    var fromPolicy, fromFiles := Compiled(compile, policy.ignoreRules), FileRules(files, policy.dotIgnoreFiles);
    IgnoredBelow(fromPolicy.value, fromFiles.value, path, isDir);
  }

  method FindDotIgnoreFiles(files: map<string, Option<seq<Rule>>>, names: seq<string>) returns (found: bool)
    ensures found <==> AnyFile(files, names)
  {
    found := false;
    for i := 0 to |names|
      invariant found <==> AnyFile(files, names[..i])
    {
      found := found || names[i] in files;
    }
    assert names[..|names|] == names;
  }

  /** A new context below the parent. */
  method NewContext(parent: IgnoreContext, names: seq<string>, policy: Option<FilesPolicy>,
                    compile: string -> Option<Rule>, files: map<string, Option<seq<Rule>>>)
      returns (r: IgnoreContext?)
    requires parent.Valid() && names == EffectiveDotIgnoreFiles(parent.dotIgnoreFiles, policy)
    ensures r == null <==> OwnRules(parent.dotIgnoreFiles, policy, compile, files).None?
    ensures r != null ==>
              fresh(r) && r.parent == parent && r.Valid() && Some(r.matchers) ==
                OwnRules(parent.dotIgnoreFiles, policy, compile, files)
    ensures r != null ==> Inherits(r, parent.dotIgnoreFiles, parent.maxFileSize, parent.oneFileSystem, policy)
  {
    var c := new IgnoreContext(parent, names, parent.maxFileSize, parent.oneFileSystem);
    if policy.Some? {
      DedupeAgain(names);
      var ok := c.OverrideFromPolicy(policy.value, compile);
      if !ok {
        return null;
      }
      assert c.matchers == Compiled(compile, policy.value.ignoreRules).value;
    }
    var ok := c.LoadDotIgnoreFiles(files, names);
    r := if ok then c else null;
  }

  /**
    Settings other than rules: a policy replaces the names of ignore files,
    whether or not it says to drop its parents'.
   */
  ghost predicate Inherits(c: IgnoreContext, dotIgnoreFiles: seq<string>, maxFileSize: int, oneFileSystem: bool,
                           policy: Option<FilesPolicy>)
    reads c
  {
    match policy
    case None => c.dotIgnoreFiles == dotIgnoreFiles && c.maxFileSize == maxFileSize && c.oneFileSystem == oneFileSystem
    case Some(fp) =>
      && c.dotIgnoreFiles == Dedupe(fp.dotIgnoreFiles)
      && c.maxFileSize == (if fp.maxFileSize != 0 then fp.maxFileSize else maxFileSize)
      && c.oneFileSystem == (fp.oneFileSystem == Some(true))
  }

  /**
    The context of a directory: its parent's rules and then its own, whether or
    not the policy says to drop its parents'.
   */
  method BuildContext(parent: IgnoreContext, policy: Option<FilesPolicy>, compile: string -> Option<Rule>,
                      files: map<string, Option<seq<Rule>>>)
      returns (r: IgnoreContext?)
    requires parent.Valid()
    ensures r == null <==> OwnRules(parent.dotIgnoreFiles, policy, compile, files).None?
    ensures r != null ==>
              r.Valid() && r.Rules() == parent.Rules() + OwnRules(parent.dotIgnoreFiles, policy, compile, files).value
    ensures r != null ==> Inherits(r, parent.dotIgnoreFiles, parent.maxFileSize, parent.oneFileSystem, policy)
  {
    var names := EffectiveDotIgnoreFiles(parent.dotIgnoreFiles, policy);
    var found := FindDotIgnoreFiles(files, names);
    if !found && policy.None? {
      NoFileNoRules(files, names);
      assert parent.Rules() + [] == parent.Rules();
      return parent;
    }
    r := NewContext(parent, names, policy, compile, files);
  }

  lemma {:induction false} NoFileNoRules(files: map<string, Option<seq<Rule>>>, names: seq<string>)
    requires !AnyFile(files, names)
    ensures FileRules(files, names) == Some([])
    decreases |names|
  {
    if names != [] {
      var n := |names| - 1;
      assert !(names[n] in files);
      assert forall i :: 0 <= i < n ==> names[..n][i] == names[i];
      NoFileNoRules(files, names[..n]);
    }
  }

  /**
    A policy that asks to drop its parents' rules is obeyed for a path exactly
    if one of its own rules matches the path or the parents do not ignore it.
   */
  lemma ParentRulesAreDroppedExactly(parents: seq<Rule>, own: seq<Rule>, path: string, isDir: bool)
    ensures (Ignored(parents + own, path, isDir) <==> Ignored(own, path, isDir)) <==>
              !NoHit(own, path, isDir) || !Ignored(parents, path, isDir)
  {
    IgnoredBelow(parents, own, path, isDir);
  }
}
