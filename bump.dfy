/**
 * The version-bump rule engine of main.go: rule values are read by
 * semverFromString, and determineBump folds the commits into a running
 * severity that never goes down.
 *
 * A rule map sends a rule name to a severity name. The rule called "bang"
 * gives the severity of breaking commits; every other rule name is a commit
 * type. The map is walked in an order chosen by the method (Go's map order is
 * unspecified); the result does not depend on it.
 */
module Bump {
  import opened Text
  import opened Commits

  /** SemVerComponent, in its declared order. */
  datatype SemVerComponent = NoBump | Patch | Minor | Major

  /** The iota value of each component: `>` between components is `>` between ranks. */
  function Rank(v: SemVerComponent): nat {
    match v
    case NoBump => 0
    case Patch => 1
    case Minor => 2
    case Major => 3
  }

  /** The key of each severity in the semverString table. */
  function Name(v: SemVerComponent): string
    requires v != NoBump
  {
    match v
    case Patch => "patch"
    case Minor => "minor"
    case Major => "major"
  }

  /** semverFromString: trimmed, case-insensitive lookup, NoBump for anything else. */
  function SemVerFromString(n: string): (v: SemVerComponent)
    ensures v != NoBump ==> TrimSpace(ToLower(n)) == Name(v)
    ensures v == NoBump ==> forall w :: w != NoBump ==> TrimSpace(ToLower(n)) != Name(w)
  {
    var key := TrimSpace(ToLower(n));
    if key == "patch" then Patch
    else if key == "minor" then Minor
    else if key == "major" then Major
    else NoBump
  }

  /** The table's own keys read back to their severities. */
  lemma SemVerFromName(v: SemVerComponent)
    requires v != NoBump
    ensures SemVerFromString(Name(v)) == v
  {
    assert ToLower(Name(v)) == Name(v);
    TrimSpaceOfTrimmed(Name(v));
  }

  lemma SemVerFromPadded()
    ensures SemVerFromString(" Major\t") == Major
    ensures SemVerFromString("majors") == NoBump
  {
    var n := " Major\t";
    assert ToLower(n) == " major\t";
    assert TrimLeft(" major\t") == "major\t" by {
      assert " major\t"[1..] == "major\t";
    }
    assert TrimRight("major\t") == "major" by {
      assert "major\t"[..5] == "major";
    }
    assert ToLower("majors") == "majors";
  }

  // ---------------------------------------------------------------------------
  // The specification of determineBump

  /** The severity of the "bang" rule, NoBump when there is none. */
  function BangLevel(rules: map<string, string>): SemVerComponent {
    if "bang" in rules then SemVerFromString(rules["bang"]) else NoBump
  }

  /** Some type rule with severity v names the commit type, compared case-insensitively. */
  predicate Matches(rules: map<string, string>, v: SemVerComponent, kind: string) {
    exists name :: name in rules && name != "bang" && SemVerFromString(rules[name]) == v && ToLower(name) == ToLower(kind)
  }

  /**
   * compLoop: the first of Major, Minor, Patch that is not below the running
   * severity and has a rule naming the type; the running severity otherwise.
   * That is the larger of the running severity and the highest matching group.
   */
  function TypeBump(rules: map<string, string>, t: SemVerComponent, kind: string): SemVerComponent {
    if Matches(rules, Major, kind) then Major
    else if Rank(t) <= Rank(Minor) && Matches(rules, Minor, kind) then Minor
    else if Rank(t) <= Rank(Patch) && Matches(rules, Patch, kind) then Patch
    else t
  }

  /** compLoop computes the larger of the running severity and the highest group naming the type. */
  lemma TypeBumpIsMax(rules: map<string, string>, t: SemVerComponent, kind: string)
    ensures var r := TypeBump(rules, t, kind);
      && Rank(r) >= Rank(t)
      && (r == t || Matches(rules, r, kind))
      && (forall v :: v != NoBump && Matches(rules, v, kind) ==> Rank(r) >= Rank(v))
  {
  }

  /**
   * One commit of the loop: a breaking commit, when a bang rule exists and its
   * severity is above the running one, raises it to exactly that severity and
   * skips type matching; otherwise the type decides.
   */
  function Step(rules: map<string, string>, t: SemVerComponent, c: Commit): SemVerComponent {
    if c.bang && "bang" in rules && Rank(BangLevel(rules)) > Rank(t) then BangLevel(rules)
    else TypeBump(rules, t, c.kind)
  }

  /**
   * A step never lowers the severity, lands on what the commit calls for
   * when it raises it, and a breaking commit under a bang rule reaches at
   * least the bang severity.
   */
  lemma StepBounds(rules: map<string, string>, t: SemVerComponent, c: Commit)
    ensures var r := Step(rules, t, c);
      && Rank(r) >= Rank(t)
      && (r == t || Causes(rules, c, r))
      && (c.bang && "bang" in rules ==> Rank(r) >= Rank(BangLevel(rules)))
      && (forall v :: v != NoBump && Matches(rules, v, c.kind) && !(c.bang && "bang" in rules) ==> Rank(r) >= Rank(v))
  {
    TypeBumpIsMax(rules, t, c.kind);
  }

  /** The commit calls for severity r: by the bang rule, or by a type rule. */
  predicate Causes(rules: map<string, string>, c: Commit, r: SemVerComponent) {
    (c.bang && "bang" in rules && BangLevel(rules) == r) || Matches(rules, r, c.kind)
  }

  /** The severity after all the commits, examined in order from NoBump. */
  function Bumped(rules: map<string, string>, commits: seq<Commit>): SemVerComponent {
    if commits == [] then NoBump
    else Step(rules, Bumped(rules, commits[..|commits| - 1]), commits[|commits| - 1])
  }

  /** One more commit is one more step. */
  lemma BumpedSnoc(rules: map<string, string>, commits: seq<Commit>, i: nat)
    requires i < |commits|
    ensures Bumped(rules, commits[..i + 1]) == Step(rules, Bumped(rules, commits[..i]), commits[i])
  {
    assert commits[..i + 1][..i] == commits[..i];
  }

  /** The running severity never decreases from one commit to the next. */
  lemma {:induction false} BumpedMonotone(rules: map<string, string>, commits: seq<Commit>, i: nat)
    requires i <= |commits|
    ensures Rank(Bumped(rules, commits[..i])) <= Rank(Bumped(rules, commits))
    decreases |commits| - i
  {
    if i < |commits| {
      var n := |commits|;
      BumpedMonotone(rules, commits[..n - 1], i);
      assert commits[..n - 1][..i] == commits[..i];
      StepBounds(rules, Bumped(rules, commits[..n - 1]), commits[n - 1]);
    } else {
      assert commits[..i] == commits;
    }
  }

  /** Once the running severity is Major, later commits change nothing. */
  lemma {:induction false} MajorAbsorbs(rules: map<string, string>, commits: seq<Commit>, i: nat)
    requires i <= |commits| && Bumped(rules, commits[..i]) == Major
    ensures Bumped(rules, commits) == Major
  {
    BumpedMonotone(rules, commits, i);
  }

  predicate NamedBy(rules: map<string, string>, commits: seq<Commit>, r: SemVerComponent) {
    exists k :: 0 <= k < |commits| && Causes(rules, commits[k], r)
  }

  /**
   * The result is NoBump, or a severity that a rule names: the bang rule for
   * some breaking commit, or a type rule for some commit's type.
   */
  lemma {:induction false} BumpedNamed(rules: map<string, string>, commits: seq<Commit>)
    ensures Bumped(rules, commits) == NoBump || NamedBy(rules, commits, Bumped(rules, commits))
  {
    if commits != [] {
      var n := |commits|;
      var pre := commits[..n - 1];
      BumpedNamed(rules, pre);
      var r := Bumped(rules, commits);
      StepBounds(rules, Bumped(rules, pre), commits[n - 1]);
      if r != NoBump && r == Bumped(rules, pre) {
        var k :| 0 <= k < |pre| && Causes(rules, pre[k], r);
        assert commits[k] == pre[k];
      }
    }
  }

  /** A breaking commit under a bang rule ends with at least the bang severity. */
  lemma {:induction false} BreakingAtLeastBang(rules: map<string, string>, commits: seq<Commit>, k: nat)
    requires k < |commits| && commits[k].bang && "bang" in rules
    ensures Rank(Bumped(rules, commits)) >= Rank(BangLevel(rules))
  {
    BumpedMonotone(rules, commits, k + 1);
    BumpedSnoc(rules, commits, k);
    StepBounds(rules, Bumped(rules, commits[..k]), commits[k]);
  }

  /** A commit whose type a rule names ends with at least that rule's severity. */
  lemma {:induction false} TypedAtLeastRule(rules: map<string, string>, commits: seq<Commit>, k: nat, v: SemVerComponent)
    requires k < |commits| && v != NoBump && Matches(rules, v, commits[k].kind)
    requires !(commits[k].bang && "bang" in rules)
    ensures Rank(Bumped(rules, commits)) >= Rank(v)
  {
    BumpedMonotone(rules, commits, k + 1);
    BumpedSnoc(rules, commits, k);
    StepBounds(rules, Bumped(rules, commits[..k]), commits[k]);
  }

  /**
   * The bang branch skips type matching: with a minor bang rule, a breaking
   * `feat` commit is a minor bump even though `feat` is a major rule.
   */
  lemma BangShadowsType()
    ensures Step(map["bang" := "minor", "feat" := "major"], NoBump, Commit("feat", "", "x", "", true)) == Minor
  {
    var rules := map["bang" := "minor", "feat" := "major"];
    assert SemVerFromString("minor") == Minor by { SemVerFromName(Minor); }
  }

  // ---------------------------------------------------------------------------
  // determineBump

  /** What the components map holds after the rules in done have been filed. */
  ghost predicate Filed(rules: map<string, string>, done: set<string>, components: map<SemVerComponent, seq<string>>) {
    && (forall v | v in components :: forall j :: 0 <= j < |components[v]| ==>
          components[v][j] in done && components[v][j] in rules && components[v][j] != "bang"
          && SemVerFromString(rules[components[v][j]]) == v)
    && (forall name | name in done && name in rules && name != "bang" ::
          SemVerFromString(rules[name]) in components && name in components[SemVerFromString(rules[name])])
  }

  /** Filing one more type rule appends its name to the group of its severity. */
  lemma FileOne(rules: map<string, string>, done: set<string>, components: map<SemVerComponent, seq<string>>, name: string)
    requires Filed(rules, done, components) && name in rules && name != "bang"
    ensures var k := SemVerFromString(rules[name]);
      var existing := if k in components then components[k] else [];
      Filed(rules, done + {name}, components[k := existing + [name]])
  {
    var k := SemVerFromString(rules[name]);
    var existing := if k in components then components[k] else [];
    var after := components[k := existing + [name]];
    forall v | v in after
      ensures forall j :: 0 <= j < |after[v]| ==>
        after[v][j] in done + {name} && after[v][j] in rules && after[v][j] != "bang"
        && SemVerFromString(rules[after[v][j]]) == v
    {
      if v == k {
        forall j | 0 <= j < |after[v]|
          ensures after[v][j] in done + {name} && after[v][j] in rules && after[v][j] != "bang"
            && SemVerFromString(rules[after[v][j]]) == v
        {
          if j < |existing| {
            assert after[v][j] == components[v][j];
          }
        }
      }
    }
    forall n | n in done + {name} && n in rules && n != "bang"
      ensures SemVerFromString(rules[n]) in after && n in after[SemVerFromString(rules[n])]
    {
      if n == name {
        assert after[k][|existing|] == name;
      } else if SemVerFromString(rules[n]) == k {
        var j :| 0 <= j < |components[k]| && components[k][j] == n;
        assert after[k][j] == n;
      }
    }
  }

  /** Filing the bang rule leaves the groups as they are. */
  lemma FileBang(rules: map<string, string>, done: set<string>, components: map<SemVerComponent, seq<string>>)
    requires Filed(rules, done, components)
    ensures Filed(rules, done + {"bang"}, components)
  {
  }

  /** In a complete filing, a group's names match a type exactly when some rule of that severity does. */
  lemma FiledMatches(rules: map<string, string>, components: map<SemVerComponent, seq<string>>, v: SemVerComponent, kind: string)
    requires Filed(rules, rules.Keys, components)
    ensures Matches(rules, v, kind) ==> v in components
    ensures v in components ==>
      (Matches(rules, v, kind) <==> exists j :: 0 <= j < |components[v]| && ToLower(components[v][j]) == ToLower(kind))
  {
    if Matches(rules, v, kind) {
      var name :| name in rules && name != "bang" && SemVerFromString(rules[name]) == v && ToLower(name) == ToLower(kind);
      assert name in components[v];
    }
  }

  /** The first loop of determineBump: the bang severity, and the type rules filed by severity. */
  method FileRules(rules: map<string, string>) returns (bang: SemVerComponent, components: map<SemVerComponent, seq<string>>)
    ensures bang == BangLevel(rules)
    ensures Filed(rules, rules.Keys, components)
  {
    bang := NoBump;
    components := map[];
    var pending := rules.Keys;
    while pending != {}
      invariant pending <= rules.Keys
      invariant bang == if "bang" in pending || "bang" !in rules then NoBump else BangLevel(rules)
      invariant Filed(rules, rules.Keys - pending, components)
      decreases |pending|
    {
      var ruleName :| ruleName in pending;
      ghost var done := rules.Keys - pending;
      pending := pending - {ruleName};
      assert rules.Keys - pending == done + {ruleName};
      if ruleName == "bang" {
        FileBang(rules, done, components);
        bang := SemVerFromString(rules[ruleName]);
        continue;
      }
      FileOne(rules, done, components, ruleName);
      var k := SemVerFromString(rules[ruleName]);
      var existing := if k in components then components[k] else [];
      components := components[k := existing + [ruleName]];
    }
  }

  /** determineBump: the rules are filed by severity, then the commits are folded, stopping at Major. */
  method DetermineBump(rules: map<string, string>, commits: seq<Commit>) returns (toBump: SemVerComponent)
    ensures toBump == Bumped(rules, commits)
  {
    var hasBang := "bang" in rules;
    var bang, components := FileRules(rules);
    toBump := NoBump;
    var i := 0;
    while i < |commits|
      invariant 0 <= i <= |commits|
      invariant toBump == Bumped(rules, commits[..i])
    {
      if toBump == Major {
        MajorAbsorbs(rules, commits, i);
        break;
      }
      BumpedSnoc(rules, commits, i);
      toBump := Consider(rules, hasBang, bang, components, toBump, commits[i]);
      i := i + 1;
    }
    if i == |commits| {
      assert commits[..i] == commits;
    }
  }

  /** The body of the commit loop: the bang branch, or else compLoop. */
  method Consider(rules: map<string, string>, hasBang: bool, bang: SemVerComponent,
                  components: map<SemVerComponent, seq<string>>, t: SemVerComponent, r: Commit)
    returns (toBump: SemVerComponent)
    requires hasBang == ("bang" in rules) && bang == BangLevel(rules)
    requires Filed(rules, rules.Keys, components)
    ensures toBump == Step(rules, t, r)
  {
    if r.bang && hasBang {
      if Rank(bang) > Rank(t) {
        return bang;
      }
    }
    toBump := MatchType(rules, components, t, r.kind);
  }

  /** compLoop: the groups are tried Major, Minor, Patch; groups below the running severity are skipped. */
  method MatchType(rules: map<string, string>, components: map<SemVerComponent, seq<string>>, t: SemVerComponent, kind: string)
    returns (toBump: SemVerComponent)
    requires Filed(rules, rules.Keys, components)
    ensures toBump == TypeBump(rules, t, kind)
  {
    toBump := t;
    var prefix := ToLower(kind);
    var comps := [Major, Minor, Patch];
    var j := 0;
    while j < |comps|
      invariant 0 <= j <= |comps| && toBump == t
      invariant forall m :: 0 <= m < j ==> Rank(t) > Rank(comps[m]) || !Matches(rules, comps[m], kind)
    {
      var v := comps[j];
      FiledMatches(rules, components, v, kind);
      if v !in components {
        j := j + 1;
        continue;
      }
      if Rank(toBump) > Rank(v) {
        j := j + 1;
        continue;
      }
      var found := NamesType(components[v], prefix);
      if found {
        toBump := v;
        break;
      }
      j := j + 1;
    }
    assert comps[0] == Major && comps[1] == Minor && comps[2] == Patch;
  }

  /** The innermost loop: does some rule name of the group lower-case to the type? */
  method NamesType(prefixes: seq<string>, prefix: string) returns (found: bool)
    ensures found <==> exists j :: 0 <= j < |prefixes| && ToLower(prefixes[j]) == prefix
  {
    var k := 0;
    while k < |prefixes|
      invariant 0 <= k <= |prefixes|
      invariant forall m :: 0 <= m < k ==> ToLower(prefixes[m]) != prefix
    {
      if ToLower(prefixes[k]) == prefix {
        return true;
      }
      k := k + 1;
    }
    return false;
  }
}
