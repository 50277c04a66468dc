/**
 * The commit collection step of a release run: each commit message since the
 * last tag is trimmed and parsed; messages that are not conventional commits
 * are skipped with a warning; commits whose type is listed in the `ignore`
 * setting are meant to be excluded and counted.
 */
module Ignore {
  import opened Wrappers
  import opened Text
  import opened Commits

  /** The conventional commits among the messages, in message order. */
  ghost function ParsedCommits(messages: seq<string>): seq<Commit> {
    if messages == [] then []
    else
      var n := |messages| - 1;
      ParsedCommits(messages[..n]) + (match Conventional(TrimSpace(messages[n])) case Some(c) => [c] case None => [])
  }

  /** The ignore entries naming type kind (entries are lower-cased, the type is not). */
  function Hits(ignore: seq<string>, kind: string): nat {
    if ignore == [] then 0
    else
      var n := |ignore| - 1;
      Hits(ignore[..n], kind) + (if ToLower(ignore[n]) == kind then 1 else 0)
  }

  predicate Ignored(ignore: seq<string>, kind: string) {
    exists j :: 0 <= j < |ignore| && ToLower(ignore[j]) == kind
  }

  /** An entry names kind exactly when it is counted. */
  lemma {:induction false} HitsIgnored(ignore: seq<string>, kind: string)
    ensures Hits(ignore, kind) > 0 <==> Ignored(ignore, kind)
  {
    if ignore != [] {
      var n := |ignore| - 1;
      HitsIgnored(ignore[..n], kind);
      if Ignored(ignore[..n], kind) {
        var j :| 0 <= j < n && ToLower(ignore[..n][j]) == kind;
        assert ToLower(ignore[j]) == kind;
      }
      if Ignored(ignore, kind) && ToLower(ignore[n]) != kind {
        var j :| 0 <= j < |ignore| && ToLower(ignore[j]) == kind;
        assert ignore[..n][j] == ignore[j];
      }
    }
  }

  /** The counter of the loop as written: one per commit and matching entry. */
  function HitCount(commits: seq<Commit>, ignore: seq<string>): nat {
    if commits == [] then 0
    else
      var n := |commits| - 1;
      HitCount(commits[..n], ignore) + Hits(ignore, commits[n].kind)
  }

  /** The commits whose type no entry names, in order. */
  function Kept(commits: seq<Commit>, ignore: seq<string>): seq<Commit> {
    if commits == [] then []
    else
      var n := |commits| - 1;
      Kept(commits[..n], ignore) + (if Ignored(ignore, commits[n].kind) then [] else [commits[n]])
  }

  /** The number of commits some entry names. */
  function Excluded(commits: seq<Commit>, ignore: seq<string>): nat {
    if commits == [] then 0
    else
      var n := |commits| - 1;
      Excluded(commits[..n], ignore) + (if Ignored(ignore, commits[n].kind) then 1 else 0)
  }

  /** Each commit is either kept or excluded, and kept commits are exactly the unnamed ones. */
  lemma {:induction false} KeptPartition(commits: seq<Commit>, ignore: seq<string>)
    ensures |Kept(commits, ignore)| + Excluded(commits, ignore) == |commits|
    ensures forall c :: c in Kept(commits, ignore) <==> c in commits && !Ignored(ignore, c.kind)
  {
    if commits != [] {
      var n := |commits| - 1;
      KeptPartition(commits[..n], ignore);
      assert commits == commits[..n] + [commits[n]];
    }
  }

  // ---------------------------------------------------------------------------
  // The loop as written

  /** The inner loop as written: its `continue` leaves the inner loop only, so it just counts. */
  method CountHits(ignore: seq<string>, kind: string) returns (hits: nat)
    ensures hits == Hits(ignore, kind)
  {
    hits := 0;
    for i := 0 to |ignore|
      invariant hits == Hits(ignore[..i], kind)
    {
      assert ignore[..i + 1][..i] == ignore[..i];
      if ToLower(ignore[i]) == kind {
        hits := hits + 1;
        continue;
      }
    }
    assert ignore[..|ignore|] == ignore;
  }

  /** The collection loop as written: every parsed commit is appended, ignored or not. */
  method CollectAsWritten(messages: seq<string>, ignore: seq<string>)
    returns (conventionals: seq<Commit>, excluded: nat)
    ensures conventionals == ParsedCommits(messages)
    ensures excluded == HitCount(conventionals, ignore)
  {
    conventionals := [];
    excluded := 0;
    for i := 0 to |messages|
      invariant conventionals == ParsedCommits(messages[..i])
      invariant excluded == HitCount(conventionals, ignore)
    {
      ParsedSnoc(messages, i);
      var conv := ParseCommit(TrimSpace(messages[i]));
      if conv.Some? {
        var hits := CountHits(ignore, conv.value.kind);
        excluded := excluded + hits;
        HitCountSnoc(conventionals, conv.value, ignore);
        conventionals := conventionals + [conv.value];
      }
    }
    assert messages[..|messages|] == messages;
  }

  /** A `fix` commit with `fix` ignored: it is counted as excluded and still released. */
  lemma IgnoredStillKept()
    ensures ParsedCommits(["fix: a"]) == [Commit("fix", "", "a", "", false)]
    ensures HitCount(ParsedCommits(["fix: a"]), ["fix"]) == 1
    ensures Ignored(["fix"], "fix")
  {
    var m := ["fix: a"];
    var c := Commit("fix", "", "a", "", false);
    assert Conventional(TrimSpace(m[0])) == Some(c) by {
      TrimSpaceOfTrimmed("fix: a");
      TestSimpleCommit();
    }
    ParsedSnoc(m, 0);
    assert m[..1] == m && m[..0] == [];
    HitsFix();
    assert [c][..0] == [];
  }

  lemma HitsFix()
    ensures Hits(["fix"], "fix") == 1 && Ignored(["fix"], "fix")
  {
    assert ToLower("fix") == "fix";
    assert ["fix"][..0] == [];
    assert ToLower(["fix"][0]) == "fix";
  }

  /** Duplicate entries count a commit twice. */
  lemma DuplicateEntriesCountTwice(c: Commit)
    requires c.kind == "fix"
    ensures HitCount([c], ["fix", "FIX"]) == 2
  {
    assert ToLower("fix") == "fix" && ToLower("FIX") == "fix";
    assert [c][..0] == [];
    assert ["fix", "FIX"][..1] == ["fix"];
    assert ["fix"][..0] == [];
  }

  // ---------------------------------------------------------------------------
  // The loop as evidently intended

  /** Whether some entry names kind; the search stops at the first one. */
  method IsIgnored(ignore: seq<string>, kind: string) returns (found: bool)
    ensures found <==> Ignored(ignore, kind)
  {
    found := false;
    var i := 0;
    while i < |ignore|
      invariant 0 <= i <= |ignore|
      invariant forall j :: 0 <= j < i ==> ToLower(ignore[j]) != kind
    {
      if ToLower(ignore[i]) == kind {
        return true;
      }
      i := i + 1;
    }
  }

  /** The collection loop with the ignored commits left out and counted once each. */
  method Collect(messages: seq<string>, ignore: seq<string>)
    returns (conventionals: seq<Commit>, excluded: nat)
    ensures conventionals == Kept(ParsedCommits(messages), ignore)
    ensures excluded == Excluded(ParsedCommits(messages), ignore)
  {
    conventionals := [];
    excluded := 0;
    for i := 0 to |messages|
      invariant conventionals == Kept(ParsedCommits(messages[..i]), ignore)
      invariant excluded == Excluded(ParsedCommits(messages[..i]), ignore)
    {
      ParsedSnoc(messages, i);
      var conv := ParseCommit(TrimSpace(messages[i]));
      if conv.Some? {
        KeptSnoc(ParsedCommits(messages[..i]), conv.value, ignore);
        var skip := IsIgnored(ignore, conv.value.kind);
        if skip {
          excluded := excluded + 1;
          continue;
        }
        conventionals := conventionals + [conv.value];
      }
    }
    assert messages[..|messages|] == messages;
  }

  lemma ParsedSnoc(messages: seq<string>, i: nat)
    requires i < |messages|
    ensures Conventional(TrimSpace(messages[i])).None? ==> ParsedCommits(messages[..i + 1]) == ParsedCommits(messages[..i])
    ensures Conventional(TrimSpace(messages[i])).Some? ==>
              ParsedCommits(messages[..i + 1]) == ParsedCommits(messages[..i]) + [Conventional(TrimSpace(messages[i])).value]
  {
    assert messages[..i + 1][..i] == messages[..i];
  }

  lemma HitCountSnoc(commits: seq<Commit>, c: Commit, ignore: seq<string>)
    ensures HitCount(commits + [c], ignore) == HitCount(commits, ignore) + Hits(ignore, c.kind)
  {
    assert (commits + [c])[..|commits|] == commits;
  }

  lemma KeptSnoc(commits: seq<Commit>, c: Commit, ignore: seq<string>)
    ensures Kept(commits + [c], ignore) == Kept(commits, ignore) + (if Ignored(ignore, c.kind) then [] else [c])
    ensures Excluded(commits + [c], ignore) == Excluded(commits, ignore) + (if Ignored(ignore, c.kind) then 1 else 0)
  {
    assert (commits + [c])[..|commits|] == commits;
  }

  /** The corrected loop accounts for every parsed commit and releases none that is ignored. */
  lemma CollectAccounts(messages: seq<string>, ignore: seq<string>)
    ensures |Kept(ParsedCommits(messages), ignore)| + Excluded(ParsedCommits(messages), ignore) == |ParsedCommits(messages)|
    ensures forall c :: c in Kept(ParsedCommits(messages), ignore) ==> c in ParsedCommits(messages) && !Ignored(ignore, c.kind)
    ensures forall c :: c in ParsedCommits(messages) && !Ignored(ignore, c.kind) ==> c in Kept(ParsedCommits(messages), ignore)
  {
    KeptPartition(ParsedCommits(messages), ignore);
  }

  /** With the fix, the ignored `fix` commit is left out and counted once. */
  lemma IgnoredLeftOut()
    ensures Kept(ParsedCommits(["fix: a"]), ["fix"]) == []
    ensures Excluded(ParsedCommits(["fix: a"]), ["fix"]) == 1
  {
    IgnoredStillKept();
    var c := Commit("fix", "", "a", "", false);
    assert [c][..0] == [];
  }
}
