/**
 * Release notes, as formatCommit and makeReleaseText in main.go write them.
 *
 * The category map sends a commit type to a section title; the key `*`
 * stands for "every other commit". Go visits map keys in an unspecified
 * order, so the text is specified for a given visiting order of the keys
 * (`order`) and a given choice of category for each commit (`picks`), and
 * MakeReleaseText returns the ones it used.
 */
module Notes {
  import opened Wrappers
  import opened Text
  import opened Commits

  /** formatCommit: `- **scope**: description`, or `- description` without a scope. */
  function FormatCommit(c: Commit): (line: string)
    ensures HasPrefix(line, "- ")
  {
    if c.scope != "" then "- **" + c.scope + "**: " + c.description else "- " + c.description
  }

  /** The line makeReleaseText collects for a commit of no category: `- type(scope): description`. */
  function OtherLine(c: Commit): (line: string)
    ensures HasPrefix(line, "- " + c.kind)
  {
    if c.scope != "" then "- " + c.kind + "(" + c.scope + "): " + c.description
    else "- " + c.kind + ": " + c.description
  }

  /**
   * An other-commit line is the list marker and the commit's header without
   * its bang and body, and that header parses back to those parts.
   */
  lemma OtherLineIsHeader(c: Commit)
    requires ValidHeader(Commit(c.kind, c.scope, c.description, [], false))
    ensures OtherLine(c) == "- " + RenderHeader(Commit(c.kind, c.scope, c.description, [], false))
    ensures ParseHeader(OtherLine(c)[2..]) == Some(Commit(c.kind, c.scope, c.description, [], false))
  {
    var h := Commit(c.kind, c.scope, c.description, [], false);
    HeaderComplete(h);
    assert RenderBang(false) == [];
    if c.scope != "" {
      OtherScoped(c.kind, c.scope, c.description);
    } else {
      OtherBare(c.kind, c.description);
    }
    var text := RenderHeader(h);
    assert ("- " + text)[2..] == text;
  }

  lemma OtherScoped(kind: string, scope: string, description: string)
    ensures "- " + kind + "(" + scope + "): " + description
      == "- " + (kind + (("(" + scope + ")") + ([] + (": " + description))))
  {
    assert "): " == ")" + ": ";
    assert [] + (": " + description) == ": " + description;
  }

  lemma OtherBare(kind: string, description: string)
    ensures "- " + kind + ": " + description == "- " + (kind + ([] + ([] + (": " + description))))
  {
    assert [] + (": " + description) == ": " + description;
  }

  /** Reads a formatCommit line back into its scope and description. */
  function ReadLine(line: string): (string, string) {
    if HasPrefix(line, "- **") then
      var body := line[4..];
      var k := IndexOf(body, '*');
      IndexOfBounds(body, '*');
      (body[..k], if k + 4 <= |body| then body[k + 4..] else [])
    else ("", if |line| >= 2 then line[2..] else [])
  }

  /**
   * The line gives back scope and description as long as the scope has no
   * `*` and an unscoped description does not start with `**`.
   */
  lemma ReadFormat(c: Commit)
    requires '*' !in c.scope
    requires c.scope == "" ==> !HasPrefix(c.description, "**")
    ensures ReadLine(FormatCommit(c)) == (c.scope, c.description)
  {
    var line := FormatCommit(c);
    if c.scope != "" {
      var tail := "**: " + c.description;
      assert line == "- **" + (c.scope + tail);
      assert line[4..] == c.scope + tail;
      IndexOfAt(c.scope, '*', tail);
      assert (c.scope + tail)[..|c.scope|] == c.scope;
      assert (c.scope + tail)[|c.scope| + 4..] == c.description;
    } else {
      assert line == "- " + c.description;
      assert !HasPrefix(line, "- **") by {
        if |line| >= 4 {
          assert line[2..4] == c.description[..2];
        }
      }
    }
  }

  /** Under the same conditions, different commits give different lines. */
  lemma FormatCommitInjective(c: Commit, d: Commit)
    requires '*' !in c.scope && (c.scope == "" ==> !HasPrefix(c.description, "**"))
    requires '*' !in d.scope && (d.scope == "" ==> !HasPrefix(d.description, "**"))
    requires FormatCommit(c) == FormatCommit(d)
    ensures c.scope == d.scope && c.description == d.description
  {
    ReadFormat(c);
    ReadFormat(d);
  }

  /** Unscoped, a description may imitate a scope. */
  lemma FormatCommitAmbiguous()
    ensures FormatCommit(Commit("fix", "", "**a**: b", "", false)) == FormatCommit(Commit("fix", "a", "b", "", false))
  {
  }

  // ---------------------------------------------------------------------------
  // The specification

  /** The category keys a commit belongs to: any key but `*` equal to its type case-insensitively. */
  predicate InCategory(c: Commit, cat: string) {
    cat != "*" && ToLower(cat) == ToLower(c.kind)
  }

  /** A category choice for one commit: a matching key if there is one, None if there is none. */
  ghost predicate ValidPick(cats: map<string, string>, c: Commit, pick: Option<string>) {
    match pick
    case Some(cat) => cat in cats && InCategory(c, cat)
    case None => forall cat :: cat in cats ==> !InCategory(c, cat)
  }

  ghost predicate ValidPicks(cats: map<string, string>, commits: seq<Commit>, picks: seq<Option<string>>) {
    |picks| == |commits| && forall i :: 0 <= i < |commits| ==> ValidPick(cats, commits[i], picks[i])
  }

  /** A visiting order of the keys: each key once. */
  ghost predicate IsOrder(order: seq<string>, cats: map<string, string>) {
    && (forall i, j :: 0 <= i < j < |order| ==> order[i] != order[j])
    && (forall id :: id in order <==> id in cats)
  }

  /** Every entry of order is a key. */
  predicate IsKeyList(order: seq<string>, cats: map<string, string>) {
    forall i :: 0 <= i < |order| ==> order[i] in cats
  }

  /** The lines stored under key cat: one per commit filed there, in commit order. */
  function Lines(commits: seq<Commit>, picks: seq<Option<string>>, cat: string): seq<string>
    requires |picks| == |commits|
  {
    if commits == [] then []
    else
      var n := |commits| - 1;
      Lines(commits[..n], picks[..n], cat) + (if picks[n] == Some(cat) then [FormatCommit(commits[n])] else [])
  }

  /** The lines of commits in no category. */
  function Others(commits: seq<Commit>, picks: seq<Option<string>>): seq<string>
    requires |picks| == |commits|
  {
    if commits == [] then []
    else
      var n := |commits| - 1;
      Others(commits[..n], picks[..n]) + (if picks[n] == None then [OtherLine(commits[n])] else [])
  }

  /** The output for key id: looked up under the lower-cased key, a heading and the lines if there are any. */
  function Section(cats: map<string, string>, commits: seq<Commit>, picks: seq<Option<string>>, id: string): seq<string>
    requires |picks| == |commits| && id in cats
  {
    var lines := Lines(commits, picks, ToLower(id));
    if lines != [] then ["# " + cats[id]] + lines else []
  }

  /** The sections of the keys, in the visiting order. */
  function Sections(cats: map<string, string>, commits: seq<Commit>, picks: seq<Option<string>>, order: seq<string>): seq<seq<string>>
    requires |picks| == |commits| && IsKeyList(order, cats)
  {
    seq(|order|, i requires 0 <= i < |order| => Section(cats, commits, picks, order[i]))
  }

  /** The parts one after another. */
  function Flatten(parts: seq<seq<string>>): seq<string> {
    if parts == [] then [] else Flatten(parts[..|parts| - 1]) + parts[|parts| - 1]
  }

  /** The output slice: the sections, keys visited in order. */
  function ReleaseLines(cats: map<string, string>, commits: seq<Commit>, picks: seq<Option<string>>, order: seq<string>): seq<string>
    requires |picks| == |commits| && IsKeyList(order, cats)
  {
    Flatten(Sections(cats, commits, picks, order))
  }

  // ---------------------------------------------------------------------------
  // makeReleaseText

  /** makeReleaseText; picks and order are the category choices and key order the map iteration made. */
  method MakeReleaseText(cats: map<string, string>, commits: seq<Commit>)
    returns (text: string, ghost picks: seq<Option<string>>, ghost order: seq<string>)
    ensures ValidPicks(cats, commits, picks) && IsOrder(order, cats)
    ensures text == Join(ReleaseLines(cats, commits, picks, order), '\n')
  {
    var usesOther := UsesOther(cats);
    var categories, others;
    categories, others, picks := FileCommits(cats, commits, usesOther);
    var output;
    output, order := WriteSections(cats, commits, picks, categories);
    text := Join(output, '\n');
  }

  /**
   * The loop over the commits: each commit's line is stored under its
   * category, or collected among the others when `*` is a key.
   */
  method FileCommits(cats: map<string, string>, commits: seq<Commit>, usesOther: bool)
    returns (categories: map<string, seq<string>>, others: seq<string>, ghost picks: seq<Option<string>>)
    ensures ValidPicks(cats, commits, picks) && Stored(categories, commits, picks)
    ensures others == if usesOther then Others(commits, picks) else []
  {
    categories := map[];
    others := [];
    picks := [];
    ghost var done: seq<Commit> := [];
    var i := 0;
    while i < |commits|
      invariant 0 <= i <= |commits| && done == commits[..i]
      invariant ValidPicks(cats, done, picks)
      invariant Stored(categories, done, picks)
      invariant others == if usesOther then Others(done, picks) else []
    {
      var r := commits[i];
      var matched: bool;
      ghost var pick: Option<string>;
      categories, matched, pick := FileCommit(cats, categories, done, picks, r);
      FiledOne(cats, done, picks, r, pick);
      if !matched && usesOther {
        others := others + [OtherLine(r)];
      }
      assert commits[..i + 1] == done + [r];
      done, picks := done + [r], picks + [pick];
      i := i + 1;
    }
    assert commits[..i] == commits;
  }

  /** One more commit, with a valid choice, extends the choices and the other-commit lines. */
  lemma FiledOne(cats: map<string, string>, done: seq<Commit>, picks: seq<Option<string>>, r: Commit, pick: Option<string>)
    requires ValidPicks(cats, done, picks) && ValidPick(cats, r, pick)
    ensures ValidPicks(cats, done + [r], picks + [pick])
    ensures Others(done + [r], picks + [pick]) == Others(done, picks) + (if pick == None then [OtherLine(r)] else [])
  {
    assert (done + [r])[..|done|] == done && (picks + [pick])[..|done|] == picks;
  }

  /** The loop over the keys: a heading and the lines stored under the lower-cased key, if any. */
  method WriteSections(cats: map<string, string>, commits: seq<Commit>, ghost picks: seq<Option<string>>,
                       categories: map<string, seq<string>>)
    returns (output: seq<string>, ghost order: seq<string>)
    requires |picks| == |commits| && Stored(categories, commits, picks)
    ensures IsOrder(order, cats)
    ensures output == ReleaseLines(cats, commits, picks, order)
  {
    output := [];
    var ids := cats.Keys;
    order := [];
    while ids != {}
      invariant Visited(order, ids, cats)
      invariant IsKeyList(order, cats)
      invariant output == ReleaseLines(cats, commits, picks, order)
      decreases |ids|
    {
      var id :| id in ids;
      VisitOne(order, ids, cats, id);
      ids := ids - {id};
      var key := ToLower(id);
      ReleaseSnoc(cats, commits, picks, order, id);
      StoredSection(cats, commits, picks, categories, id);
      if key in categories {
        output := output + ["# " + cats[id]] + categories[key];
      }
      order := order + [id];
    }
    VisitedAll(order, cats);
  }

  /** The keys visited so far, each once, and the keys still to visit. */
  ghost predicate Visited(order: seq<string>, ids: set<string>, cats: map<string, string>) {
    && ids <= cats.Keys
    && (forall i, j :: 0 <= i < j < |order| ==> order[i] != order[j])
    && (forall id :: id in order <==> id in cats && id !in ids)
  }

  lemma VisitOne(order: seq<string>, ids: set<string>, cats: map<string, string>, id: string)
    requires Visited(order, ids, cats) && id in ids
    ensures Visited(order + [id], ids - {id}, cats)
    ensures IsKeyList(order, cats) ==> IsKeyList(order + [id], cats)
  {
    var o := order + [id];
    forall i, j | 0 <= i < j < |o|
      ensures o[i] != o[j]
    {
      if j < |order| {
        assert o[i] == order[i] && o[j] == order[j];
      } else {
        assert o[i] == order[i] && order[i] in order;
      }
    }
    forall x
      ensures x in o <==> x in cats && x !in ids - {id}
    {
      assert x in o <==> x in order || x == id;
    }
  }

  lemma VisitedAll(order: seq<string>, cats: map<string, string>)
    requires Visited(order, {}, cats)
    ensures IsOrder(order, cats)
  {
  }

  /** The section of a key is its stored lines under a heading, or nothing when none are stored. */
  lemma StoredSection(cats: map<string, string>, commits: seq<Commit>, picks: seq<Option<string>>,
                      categories: map<string, seq<string>>, id: string)
    requires |picks| == |commits| && Stored(categories, commits, picks) && id in cats
    ensures ToLower(id) in categories ==> Section(cats, commits, picks, id) == ["# " + cats[id]] + categories[ToLower(id)]
    ensures ToLower(id) !in categories ==> Section(cats, commits, picks, id) == []
  {
  }

  /** One more key visited appends its section. */
  lemma ReleaseSnoc(cats: map<string, string>, commits: seq<Commit>, picks: seq<Option<string>>,
                    order: seq<string>, id: string)
    requires |picks| == |commits| && IsKeyList(order, cats) && id in cats
    ensures IsKeyList(order + [id], cats)
    ensures ReleaseLines(cats, commits, picks, order + [id])
         == ReleaseLines(cats, commits, picks, order) + Section(cats, commits, picks, id)
  {
    var parts := Sections(cats, commits, picks, order + [id]);
    assert parts[..|order|] == Sections(cats, commits, picks, order);
  }

  /** What the categories map holds: under each key, exactly the non-empty line list stored there. */
  ghost predicate Stored(categories: map<string, seq<string>>, commits: seq<Commit>, picks: seq<Option<string>>)
    requires |picks| == |commits|
  {
    forall cat :: (cat in categories <==> Lines(commits, picks, cat) != [])
      && (cat in categories ==> categories[cat] == Lines(commits, picks, cat))
  }

  /** The first loop of makeReleaseText: is `*` a key? */
  method UsesOther(cats: map<string, string>) returns (usesOther: bool)
    ensures usesOther <==> "*" in cats
  {
    usesOther := false;
    var pending := cats.Keys;
    while pending != {}
      invariant pending <= cats.Keys
      invariant "*" in cats ==> "*" in pending
      decreases |pending|
    {
      var cat :| cat in pending;
      if cat == "*" {
        usesOther := true;
        break;
      }
      pending := pending - {cat};
    }
  }

  /**
   * The inner loop over the keys for one commit: the first key, in the
   * visiting order, other than `*` that equals the type case-insensitively
   * gets the commit's line appended under that (original) key.
   */
  method FileCommit(cats: map<string, string>, categories: map<string, seq<string>>,
                    ghost done: seq<Commit>, ghost picks: seq<Option<string>>, r: Commit)
    returns (categories': map<string, seq<string>>, matched: bool, ghost pick: Option<string>)
    requires |picks| == |done| && Stored(categories, done, picks)
    ensures ValidPick(cats, r, pick) && matched == pick.Some?
    ensures Stored(categories', done + [r], picks + [pick])
  {
    var commitType := ToLower(r.kind);
    matched := false;
    categories' := categories;
    pick := None;
    var pending := cats.Keys;
    while pending != {}
      invariant pending <= cats.Keys
      invariant forall cat :: cat in cats && cat !in pending ==> !InCategory(r, cat)
      decreases |pending|
    {
      var cat :| cat in pending;
      pending := pending - {cat};
      if cat == "*" {
        continue;
      }
      if commitType == ToLower(cat) {
        var arr := if cat in categories then categories[cat] else [];
        categories' := categories[cat := arr + [FormatCommit(r)]];
        matched := true;
        pick := Some(cat);
        break;
      }
    }
    StoreOne(categories, categories', done, picks, r, pick);
  }

  /** Appending one commit keeps the categories map in step with Lines. */
  lemma StoreOne(categories: map<string, seq<string>>, categories': map<string, seq<string>>,
                 done: seq<Commit>, picks: seq<Option<string>>, r: Commit, pick: Option<string>)
    requires |picks| == |done| && Stored(categories, done, picks)
    requires pick.None? ==> categories' == categories
    requires pick.Some? ==> categories' == categories[pick.value :=
      (if pick.value in categories then categories[pick.value] else []) + [FormatCommit(r)]]
    ensures Stored(categories', done + [r], picks + [pick])
  {
    var done', picks' := done + [r], picks + [pick];
    assert done'[..|done|] == done && picks'[..|done|] == picks;
    forall cat
      ensures (cat in categories' <==> Lines(done', picks', cat) != [])
        && (cat in categories' ==> categories'[cat] == Lines(done', picks', cat))
    {
      assert Lines(done', picks', cat)
        == Lines(done, picks, cat) + (if pick == Some(cat) then [FormatCommit(r)] else []);
    }
  }

  // ---------------------------------------------------------------------------
  // What the release text holds

  /** Lines are stored only under keys of the map other than `*`. */
  lemma {:induction false} LinesUnderKey(cats: map<string, string>, commits: seq<Commit>, picks: seq<Option<string>>, cat: string)
    requires ValidPicks(cats, commits, picks)
    requires Lines(commits, picks, cat) != []
    ensures cat in cats && cat != "*"
  {
    var n := |commits| - 1;
    if picks[n] != Some(cat) {
      assert ValidPicks(cats, commits[..n], picks[..n]) by {
        forall i | 0 <= i < n
          ensures ValidPick(cats, commits[..n][i], picks[..n][i])
        {
          assert commits[..n][i] == commits[i] && picks[..n][i] == picks[i];
        }
      }
      LinesUnderKey(cats, commits[..n], picks[..n], cat);
    }
  }

  /**
   * A key whose lower-case form is not itself a key gets no section: its
   * lines are stored under the key but looked up under the lower-cased key.
   */
  lemma UpperKeySilent(cats: map<string, string>, commits: seq<Commit>, picks: seq<Option<string>>, id: string)
    requires ValidPicks(cats, commits, picks) && id in cats && ToLower(id) !in cats
    ensures Section(cats, commits, picks, id) == []
  {
    if Lines(commits, picks, ToLower(id)) != [] {
      LinesUnderKey(cats, commits, picks, ToLower(id));
    }
  }

  /** The `*` key never gets a section, and the other-commit lines are never output. */
  lemma WildcardSilent(cats: map<string, string>, commits: seq<Commit>, picks: seq<Option<string>>)
    requires ValidPicks(cats, commits, picks) && "*" in cats
    ensures Section(cats, commits, picks, "*") == []
  {
    assert ToLower("*") == "*";
    if Lines(commits, picks, "*") != [] {
      LinesUnderKey(cats, commits, picks, "*");
    }
  }

  /** The lines of the commits whose lower-cased type is cat, in commit order. */
  function Matching(commits: seq<Commit>, cat: string): seq<string> {
    if commits == [] then []
    else
      var n := |commits| - 1;
      Matching(commits[..n], cat) + (if ToLower(commits[n].kind) == cat then [FormatCommit(commits[n])] else [])
  }

  /** No other key of the map equals cat case-insensitively. */
  predicate Unrivalled(cats: map<string, string>, cat: string) {
    forall other :: other in cats && other != cat ==> ToLower(other) != ToLower(cat)
  }

  /** For a lower-case key with no case-insensitive rival, the choice is forced: every matching commit is filed there. */
  lemma {:induction false} LinesOfLowerKey(cats: map<string, string>, commits: seq<Commit>, picks: seq<Option<string>>, cat: string)
    requires ValidPicks(cats, commits, picks)
    requires cat in cats && cat != "*" && ToLower(cat) == cat && Unrivalled(cats, cat)
    ensures Lines(commits, picks, cat) == Matching(commits, cat)
  {
    if commits != [] {
      var n := |commits| - 1;
      assert ValidPicks(cats, commits[..n], picks[..n]) by {
        forall i | 0 <= i < n
          ensures ValidPick(cats, commits[..n][i], picks[..n][i])
        {
          assert commits[..n][i] == commits[i] && picks[..n][i] == picks[i];
        }
      }
      LinesOfLowerKey(cats, commits[..n], picks[..n], cat);
      assert ValidPick(cats, commits[n], picks[n]);
      if ToLower(commits[n].kind) == cat {
        assert InCategory(commits[n], cat);
      }
    }
  }

  /**
   * A lower-case key with no rival gets a `# title` heading followed by one
   * line per commit of its type, in commit order, or nothing when no commit
   * has its type.
   */
  lemma SectionOfLowerKey(cats: map<string, string>, commits: seq<Commit>, picks: seq<Option<string>>, cat: string)
    requires ValidPicks(cats, commits, picks)
    requires cat in cats && cat != "*" && ToLower(cat) == cat && Unrivalled(cats, cat)
    ensures Section(cats, commits, picks, cat)
      == if Matching(commits, cat) == [] then [] else ["# " + cats[cat]] + Matching(commits, cat)
  {
    LinesOfLowerKey(cats, commits, picks, cat);
  }

  /** Every line of every part is a line of the whole. */
  lemma {:induction false} InFlatten(parts: seq<seq<string>>, k: nat, line: string)
    requires k < |parts| && line in parts[k]
    ensures line in Flatten(parts)
  {
    var n := |parts| - 1;
    if k < n {
      assert parts[..n][k] == parts[k];
      InFlatten(parts[..n], k, line);
    }
  }

  /** Every visited key's section is part of the output. */
  lemma SectionInOutput(cats: map<string, string>, commits: seq<Commit>, picks: seq<Option<string>>,
                        order: seq<string>, k: nat, line: string)
    requires |picks| == |commits| && IsKeyList(order, cats)
    requires k < |order| && line in Section(cats, commits, picks, order[k])
    ensures line in ReleaseLines(cats, commits, picks, order)
  {
    InFlatten(Sections(cats, commits, picks, order), k, line);
  }

  /** A commit filed under cat has its line among cat's lines. */
  lemma {:induction false} InLines(commits: seq<Commit>, picks: seq<Option<string>>, i: nat, cat: string)
    requires |picks| == |commits| && i < |commits| && picks[i] == Some(cat)
    ensures FormatCommit(commits[i]) in Lines(commits, picks, cat)
  {
    var n := |commits| - 1;
    if i < n {
      assert commits[..n][i] == commits[i] && picks[..n][i] == picks[i];
      InLines(commits[..n], picks[..n], i, cat);
    }
  }

  /** A commit in no category has its line among the other-commit lines. */
  lemma {:induction false} InOthers(commits: seq<Commit>, picks: seq<Option<string>>, i: nat)
    requires |picks| == |commits| && i < |commits| && picks[i] == None
    ensures OtherLine(commits[i]) in Others(commits, picks)
  {
    var n := |commits| - 1;
    if i < n {
      assert commits[..n][i] == commits[i] && picks[..n][i] == picks[i];
      InOthers(commits[..n], picks[..n], i);
    }
  }

  lemma {:induction false} FlattenEmpty(parts: seq<seq<string>>)
    requires forall i :: 0 <= i < |parts| ==> parts[i] == []
    ensures Flatten(parts) == []
  {
    if parts != [] {
      var n := |parts| - 1;
      assert forall i :: 0 <= i < n ==> parts[..n][i] == parts[i];
      FlattenEmpty(parts[..n]);
    }
  }

  // ---------------------------------------------------------------------------
  // The release text as evidently intended

  /**
   * The section for key id as the code evidently means it: the lines stored
   * under the key itself, and under `*` the collected other-commit lines.
   */
  function IntendedSection(cats: map<string, string>, commits: seq<Commit>, picks: seq<Option<string>>, id: string): seq<string>
    requires |picks| == |commits| && id in cats
  {
    var lines := if id == "*" then Others(commits, picks) else Lines(commits, picks, id);
    if lines != [] then ["# " + cats[id]] + lines else []
  }

  function IntendedSections(cats: map<string, string>, commits: seq<Commit>, picks: seq<Option<string>>, order: seq<string>): seq<seq<string>>
    requires |picks| == |commits| && IsKeyList(order, cats)
  {
    seq(|order|, i requires 0 <= i < |order| => IntendedSection(cats, commits, picks, order[i]))
  }

  function IntendedLines(cats: map<string, string>, commits: seq<Commit>, picks: seq<Option<string>>, order: seq<string>): seq<string>
    requires |picks| == |commits| && IsKeyList(order, cats)
  {
    Flatten(IntendedSections(cats, commits, picks, order))
  }

  /**
   * In the intended text every commit is listed: under its category, or,
   * when `*` is a key, among the other commits.
   */
  lemma IntendedComplete(cats: map<string, string>, commits: seq<Commit>, picks: seq<Option<string>>,
                         order: seq<string>, i: nat)
    requires ValidPicks(cats, commits, picks) && IsOrder(order, cats) && i < |commits|
    ensures IsKeyList(order, cats)
    ensures picks[i].Some? ==> FormatCommit(commits[i]) in IntendedLines(cats, commits, picks, order)
    ensures picks[i].None? && "*" in cats ==> OtherLine(commits[i]) in IntendedLines(cats, commits, picks, order)
  {
    assert IsKeyList(order, cats) by {
      forall j | 0 <= j < |order|
        ensures order[j] in cats
      {
        assert order[j] in order;
      }
    }
    var parts := IntendedSections(cats, commits, picks, order);
    assert ValidPick(cats, commits[i], picks[i]);
    if picks[i].Some? {
      var cat := picks[i].value;
      InLines(commits, picks, i, cat);
      var j :| 0 <= j < |order| && order[j] == cat;
      InFlatten(parts, j, FormatCommit(commits[i]));
    } else if "*" in cats {
      InOthers(commits, picks, i);
      var j :| 0 <= j < |order| && order[j] == "*";
      InFlatten(parts, j, OtherLine(commits[i]));
    }
  }

  /** Keys that all have empty sections give an empty release text. */
  lemma AllSilent(cats: map<string, string>, commits: seq<Commit>, picks: seq<Option<string>>, order: seq<string>)
    requires |picks| == |commits| && IsKeyList(order, cats)
    requires forall id :: id in cats ==> Section(cats, commits, picks, id) == []
    ensures ReleaseLines(cats, commits, picks, order) == []
  {
    FlattenEmpty(Sections(cats, commits, picks, order));
  }

  /** A `feat` commit and the single category `Feat`: the commit is filed, but no section is written. */
  lemma UpperKeyDropped(picks: seq<Option<string>>, order: seq<string>)
    requires ValidPicks(map["Feat" := "Features"], [Commit("feat", "", "x", "", false)], picks)
    requires IsOrder(order, map["Feat" := "Features"])
    ensures IsKeyList(order, map["Feat" := "Features"])
    ensures ReleaseLines(map["Feat" := "Features"], [Commit("feat", "", "x", "", false)], picks, order) == []
    ensures "- x" in IntendedLines(map["Feat" := "Features"], [Commit("feat", "", "x", "", false)], picks, order)
  {
    var cats := map["Feat" := "Features"];
    var commits := [Commit("feat", "", "x", "", false)];
    assert ToLower("Feat") == "feat" && ToLower("feat") == "feat";
    assert "feat" !in cats by {
      assert "feat"[0] != "Feat"[0];
    }
    assert FormatCommit(commits[0]) == "- x";
    assert picks[0].Some? by {
      assert ValidPick(cats, commits[0], picks[0]);
      assert InCategory(commits[0], "Feat");
    }
    IntendedComplete(cats, commits, picks, order, 0);
    UpperKeySilent(cats, commits, picks, "Feat");
    AllSilent(cats, commits, picks, order);
  }

  /** A `fix` commit and only the `*` category: the commit is collected as an other, but nothing is written. */
  lemma WildcardDropped(picks: seq<Option<string>>, order: seq<string>)
    requires ValidPicks(map["*" := "Other"], [Commit("fix", "", "x", "", false)], picks)
    requires IsOrder(order, map["*" := "Other"])
    ensures IsKeyList(order, map["*" := "Other"])
    ensures ReleaseLines(map["*" := "Other"], [Commit("fix", "", "x", "", false)], picks, order) == []
    ensures "- fix: x" in IntendedLines(map["*" := "Other"], [Commit("fix", "", "x", "", false)], picks, order)
  {
    var cats := map["*" := "Other"];
    var commits := [Commit("fix", "", "x", "", false)];
    assert OtherLine(commits[0]) == "- fix: x";
    assert picks[0] == None by {
      assert ValidPick(cats, commits[0], picks[0]);
    }
    IntendedComplete(cats, commits, picks, order, 0);
    WildcardSilent(cats, commits, picks);
    AllSilent(cats, commits, picks, order);
  }

  /** makeReleaseText as evidently intended: keys looked up as stored, and a section for `*`. */
  method MakeIntendedReleaseText(cats: map<string, string>, commits: seq<Commit>)
    returns (text: string, ghost picks: seq<Option<string>>, ghost order: seq<string>)
    ensures ValidPicks(cats, commits, picks) && IsOrder(order, cats) && IsKeyList(order, cats)
    ensures text == Join(IntendedLines(cats, commits, picks, order), '\n')
  {
    var usesOther := UsesOther(cats);
    var categories, others;
    categories, others, picks := FileCommits(cats, commits, usesOther);
    var output;
    output, order := WriteIntendedSections(cats, commits, picks, categories, others);
    text := Join(output, '\n');
  }

  /** The loop over the keys, with the lines looked up under the key itself and the others under `*`. */
  method WriteIntendedSections(cats: map<string, string>, commits: seq<Commit>, ghost picks: seq<Option<string>>,
                               categories: map<string, seq<string>>, others: seq<string>)
    returns (output: seq<string>, ghost order: seq<string>)
    requires |picks| == |commits| && Stored(categories, commits, picks)
    requires "*" in cats ==> others == Others(commits, picks)
    ensures IsOrder(order, cats) && IsKeyList(order, cats)
    ensures output == IntendedLines(cats, commits, picks, order)
  {
    output := [];
    var ids := cats.Keys;
    order := [];
    while ids != {}
      invariant Visited(order, ids, cats)
      invariant IsKeyList(order, cats)
      invariant output == IntendedLines(cats, commits, picks, order)
      decreases |ids|
    {
      var id :| id in ids;
      VisitOne(order, ids, cats, id);
      ids := ids - {id};
      IntendedSnoc(cats, commits, picks, order, id);
      var section := IntendedSectionOf(cats, commits, picks, categories, others, id);
      output := output + section;
      order := order + [id];
    }
    VisitedAll(order, cats);
  }

  /** The body of the corrected loop for one key: its heading and lines, if it has any. */
  method IntendedSectionOf(cats: map<string, string>, commits: seq<Commit>, ghost picks: seq<Option<string>>,
                           categories: map<string, seq<string>>, others: seq<string>, id: string)
    returns (section: seq<string>)
    requires |picks| == |commits| && Stored(categories, commits, picks) && id in cats
    requires "*" in cats ==> others == Others(commits, picks)
    ensures section == IntendedSection(cats, commits, picks, id)
  {
    StoredIntended(cats, commits, picks, categories, others, id);
    section := [];
    if id == "*" {
      if others != [] {
        section := ["# " + cats[id]] + others;
      }
    } else if id in categories {
      section := ["# " + cats[id]] + categories[id];
    }
  }

  /** One more key visited appends its intended section. */
  lemma IntendedSnoc(cats: map<string, string>, commits: seq<Commit>, picks: seq<Option<string>>,
                     order: seq<string>, id: string)
    requires |picks| == |commits| && IsKeyList(order, cats) && id in cats
    ensures IsKeyList(order + [id], cats)
    ensures IntendedLines(cats, commits, picks, order + [id])
         == IntendedLines(cats, commits, picks, order) + IntendedSection(cats, commits, picks, id)
  {
    var parts := IntendedSections(cats, commits, picks, order + [id]);
    assert parts[..|order|] == IntendedSections(cats, commits, picks, order);
  }

  /** The intended section of a key from the stored lines and the collected others. */
  lemma StoredIntended(cats: map<string, string>, commits: seq<Commit>, picks: seq<Option<string>>,
                       categories: map<string, seq<string>>, others: seq<string>, id: string)
    requires |picks| == |commits| && Stored(categories, commits, picks) && id in cats
    requires "*" in cats ==> others == Others(commits, picks)
    ensures id == "*" ==> IntendedSection(cats, commits, picks, id) == (if others != [] then ["# " + cats[id]] + others else [])
    ensures id != "*" && id in categories ==> IntendedSection(cats, commits, picks, id) == ["# " + cats[id]] + categories[id]
    ensures id != "*" && id !in categories ==> IntendedSection(cats, commits, picks, id) == []
  {
  }
}
