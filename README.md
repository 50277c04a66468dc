# semver-releaser, modelled in Dafny

semver-releaser is a release tool. It reads the commits since the last
version tag and parses each one as a Conventional Commit
(`type(scope)!: description`, optional body and footers). It is meant to
drop the types listed in its `ignore` setting, but as written it keeps them
(see "## Findings"). It folds the commits into one
severity (none, patch, minor or major) using its `rules` setting, and
raises the version by that severity. It then writes release notes that
group the commits under the titles of its `categories` setting. The
`rules` and `categories` settings are written in EQL, a small `key=value`
language with quoting and escaping; `ignore` is a plain list of types
separated by spaces.

This project models the core of that pipeline:

| file | module | models |
|---|---|---|
| `wrappers.dfy` | `Wrappers` | `Option` and `Result` |
| `text.dfy` | `Text` | the parts of Go's `strings` and `strconv` the core uses: TrimSpace, ToLower, HasPrefix, TrimPrefix, Split, Join, IndexByte, `%d` and Atoi |
| `eql.dfy` | `Eql` | `eql.Parse`: a three-state scanner with an escape flag |
| `commits.dfy` | `Commits` | `ParseCommit`: the header expression, the multi-line expression and the footer scan |
| `bump.dfy` | `Bump` | `SemVerComponent`, `semverFromString` and `determineBump` |
| `version.dfy` | `Version` | `parseSemVer`, the bump switch in `run` and the `v%d.%d.%d` tag |
| `notes.dfy` | `Notes` | `formatCommit` and `makeReleaseText` |
| `ignore.dfy` | `Ignore` | the commit collection loop in `run`, with its `ignore` filter |

Each operation has a specification function, and the code's own loops are
methods proved against it. `Eql.Parse` computes `Parsed`, which is the scanner
`Step` folded over the text. `Commits.ParseCommit` computes `Conventional`.
`Bump.DetermineBump` computes `Bumped`, a fold of `Step` over the commits.
`Notes.MakeReleaseText` computes `ReleaseLines`. Lemmas then state what those
functions mean:

- EQL: a render/parse round trip, exact conditions for the two errors, and
  the scanner's quirks;
- commit headers: soundness and completeness of the hand-written parser
  against the header grammar, plus a decision procedure for the multi-line
  expression proved equal to its definition;
- severity: bounds and monotonicity of the fold, and the fact that Major
  absorbs everything after it;
- versions: a format/parse round trip, and that the next version keeps the
  higher components and zeroes the lower ones; from a version with
  non-negative components it is, among versions with non-negative
  components, the least one above the current one at the bumped level;
- release notes: what each section holds.

Go's map iteration order is unspecified. Where the code ranges over a map,
the methods choose keys with `:|`, and the specification takes the choices
as ghost results. For release notes these are `picks`, the category chosen
for each commit, and `order`, the order the keys were visited in. The
contracts hold for every order.

The model follows the code as written. Where the code misses its evident
intent, the as-written behaviour is what the main model does. The corrected
behaviour sits next to it, as listed under "## Findings".

## Model

| member | source | states |
|---|---|---|
| Eql.Parse | eql/eql.go:16-92 | the imperative parse returns exactly `Parsed(str)`: `Step` folded over the characters, then the end-of-input rule |
| Eql.PushAndReset | eql/eql.go:23-31 | committing the pending pair binds the trimmed key to the trimmed value, keeps every other binding, and leaves the scanner clean in the key state |
| Eql.Step | eql/eql.go:34-80 | one character fails only when it is an `=` with no key before it, at its 1-based position; a space before a key or a value changes nothing; the map changes only through a commit |
| Eql.Message | eql/eql.go:40-84 | the "unexpected '='" text ends with the 1-based position in decimal, which reads back as that position; the other error is "unterminated quoted string" |
| Eql.Run | eql/eql.go:33-81 | the scan loop can fail only with a stray `=`, at a position inside the text scanned |
| Eql.RunThen | eql/eql.go:33-81 | scanning `u + v` is scanning `u`, then `v` from the state `u` leaves, with positions shifted by `|u|` |
| Eql.RunStops | eql/eql.go:38-41 | once the scan has failed, further text does not change the error |
| Eql.StrayEquals | eql/eql.go:35-44 | the parse fails at position n+1 iff character n is `=` and the text before it leaves the key state with an empty pending key |
| Eql.Unterminated | eql/eql.go:83-85 | the parse fails as unterminated iff the whole text scans without error and ends inside a quote |
| Eql.AssignKeys | eql/eql.go:23-31 | committing entries binds exactly their keys on top of the existing ones |
| Eql.AssignLastWins | eql/eql.go:26 | the last entry with a key decides that key's value |
| Eql.AssignUntouched | eql/eql.go:26 | a key that no entry mentions keeps its binding |
| Eql.RenderParse | eql/eql.go:16-92 | any list of valid entries, rendered (spaced or not; bare, quoted with escapes, or spliced) and parsed, gives the map the entries describe: trimmed values, last one winning |
| Eql.SpacesSkipped | eql/eql.go:36-37 | a run of spaces before a key (eql.go:36-37) or before a value (eql.go:48-49) leaves the scanner unchanged |
| Eql.TrailingKeyDropped | eql/eql.go:83-91 | a trailing key with no `=`, alone or after entries and any run of spaces, is dropped without an error |
| Eql.TrailingEmptyValue | eql/eql.go:87-89 | a trailing `key=`, alone or after entries and any run of spaces, binds the key to the empty value |
| Eql.LoneTrailingKey | eql/eql.go:83-91 | `abc` alone gives no binding; `a=` alone binds a to the empty value |
| Eql.TestEqlInvalid | eql/eql_test.go:21-25 | `" =path test = true"` fails with "unexpected '='" at position 2 |
| Eql.SpacedEquals | eql/eql_test.go:27-37 | spaces around `=` are dropped: `a = 1 b = 2` gives a→1, b→2 |
| Eql.QuotedSpace | eql/eql_test.go:51-61 | a double-quoted value keeps its inner space |
| Eql.LastKeyWins | eql/eql.go:26 | `a=1 a=2` gives a→2 |
| Eql.EscapedDelimiter | eql/eql.go:66-73 | a backslash before the delimiter leaves only the delimiter |
| Eql.BackslashKept | eql/eql.go:69-72 | a backslash before any other character is kept |
| Eql.SpaceInKey | eql/eql.go:35-46 | a space inside a key is part of the key |
| Eql.QuoteInsideValue | eql/eql.go:52-56 | Go's `&&` binds tighter than `||`: a double quote opens a quote even inside a value, and what came before it stays in the value |
| Eql.SingleQuoteInsideValue | eql/eql.go:52-56 | a single quote opens a quote only at the start of a value |
| Eql.QuotedValueTrimmed | eql/eql.go:24-25 | quoted values are trimmed as well |
| Eql.DoubleBackslashSwallowed | eql/eql.go:66-68 | a backslash after a backslash keeps the escape pending, so both vanish and the quote after them is literal: `k="a\\"` is an unterminated quoted string |
| Commits.HeaderComplete | main.go:465 | every valid header (non-empty type without `(`, `:` or `!`, scope without `)`, description without newline), rendered as `type(scope)!: description`, parses back to itself |
| Commits.ParseHeader | main.go:465 | whatever the header parser accepts is a valid header and is exactly its rendering, so the parser accepts the grammar and nothing more (completeness: HeaderComplete) |
| Commits.HeaderThenNewline | main.go:465 | `$` ends the text: a header followed by a newline and more text is not a header |
| Commits.IsMultiLine | main.go:466 | the one-pass scanner is true iff some non-newline is followed by two or more newlines and then another non-newline, which is where `(.+)\n{2,}(.+\n*)+` matches |
| Commits.ParseCommit | main.go:468-500 | the method returns `Conventional(msg)`: the header parse for a message without a gap; otherwise the first line's header, with the bang raised by any breaking-change line and the body set to the remaining lines |
| Commits.ScanFooters | main.go:475-479 | the bang becomes true iff it was already set or some later line starts with "breaking change:", compared case-insensitively |
| Commits.SingleLineCommit | main.go:485-499 | a one-line valid header parses to itself with an empty body |
| Commits.OneNewlineRejected | main.go:469-487 | a header followed by text after a single newline, with no gap, gives no commit |
| Commits.MultiLineCommit | main.go:469-482 | a header, a newline and a body with a gap give the header's fields, the body verbatim, and a bang raised by a breaking-change footer and never cleared |
| Commits.FirstLineDecides | main.go:471-474 | for a one-line message or one with a gap, a first line that is not a header gives no commit |
| Commits.NewlineInType | main.go:465 | without a gap the header expression sees the whole text, and its type group accepts newlines: `"a\nb: c"` has type `"a\nb"` |
| Bump.Rank | main.go:445-452 | the iota values of `SemVerComponent`: none 0 < patch 1 < minor 2 < major 3, so every `>` between severities in `determineBump` is `>` on `Rank` |
| Bump.SemVerFromString | main.go:317-324 | the result is a severity exactly when the trimmed, lower-cased text is that severity's name; otherwise it is none |
| Bump.SemVerFromName | main.go:311-315 | each of "patch", "minor" and "major" reads as its severity |
| Bump.SemVerFromPadded | main.go:318 | `" Major\t"` reads as Major; `"majors"` reads as none |
| Bump.FileRules | main.go:332-340 | the bang level is the `bang` rule's severity; every other rule name is filed under its severity, and nothing else is |
| Bump.FiledMatches | main.go:358-372 | after filing, a severity's group names a type iff some rule of that severity names it, case-insensitively |
| Bump.NamesType | main.go:367-372 | the inner search is true iff some name in the group lower-cases to the type |
| Bump.MatchType | main.go:356-373 | `compLoop` gives `TypeBump`: the highest matching group not below the running severity, or the running severity |
| Bump.TypeBumpIsMax | main.go:356-373 | `TypeBump` is the larger of the running severity and every severity whose rule names the type |
| Bump.Consider | main.go:349-373 | one iteration gives `Step`: a breaking commit under a `bang` rule jumps to the bang level when that is higher, and otherwise the type decides |
| Bump.StepBounds | main.go:344-373 | a step never lowers the severity; a raise is to a level the commit causes; a breaking commit reaches at least the bang level; an ordinary commit reaches every level that names its type |
| Bump.DetermineBump | main.go:326-377 | the method, including its early exit at Major, returns `Bumped`, the fold of `Step` over the commits from none |
| Bump.MajorAbsorbs | main.go:345-347 | once the fold reaches Major it stays Major, so stopping there is exact |
| Bump.BumpedMonotone | main.go:344-374 | the severity after a prefix of the commits never exceeds the final one |
| Bump.BumpedNamed | main.go:326-377 | the result is none or a level some commit causes, through the bang rule or a type rule |
| Bump.BreakingAtLeastBang | main.go:349-355 | one breaking commit under a `bang` rule makes the result at least the bang level |
| Bump.TypedAtLeastRule | main.go:356-373 | a non-breaking commit whose type a rule names makes the result at least that rule's level |
| Bump.BangShadowsType | main.go:349-355 | with rules bang=minor and feat=major, `feat!` gives Minor: the bang branch's `continue` skips type matching |
| Version.ParseSemVer | main.go:437-443 | drops one leading `v` and reads the first three dot-separated pieces with Atoi; what that means is stated by ReadPieces, PrereleaseReadsAsZero and FormatVersion |
| Version.ReadPieces | main.go:437-443 | a tag `v` + a.b.c(+rest) reads as the Atoi values of a, b and c |
| Version.FormatVersion | main.go:243 | the `v%d.%d.%d` tag has three pieces and reads back, through parseSemVer, as the version |
| Version.FirstReleaseIsZero | main.go:181 | the starting tag `v0.0.0` reads as 0.0.0 |
| Version.PrereleaseReadsAsZero | main.go:439-441 | Atoi's discarded error turns an unreadable piece into 0: `v1.2.3-rc.1` reads as 1.2.0 |
| Version.NextVersion | main.go:228-243 | none iff the severity is none; otherwise a version above the current one at that level: Patch keeps major and minor, Minor keeps major and zeroes patch, Major zeroes minor and patch; from a version with non-negative minor and patch the result has them too and is the least such version above the current one, hence the only one |
| Text.GoAtoiIntString | main.go:439-441 | Atoi reads back every `%d` form, negatives included |
| Notes.FormatCommit | main.go:379-385 | every line starts with the list marker `- ` (see ReadFormat) |
| Notes.ReadFormat | main.go:379-385 | the line gives back scope and description, provided the scope has no `*` and an unscoped description does not start with `**` |
| Notes.FormatCommitInjective | main.go:379-385 | under those conditions, equal lines come from equal scope and description |
| Notes.FormatCommitAmbiguous | main.go:380-384 | without those conditions, an unscoped description `**a**: b` gives the same line as scope `a` with description `b` |
| Notes.OtherLine | main.go:417-421 | an other-commit line starts with `- ` and the type (see OtherLineIsHeader) |
| Notes.OtherLineIsHeader | main.go:417-421 | an other-commit line is `- ` followed by the commit's header without bang or body, `type(scope): description` or `type: description`, and that header parses back to type, scope and description |
| Notes.UsesOther | main.go:391-396 | the first loop is true iff `*` is a key |
| Notes.FileCommit | main.go:401-414 | one commit goes to a key other than `*` that equals its type case-insensitively, if there is one; its line is appended under that key as written |
| Notes.FileCommits | main.go:398-423 | every commit gets a valid choice; the stored lines are exactly `Lines` per key; the other lines are `Others` when `*` is a key and empty otherwise |
| Notes.WriteSections | main.go:427-432 | the keys are visited once each, and the output is their sections in that order, each looked up under the lower-cased key |
| Notes.MakeReleaseText | main.go:387-435 | the text is the sections joined with newlines, for some valid category choice and some order of the keys |
| Notes.LinesUnderKey | main.go:401-413 | lines are stored only under keys of the map other than `*` |
| Notes.LinesOfLowerKey | main.go:398-414 | a lower-case key with no case-insensitive rival receives every commit of its type, in commit order |
| Notes.SectionOfLowerKey | main.go:427-431 | such a key's section is `# title` followed by those lines, or nothing when no commit has its type |
| Notes.SectionInOutput | main.go:427-434 | every line of every visited key's section is in the output |
| Notes.UpperKeySilent | main.go:405-430 | a key whose lower-case form is not itself a key never gets a section: lines are stored under the key and looked up under its lower-case form |
| Notes.WildcardSilent | main.go:400-432 | `*` never gets a section, so the other-commit lines are collected but never output |
| Notes.UpperKeyDropped | main.go:405-431 | categories {Feat: Features} and a `feat: x` commit give empty notes, whereas the intended notes list `- x` |
| Notes.WildcardDropped | main.go:389-432 | categories {*: Other} and a `fix: x` commit give empty notes, whereas the intended notes list `- fix: x` |
| Notes.IntendedComplete | main.go:96-108 | in the intended notes every commit appears: under its category, or among the other commits when `*` is a key |
| Notes.IntendedSectionOf | main.go:428-431 | corrected loop body: the lines are looked up under the key as stored, and `*` gets the other-commit lines |
| Notes.WriteIntendedSections | main.go:427-432 | the corrected loop outputs the intended sections, keys once each, in the order visited |
| Notes.MakeIntendedReleaseText | main.go:387-435 | the corrected text is the intended sections joined with newlines |
| Ignore.CountHits | main.go:203-208 | as written, the inner loop only counts the entries that name the type; its `continue` leaves only the inner loop |
| Ignore.HitsIgnored | main.go:203-208 | the count is positive iff some entry, lower-cased, equals the type |
| Ignore.CollectAsWritten | main.go:192-213 | as written, every parsed commit is kept in order, and `excluded` counts commit/entry pairs that match |
| Ignore.IgnoredStillKept | main.go:202-209 | with ignore = [fix], the commit `fix: a` is counted as excluded and still kept |
| Ignore.DuplicateEntriesCountTwice | main.go:203-206 | with ignore = [fix, FIX], one `fix` commit counts twice |
| Ignore.IsIgnored | main.go:203-208 | corrected inner loop: true iff some entry, lower-cased, equals the type |
| Ignore.Collect | main.go:192-213 | corrected loop: the kept commits are the parsed ones whose type no entry names, in order, and `excluded` counts the others once each |
| Ignore.KeptPartition | main.go:192-213 | each commit is kept or excluded, never both; the kept ones are exactly the unnamed ones |
| Ignore.CollectAccounts | main.go:192-222 | after the corrected loop, kept plus excluded equals the number parsed; no kept commit is ignored; every commit that is not ignored is kept |
| Ignore.IgnoredLeftOut | main.go:202-209 | with the correction, `fix: a` under ignore = [fix] is left out and counted once |

## Left out

- Text.ToLower: lower-cases ASCII letters only; Go's `strings.ToLower` is Unicode-aware.
- Text.IsSpace follows Go's `unicode.IsSpace`, but strings are sequences of code points. Go's byte offsets (`i` in `for i, r := range str`) become code-point indices, so an EQL error position differs from Go's after a multi-byte character.
- Version.ParseSemVer: requires three dot-separated pieces. Go panics with an index error on fewer, and the model does not model the panic.
- Text.GoAtoi: integers are unbounded. Go's 64-bit `int`, Atoi's range error and wrap-around on `patch++` are not modelled.
- The `SemVerChange` field of `ConventionalCommit` is never set by the code, and the model does not carry it.
- The `run` function's I/O is out of scope: reading the git log and tags, sorting tags (a semver library), creating tags and releases, and the CLI flags (so the `ignore` flag arrives already trimmed and split at spaces, as main.go:524-528 does). So are `abort`, `info` and `warn`, and the `runInfo` messages, apart from the promise they state about categories.
- Go map iteration order is a ghost choice (`picks`, `order`). The contracts hold for every choice, and the model does not say which one Go makes.
- The header regular expression and the multi-line regular expression are not executed as regexps. Each is modelled by a hand-written matcher, proved equal to a definition of what the expression matches.

## Findings

| source | as written | input that shows it | evidently intended | confidence | as-written member | corrected member |
|---|---|---|---|---|---|---|
| main.go:203-209 | the `continue` in the ignore loop continues the inner `for`, so an ignored commit is still appended; `excluded` counts every matching entry | ignore = `fix`, commit `fix: a`: kept, and counted as excluded | drop the commit and count it once | not executed | Ignore.IgnoredStillKept | Ignore.Collect |
| main.go:410-428 | lines are stored under the category key as written, but looked up under the lower-cased key | categories `Feat=Features`, commit `feat: x`: empty notes | look up the key as stored, as the run summary at main.go:103 promises | not executed | Notes.UpperKeyDropped | Notes.MakeIntendedReleaseText |
| main.go:416-432 | lines of commits in no category are collected when `*` is a key, but no section is ever written for `*` | categories `*=Other`, commit `fix: x`: empty notes | a `*` section holding the other commits, as the run summary at main.go:106-107 promises | not executed | Notes.WildcardDropped | Notes.MakeIntendedReleaseText |
