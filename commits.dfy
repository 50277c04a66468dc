/**
 * Conventional commits, as ParseCommit in main.go reads them.
 *
 * Two regular expressions decide the parse. The header expression
 * `^([^(:!]+)(?:\(([^)]+)\))?(!)?: ([^\n]+)$` is a hand-written recogniser
 * here (`ParseHeader`), proved to accept exactly the renderings of valid
 * headers and to give back their parts. The multi-line expression
 * `(.+)\n{2,}(.+\n*)+` is a one-pass scanner (`IsMultiLine`), proved equal to
 * "somewhere, a non-newline, two or more newlines, a non-newline". In Go's
 * syntax `.` does not match a newline, negated classes do, and `^`/`$`
 * anchor at the ends of the whole text.
 */
module Commits {
  import opened Wrappers
  import opened Text

  /** ConventionalCommit: Type, Scope, Description, Body and Bang. */
  datatype Commit = Commit(kind: string, scope: string, description: string, body: string, bang: bool)

  // ---------------------------------------------------------------------------
  // The header expression

  /** The characters the type group `[^(:!]+` stops at. */
  predicate IsTypeStop(c: char) {
    c == '(' || c == ':' || c == '!'
  }

  /** Length of the longest prefix without a type stop. */
  function TypeEnd(s: string): nat
    decreases |s|
  {
    if s == [] || IsTypeStop(s[0]) then 0 else 1 + TypeEnd(s[1..])
  }

  lemma {:induction false} TypeEndBounds(s: string)
    ensures TypeEnd(s) <= |s|
    ensures forall j :: 0 <= j < TypeEnd(s) ==> !IsTypeStop(s[j])
    ensures TypeEnd(s) < |s| ==> IsTypeStop(s[TypeEnd(s)])
    decreases |s|
  {
    if s != [] && !IsTypeStop(s[0]) {
      TypeEndBounds(s[1..]);
    }
  }

  /** A prefix free of type stops, followed by a stop, ends the type. */
  lemma {:induction false} TypeEndAt(a: string, b: string)
    requires forall j :: 0 <= j < |a| ==> !IsTypeStop(a[j])
    requires b != [] && IsTypeStop(b[0])
    ensures TypeEnd(a + b) == |a|
    decreases |a|
  {
    if a == [] {
      assert a + b == b;
    } else {
      assert (a + b)[1..] == a[1..] + b;
      TypeEndAt(a[1..], b);
    }
  }

  /** `: ([^\n]+)$` after the type, scope and bang. */
  function ParseDescription(kind: string, scope: string, bang: bool, rest: string): Option<Commit> {
    if |rest| > 2 && rest[0] == ':' && rest[1] == ' ' && '\n' !in rest[2..] then
      Some(Commit(kind, scope, rest[2..], "", bang))
    else None
  }

  /** `(!)?` and what follows it. */
  function ParseBang(kind: string, scope: string, rest: string): Option<Commit> {
    if rest != [] && rest[0] == '!' then ParseDescription(kind, scope, true, rest[1..])
    else ParseDescription(kind, scope, false, rest)
  }

  /** `(?:\(([^)]+)\))?` and what follows it; rest starts at the first type stop. */
  function ParseScope(kind: string, rest: string): Option<Commit> {
    if rest != [] && rest[0] == '(' then
      var inner := rest[1..];
      var p := IndexOf(inner, ')');
      if p == 0 || p >= |inner| then None else ParseBang(kind, inner[..p], inner[p + 1..])
    else ParseBang(kind, [], rest)
  }

  /**
   * A match of the header expression against the whole message, and its
   * groups: whatever it accepts is a valid header and is exactly its rendering.
   */
  function ParseHeader(msg: string): (r: Option<Commit>)
    ensures r.Some? ==> ValidHeader(r.value) && RenderHeader(r.value) == msg
  {
    var t := TypeEnd(msg);
    if t == 0 || t >= |msg| then None
    else
      HeaderSound(msg, t);
      ParseScope(msg[..t], msg[t..])
  }

  /** What the header expression can produce: its group constraints. */
  predicate ValidHeader(c: Commit) {
    && |c.kind| > 0 && (forall j :: 0 <= j < |c.kind| ==> !IsTypeStop(c.kind[j]))
    && (forall j :: 0 <= j < |c.scope| ==> c.scope[j] != ')')
    && |c.description| > 0 && '\n' !in c.description
    && c.body == []
  }

  function RenderScope(scope: string): string {
    if scope == [] then [] else "(" + scope + ")"
  }

  function RenderBang(bang: bool): string {
    if bang then "!" else []
  }

  /** The header text a commit is written as: `type(scope)!: description`. */
  function RenderHeader(c: Commit): string {
    c.kind + (RenderScope(c.scope) + (RenderBang(c.bang) + (": " + c.description)))
  }

  /** After the optional bang comes the colon. */
  lemma BangThen(kind: string, scope: string, bang: bool, rest: string)
    requires rest != [] && rest[0] == ':'
    ensures ParseBang(kind, scope, RenderBang(bang) + rest) == ParseDescription(kind, scope, bang, rest)
  {
    if bang {
      assert ("!" + rest)[1..] == rest;
    } else {
      assert [] + rest == rest;
    }
  }

  /** A scope without `)` is read up to its closing parenthesis. */
  lemma ScopeThen(kind: string, scope: string, rest: string)
    requires forall j :: 0 <= j < |scope| ==> scope[j] != ')'
    requires rest != [] && (rest[0] == '!' || rest[0] == ':')
    ensures ParseScope(kind, RenderScope(scope) + rest) == ParseBang(kind, scope, rest)
  {
    if scope == [] {
      assert [] + rest == rest;
    } else {
      ParenAround(scope, rest);
      var inner := scope + ([')'] + rest);
      assert (RenderScope(scope) + rest)[1..] == inner;
      IndexOfAt(scope, ')', [')'] + rest);
      assert inner[..|scope|] == scope;
      assert inner[|scope| + 1..] == rest;
    }
  }

  /**
   * A valid header followed by any text is read as far as the description:
   * type, scope and bang are fixed, and the rest decides.
   */
  lemma HeaderThen(c: Commit, more: string)
    requires ValidHeader(c)
    ensures ParseHeader(RenderHeader(c) + more)
      == ParseDescription(c.kind, c.scope, c.bang, ": " + (c.description + more))
  {
    var colon := ": " + (c.description + more);
    var tail := RenderBang(c.bang) + colon;
    var rest := RenderScope(c.scope) + tail;
    var msg := RenderHeader(c) + more;
    var d := ": " + c.description;
    assert d + more == colon;
    assert (RenderBang(c.bang) + d) + more == tail;
    assert (RenderScope(c.scope) + (RenderBang(c.bang) + d)) + more == rest;
    assert msg == c.kind + rest;
    assert rest != [] && IsTypeStop(rest[0]);
    TypeEndAt(c.kind, rest);
    assert msg[..|c.kind|] == c.kind && msg[|c.kind|..] == rest;
    assert tail != [] && (tail[0] == '!' || tail[0] == ':');
    ScopeThen(c.kind, c.scope, tail);
    BangThen(c.kind, c.scope, c.bang, colon);
  }

  /** Every valid header, rendered, parses back to itself. */
  lemma HeaderComplete(c: Commit)
    requires ValidHeader(c)
    ensures ParseHeader(RenderHeader(c)) == Some(c)
  {
    HeaderThen(c, []);
    assert RenderHeader(c) + [] == RenderHeader(c);
    assert c.description + [] == c.description;
    assert (": " + c.description)[2..] == c.description;
  }

  /** A header followed by text after a single newline is rejected: the description must run to the end. */
  lemma HeaderThenNewline(c: Commit, text: string)
    requires ValidHeader(c)
    ensures ParseHeader(RenderHeader(c) + ("\n" + text)) == None
  {
    HeaderThen(c, "\n" + text);
    var rest := ": " + (c.description + ("\n" + text));
    assert rest[2 + |c.description|] == '\n';
  }

  lemma BangSound(kind: string, scope: string, rest: string, c: Commit)
    requires ParseBang(kind, scope, rest) == Some(c)
    ensures c.kind == kind && c.scope == scope && c.body == []
    ensures |c.description| > 0 && '\n' !in c.description
    ensures rest == RenderBang(c.bang) + (": " + c.description)
  {
    if rest[0] == '!' {
      assert rest == "!" + rest[1..];
      assert rest[1..] == ": " + c.description;
    } else {
      assert rest == ": " + c.description;
    }
  }

  lemma ScopeSound(kind: string, rest: string, c: Commit)
    requires ParseScope(kind, rest) == Some(c)
    ensures c.kind == kind && c.body == [] && (forall j :: 0 <= j < |c.scope| ==> c.scope[j] != ')')
    ensures |c.description| > 0 && '\n' !in c.description
    ensures rest == RenderScope(c.scope) + (RenderBang(c.bang) + (": " + c.description))
  {
    if rest[0] == '(' {
      ParenSound(kind, rest, c);
    } else {
      BangSound(kind, [], rest, c);
      assert [] + rest == rest;
    }
  }

  lemma ParenSound(kind: string, rest: string, c: Commit)
    requires rest != [] && rest[0] == '('
    requires ParseScope(kind, rest) == Some(c)
    ensures c.kind == kind && c.body == [] && (forall j :: 0 <= j < |c.scope| ==> c.scope[j] != ')')
    ensures |c.description| > 0 && '\n' !in c.description
    ensures rest == RenderScope(c.scope) + (RenderBang(c.bang) + (": " + c.description))
  {
    var inner := rest[1..];
    var p := IndexOf(inner, ')');
    IndexOfBounds(inner, ')');
    ParenSplit(inner, p);
    BangSound(kind, inner[..p], inner[p + 1..], c);
  }

  /** A parenthesised scope cut at its first `)`: the scope holds no `)`, and scope and tail render back. */
  lemma ParenSplit(inner: string, p: nat)
    requires 0 < p < |inner| && inner[p] == ')'
    requires forall j :: 0 <= j < p ==> inner[j] != ')'
    ensures forall j :: 0 <= j < p ==> inner[..p][j] != ')'
    ensures ['('] + inner == RenderScope(inner[..p]) + inner[p + 1..]
  {
    var scope, tail := inner[..p], inner[p + 1..];
    assert inner == scope + ([')'] + tail) by {
      assert inner[p..] == [')'] + tail;
      assert inner == scope + inner[p..];
    }
    ParenAround(scope, tail);
    assert RenderScope(scope) == "(" + scope + ")";
  }

  lemma ParenAround(scope: string, tail: string)
    ensures "(" + scope + ")" + tail == ['('] + (scope + ([')'] + tail))
  {
  }

  /** Whatever the header expression accepts after the type is a valid header, rendered. */
  lemma HeaderSound(msg: string, t: nat)
    requires t == TypeEnd(msg) && 0 < t < |msg|
    ensures ParseScope(msg[..t], msg[t..]).Some? ==>
      ValidHeader(ParseScope(msg[..t], msg[t..]).value) && RenderHeader(ParseScope(msg[..t], msg[t..]).value) == msg
  {
    TypeEndBounds(msg);
    var kind, rest := msg[..t], msg[t..];
    if ParseScope(kind, rest).Some? {
      var c := ParseScope(kind, rest).value;
      ScopeSound(kind, rest, c);
      assert forall j :: 0 <= j < |kind| ==> !IsTypeStop(kind[j]);
      assert RenderHeader(c) == kind + rest;
      assert kind + rest == msg;
    }
  }

  // ---------------------------------------------------------------------------
  // The multi-line expression

  /** A gap: a non-newline at p, two or more newlines, a non-newline at q. */
  predicate GapAt(msg: string, p: int, q: int) {
    && 0 <= p && p + 2 < q < |msg|
    && msg[p] != '\n' && msg[q] != '\n'
    && forall k :: p < k < q ==> msg[k] == '\n'
  }

  /** Where `(.+)\n{2,}(.+\n*)+` finds a match. */
  ghost predicate MultiLine(msg: string) {
    exists p, q :: GapAt(msg, p, q)
  }

  /**
   * The scanner state after a prefix: whether a non-newline has been seen
   * before the current run of newlines, and the length of that run.
   */
  function GapFrom(s: string, seen: bool, run: nat): bool
    decreases |s|
  {
    if s == [] then false
    else if s[0] == '\n' then GapFrom(s[1..], seen, run + 1)
    else (seen && run >= 2) || GapFrom(s[1..], true, 0)
  }

  /** multiLineCommit.MatchString: the scanner decides exactly where the expression matches. */
  function IsMultiLine(msg: string): (r: bool)
    ensures r == MultiLine(msg)
  {
    GapFromSound([], msg, false, 0);
    assert [] + msg == msg;
    GapFrom(msg, false, 0)
  }

  /** The scanner state summarises the prefix read so far. */
  predicate Summary(pre: string, seen: bool, run: nat) {
    && run <= |pre|
    && (forall k :: |pre| - run <= k < |pre| ==> pre[k] == '\n')
    && seen == (run < |pre|)
    && (run < |pre| ==> pre[|pre| - run - 1] != '\n')
  }

  /** A gap of pre + [c] is a gap of pre, or one that ends at the new character. */
  lemma GapExtend(pre: string, c: char, p: int, q: int)
    requires GapAt(pre + [c], p, q) && q < |pre|
    ensures GapAt(pre, p, q)
  {
    forall k | p < k < q
      ensures pre[k] == '\n'
    {
      assert (pre + [c])[k] == pre[k];
    }
  }

  /** A gap ending at a new non-newline character starts where the trailing newline run of pre starts. */
  lemma GapEndingAt(pre: string, c: char, p: int, seen: bool, run: nat)
    requires Summary(pre, seen, run) && GapAt(pre + [c], p, |pre|)
    ensures seen && run >= 2
  {
    var pre' := pre + [c];
    assert pre'[p] == pre[p];
    assert p < |pre| - run;
    assert pre'[|pre| - run - 1] == pre[|pre| - run - 1];
    assert p == |pre| - run - 1;
  }

  /** One more character creates a gap only by closing a run of two or more newlines. */
  lemma ExtendGap(pre: string, c: char, seen: bool, run: nat)
    requires Summary(pre, seen, run)
    ensures MultiLine(pre + [c]) ==> MultiLine(pre) || (c != '\n' && seen && run >= 2)
  {
    if MultiLine(pre + [c]) {
      var p, q :| GapAt(pre + [c], p, q);
      if q < |pre| {
        GapExtend(pre, c, p, q);
      } else {
        GapEndingAt(pre, c, p, seen, run);
      }
    }
  }

  lemma {:induction false} GapFromSound(pre: string, s: string, seen: bool, run: nat)
    requires Summary(pre, seen, run) && !MultiLine(pre)
    ensures GapFrom(s, seen, run) == MultiLine(pre + s)
    decreases |s|
  {
    if s == [] {
      assert pre + s == pre;
    } else {
      var c := s[0];
      var pre' := pre + [c];
      assert pre + s == pre' + s[1..];
      if c != '\n' && seen && run >= 2 {
        var p := |pre| - run - 1;
        assert GapAt(pre + s, p, |pre|);
      } else {
        ExtendGap(pre, c, seen, run);
        if c == '\n' {
          GapFromSound(pre', s[1..], seen, run + 1);
        } else {
          GapFromSound(pre', s[1..], true, 0);
        }
      }
    }
  }

  // ---------------------------------------------------------------------------
  // ParseCommit

  /** A body line that marks a breaking change, compared case-insensitively. */
  predicate BreakingFooter(line: string) {
    HasPrefix(ToLower(line), "breaking change:")
  }

  predicate AnyBreaking(lines: seq<string>) {
    exists k :: 0 <= k < |lines| && BreakingFooter(lines[k])
  }

  /** What ParseCommit returns for msg (None for nil). */
  ghost function Conventional(msg: string): Option<Commit> {
    if MultiLine(msg) then
      var lines := Split(msg, '\n');
      match ParseHeader(lines[0])
      case None => None
      case Some(h) => Some(h.(bang := h.bang || AnyBreaking(lines[1..]), body := Join(lines[1..], '\n')))
    else ParseHeader(msg)
  }

  /** A message with a gap has a newline, so its first line is shorter and has no gap. */
  lemma FirstLine(msg: string)
    requires MultiLine(msg)
    ensures |Split(msg, '\n')| >= 2
    ensures |Split(msg, '\n')[0]| < |msg|
    ensures !MultiLine(Split(msg, '\n')[0])
    ensures Conventional(Split(msg, '\n')[0]) == ParseHeader(Split(msg, '\n')[0])
  {
    var p, q :| GapAt(msg, p, q);
    assert msg[p + 1] == '\n';
    SplitFirst(msg, '\n');
    GapNeedsNewline(Split(msg, '\n')[0]);
  }

  /** A gap needs a newline. */
  lemma GapNeedsNewline(s: string)
    ensures MultiLine(s) ==> '\n' in s
  {
    if MultiLine(s) {
      var p, q :| GapAt(s, p, q);
      assert s[p + 1] == '\n';
    }
  }

  lemma AnyBreakingSnoc(lines: seq<string>, line: string)
    ensures AnyBreaking(lines + [line]) == (AnyBreaking(lines) || BreakingFooter(line))
  {
    if BreakingFooter(line) {
      assert (lines + [line])[|lines|] == line;
    }
    if AnyBreaking(lines) {
      var k :| 0 <= k < |lines| && BreakingFooter(lines[k]);
      assert (lines + [line])[k] == lines[k];
    }
  }

  /** ParseCommit: the multi-line branch re-parses the first line and scans the rest for a footer. */
  method ParseCommit(msg: string) returns (res: Option<Commit>)
    ensures res == Conventional(msg)
    decreases |msg|
  {
    if !IsMultiLine(msg) {
      return ParseHeader(msg);
    }
    var lines := Split(msg, '\n');
    FirstLine(msg);
    var first := ParseCommit(lines[0]);
    if first.None? {
      return None;
    }
    var c := ScanFooters(first.value, lines);
    c := c.(body := Join(lines[1..], '\n'));
    return Some(c);
  }

  /** The footer loop of ParseCommit: any later line starting with a breaking-change marker sets the bang. */
  method ScanFooters(h: Commit, lines: seq<string>) returns (c: Commit)
    requires |lines| >= 1
    ensures c == h.(bang := h.bang || AnyBreaking(lines[1..]))
  {
    c := h;
    var i := 1;
    while i < |lines|
      invariant 1 <= i <= |lines|
      invariant c == h.(bang := h.bang || AnyBreaking(lines[1..i]))
    {
      if HasPrefix(ToLower(lines[i]), "breaking change:") {
        c := c.(bang := true);
      }
      assert lines[1..i + 1] == lines[1..i] + [lines[i]];
      AnyBreakingSnoc(lines[1..i], lines[i]);
      i := i + 1;
    }
    assert lines[1..i] == lines[1..];
  }

  // ---------------------------------------------------------------------------
  // What ParseCommit accepts

  /** A one-line valid header parses to itself. */
  lemma SingleLineCommit(c: Commit)
    requires ValidHeader(c) && '\n' !in RenderHeader(c)
    ensures Conventional(RenderHeader(c)) == Some(c)
  {
    HeaderComplete(c);
    GapNeedsNewline(RenderHeader(c));
  }

  /** A header followed by text after a single newline, with no gap, is rejected. */
  lemma OneNewlineRejected(c: Commit, text: string)
    requires ValidHeader(c)
    requires !MultiLine(RenderHeader(c) + ("\n" + text))
    ensures Conventional(RenderHeader(c) + ("\n" + text)) == None
  {
    HeaderThenNewline(c, text);
  }

  /**
   * A one-line header, a newline and a body with a gap: the header's fields,
   * the body verbatim, and the bang raised by any breaking-change footer line
   * but never cleared.
   */
  lemma MultiLineCommit(c: Commit, body: string)
    requires ValidHeader(c) && '\n' !in RenderHeader(c)
    requires MultiLine(RenderHeader(c) + "\n" + body)
    ensures Conventional(RenderHeader(c) + "\n" + body)
      == Some(c.(bang := c.bang || AnyBreaking(Split(body, '\n')), body := body))
  {
    var h := RenderHeader(c);
    SplitAtSeparator(h, '\n', body);
    assert h + "\n" + body == h + ['\n'] + body;
    var lines := Split(h + "\n" + body, '\n');
    assert lines == [h] + Split(body, '\n');
    assert lines[1..] == Split(body, '\n');
    JoinSplit(body, '\n');
    HeaderComplete(c);
  }

  /**
   * For a one-line message, and for a message with a gap, a first line that is
   * not a valid header means no commit.
   */
  lemma FirstLineDecides(msg: string)
    requires '\n' !in msg || MultiLine(msg)
    requires ParseHeader(Split(msg, '\n')[0]) == None
    ensures Conventional(msg) == None
  {
    if '\n' !in msg {
      SplitNoSeparator(msg, '\n');
      GapNeedsNewline(msg);
    }
  }

  /**
   * Without a gap, the header expression sees the whole text, and its type
   * group accepts newlines: the first line alone does not decide.
   */
  lemma NewlineInType()
    ensures Conventional("a\nb: c") == Some(Commit("a\nb", "", "c", "", false))
  {
    var c := Commit("a\nb", "", "c", "", false);
    var m := "a\nb: c";
    assert !GapFrom("c", true, 0);
    assert !GapFrom(" c", true, 0);
    assert !GapFrom(": c", true, 0);
    assert !GapFrom("b: c", true, 1);
    assert !GapFrom("\nb: c", true, 0);
    assert !IsMultiLine(m);
    assert RenderScope("") == [] && RenderBang(false) == [];
    assert "a\nb" + ([] + ([] + (": " + "c"))) == m;
    HeaderComplete(c);
  }

  lemma TestSimpleCommit()
    ensures Conventional("fix: a") == Some(Commit("fix", "", "a", "", false))
  {
    var c := Commit("fix", "", "a", "", false);
    assert RenderHeader(c) == "fix: a";
    SingleLineCommit(c);
  }
}
