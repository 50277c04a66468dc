/**
 * EQL, the key=value configuration mini-language of eql/eql.go.
 *
 * The scanner is a three-state machine (key, value, quote) with an escape flag,
 * a quote delimiter and two pending buffers. `Step` is its transition on one
 * character, `Run` folds it over a text, and `Parsed` is the specification of
 * the whole parse; the imperative `Parse` is proved to compute `Parsed`, and the
 * lemmas below state what `Parsed` means: the two errors, and a render/parse
 * round trip that pins down keys, values, quoting, escaping and trimming.
 */
module Eql {
  import opened Wrappers
  import opened Text

  /** The scanner states stateKey, stateValue and stateQuote. */
  datatype State = StateKey | StateValue | StateQuote

  /** Everything the scan loop of Parse updates. */
  datatype Scanner = Scanner(
    s: State,
    isEscaping: bool,
    quoteStyle: char,
    tmpKey: string,
    tmpValue: string,
    result: map<string, string>)

  const Initial := Scanner(StateKey, false, ' ', [], [], map[])

  /** The two ways a parse fails; the position is 1-based. */
  datatype ParseError = UnexpectedEquals(position: nat) | UnterminatedQuote

  const EqualsPrefix := "unexpected '=' at position "

  /** The error text the parser reports. */
  function Message(e: ParseError): (m: string)
    ensures e.UnexpectedEquals? ==>
      |m| > |EqualsPrefix| && m[..|EqualsPrefix|] == EqualsPrefix && IsDecimal(m[|EqualsPrefix|..])
      && Atoi(m[|EqualsPrefix|..]) == e.position
    ensures e.UnterminatedQuote? ==> m == "unterminated quoted string"
  {
    match e
    case UnexpectedEquals(p) =>
      var digits := DecimalString(p);
      AtoiDecimalString(p);
      assert (EqualsPrefix + digits)[|EqualsPrefix|..] == digits;
      EqualsPrefix + digits
    case UnterminatedQuote => "unterminated quoted string"
  }

  /** The pushAndReset closure: commit the trimmed pending pair and go back to the key state. */
  function PushAndReset(st: Scanner): (r: Scanner)
    ensures Clean(r) && r.quoteStyle == st.quoteStyle
    ensures r.result.Keys == st.result.Keys + {TrimSpace(st.tmpKey)}
    ensures r.result[TrimSpace(st.tmpKey)] == TrimSpace(st.tmpValue)
    ensures forall k :: k in st.result && k != TrimSpace(st.tmpKey) ==> r.result[k] == st.result[k]
  {
    Scanner(StateKey, false, st.quoteStyle, [], [], st.result[TrimSpace(st.tmpKey) := TrimSpace(st.tmpValue)])
  }

  /**
   * One iteration of the scan loop, on character r at 0-based index i. It fails
   * only on an `=` with no key before it; it skips a space before a key or a
   * value; and the map changes only when a pair is committed.
   */
  function Step(st: Scanner, r: char, i: nat): (next: Result<Scanner, ParseError>)
    ensures next.Err? <==> st.s == StateKey && r == '=' && st.tmpKey == []
    ensures next.Err? ==> next.error == UnexpectedEquals(i + 1)
    ensures r == ' ' && ((st.s == StateKey && st.tmpKey == []) || (st.s == StateValue && st.tmpValue == [])) ==> next == Ok(st)
    ensures next.Ok? && next.value.result != st.result ==> next.value == PushAndReset(st)
  {
    match st.s
    case StateKey =>
      if r == ' ' && |st.tmpKey| == 0 then Ok(st)
      else if r == '=' then
        if |st.tmpKey| == 0 then Err(UnexpectedEquals(i + 1)) else Ok(st.(s := StateValue))
      else Ok(st.(tmpKey := st.tmpKey + [r]))
    case StateValue =>
      if |st.tmpValue| == 0 && r == ' ' then Ok(st)
      // Go's && binds tighter than ||: a double quote opens a quote anywhere in a value
      else if r == '"' || (r == '\'' && |st.tmpValue| == 0) then Ok(st.(s := StateQuote, quoteStyle := r))
      else if r == ' ' then Ok(PushAndReset(st))
      else Ok(st.(tmpValue := st.tmpValue + [r]))
    case StateQuote =>
      if r == '\\' then Ok(st.(isEscaping := true))
      else if st.isEscaping then
        Ok(st.(isEscaping := false,
               tmpValue := st.tmpValue + (if r != st.quoteStyle then ['\\', r] else [r])))
      else if r == st.quoteStyle then Ok(PushAndReset(st))
      else Ok(st.(tmpValue := st.tmpValue + [r]))
  }

  /**
   * The scan loop over w, whose first character has index i in the input.
   * The only error it can stop with is a stray '=' inside w.
   */
  function Run(st: Scanner, w: string, i: nat): (r: Result<Scanner, ParseError>)
    ensures r.Err? ==> r.error.UnexpectedEquals? && i < r.error.position <= i + |w|
    decreases |w|
  {
    if w == [] then Ok(st)
    else
      match Step(st, w[0], i)
      case Err(e) => Err(e)
      case Ok(next) => Run(next, w[1..], i + 1)
  }

  /** What happens after the last character. */
  function Finish(st: Scanner): Result<map<string, string>, ParseError> {
    if st.s == StateQuote then Err(UnterminatedQuote)
    else if st.s == StateValue then Ok(PushAndReset(st).result)
    else Ok(st.result)
  }

  /** The outcome of parsing str: a map, or an error and no map at all. */
  function Parsed(str: string): Result<map<string, string>, ParseError> {
    match Run(Initial, str, 0)
    case Err(e) => Err(e)
    case Ok(st) => Finish(st)
  }

  /** eql.Parse. */
  method Parse(str: string) returns (r: Result<map<string, string>, ParseError>)
    ensures r == Parsed(str)
  {
    var st := Initial;
    var i := 0;
    while i < |str|
      invariant 0 <= i <= |str|
      invariant Run(Initial, str, 0) == Run(st, str[i..], i)
    {
      var c := str[i];
      ghost var before := st;
      assert str[i..][0] == c && str[i..][1..] == str[i + 1..];
      match st.s {
        case StateKey =>
          if c == ' ' && |st.tmpKey| == 0 {
          } else if c == '=' {
            if |st.tmpKey| == 0 {
              return Err(UnexpectedEquals(i + 1));
            }
            st := st.(s := StateValue);
          } else {
            st := st.(tmpKey := st.tmpKey + [c]);
          }
        case StateValue =>
          if |st.tmpValue| == 0 && c == ' ' {
          } else if c == '"' || (c == '\'' && |st.tmpValue| == 0) {
            st := st.(s := StateQuote, quoteStyle := c);
          } else if c == ' ' {
            st := PushAndReset(st);
          } else {
            st := st.(tmpValue := st.tmpValue + [c]);
          }
        case StateQuote =>
          if c == '\\' {
            st := st.(isEscaping := true);
          } else if st.isEscaping {
            if c != st.quoteStyle {
              st := st.(tmpValue := st.tmpValue + ['\\']);
            }
            st := st.(isEscaping := false, tmpValue := st.tmpValue + [c]);
            assert st.tmpValue == before.tmpValue + (if c != before.quoteStyle then ['\\', c] else [c]);
          } else if c == st.quoteStyle {
            st := PushAndReset(st);
          } else {
            st := st.(tmpValue := st.tmpValue + [c]);
          }
      }
      assert Step(before, c, i) == Ok(st);
      i := i + 1;
    }
    if st.s == StateQuote {
      return Err(UnterminatedQuote);
    }
    if st.s == StateValue {
      st := PushAndReset(st);
    }
    return Ok(st.result);
  }

  // ---------------------------------------------------------------------------
  // Running the scanner over concatenated text

  lemma {:induction false} RunThen(st: Scanner, u: string, v: string, i: nat, mid: Scanner)
    requires Run(st, u, i) == Ok(mid)
    ensures Run(st, u + v, i) == Run(mid, v, i + |u|)
    decreases |u|
  {
    if u == [] {
      assert u + v == v;
    } else {
      assert (u + v)[0] == u[0] && (u + v)[1..] == u[1..] + v;
      var next := Step(st, u[0], i).value;
      RunThen(next, u[1..], v, i + 1, mid);
    }
  }

  /** Runs over u and then over v, with j the index after u, make a run over u + v. */
  lemma RunChain(st: Scanner, u: string, v: string, i: nat, j: nat, mid: Scanner, after: Scanner)
    requires j == i + |u|
    requires Run(st, u, i) == Ok(mid) && Run(mid, v, j) == Ok(after)
    ensures Run(st, u + v, i) == Ok(after)
  {
    RunThen(st, u, v, i, mid);
  }

  lemma {:induction false} RunStops(st: Scanner, u: string, v: string, i: nat)
    requires Run(st, u, i).Err?
    ensures Run(st, u + v, i) == Run(st, u, i)
    decreases |u|
  {
    assert (u + v)[0] == u[0] && (u + v)[1..] == u[1..] + v;
    if Step(st, u[0], i).Ok? {
      RunStops(Step(st, u[0], i).value, u[1..], v, i + 1);
    }
  }

  /** One step, then the rest. */
  lemma RunStep(st: Scanner, c: char, rest: string, i: nat, next: Scanner, after: Scanner)
    requires Step(st, c, i) == Ok(next) && Run(next, rest, i + 1) == Ok(after)
    ensures Run(st, [c] + rest, i) == Ok(after)
  {
    assert ([c] + rest)[0] == c && ([c] + rest)[1..] == rest;
  }

  lemma RunOne(st: Scanner, c: char, i: nat)
    ensures Run(st, [c], i) == Step(st, c, i)
  {
    assert [c][1..] == [];
  }

  // ---------------------------------------------------------------------------
  // The two errors

  /**
   * The parse fails with "unexpected '='" at 1-based position n + 1 exactly when
   * character n is '=' and the scan of the text before it ends in the key state
   * with an empty pending key.
   */
  lemma StrayEquals(str: string, n: nat)
    requires n < |str|
    ensures Parsed(str) == Err(UnexpectedEquals(n + 1)) <==>
      && str[n] == '='
      && Run(Initial, str[..n], 0).Ok?
      && Run(Initial, str[..n], 0).value.s == StateKey
      && Run(Initial, str[..n], 0).value.tmpKey == []
  {
    var pre, post := str[..n], str[n..];
    assert str == pre + post;
    assert post[0] == str[n] && post[1..] == str[n + 1..];
    if Run(Initial, pre, 0).Err? {
      RunStops(Initial, pre, post, 0);
    } else {
      var mid := Run(Initial, pre, 0).value;
      RunThen(Initial, pre, post, 0, mid);
      assert Run(Initial, str, 0) == Run(mid, post, n);
    }
  }

  /**
   * The parse fails with "unterminated quoted string" exactly when the whole
   * input scans without error and leaves the scanner inside a quote.
   */
  lemma Unterminated(str: string)
    ensures Parsed(str) == Err(UnterminatedQuote) <==>
      Run(Initial, str, 0).Ok? && Run(Initial, str, 0).value.s == StateQuote
  {
  }

  // ---------------------------------------------------------------------------
  // Rendering configurations, and parsing them back

  /** How a value is written: as is, between quotes, or a bare head followed by a double-quoted tail. */
  datatype Token =
    | Bare(text: string)
    | Quoted(delimiter: char, text: string)
    | Spliced(head: string, text: string)

  datatype Entry = Entry(key: string, token: Token)

  /** The value a token denotes, before trimming. */
  function TokenValue(t: Token): string {
    match t
    case Bare(text) => text
    case Quoted(_, text) => text
    case Spliced(head, text) => head + text
  }

  /** Backslash before every occurrence of the delimiter. */
  function Escape(text: string, q: char): string {
    if text == [] then []
    else (if text[0] == q then ['\\', q] else [text[0]]) + Escape(text[1..], q)
  }

  /**
   * Texts that survive quoting: every backslash is followed by a character other
   * than a backslash or the delimiter (the scanner drops a backslash before
   * another backslash, and keeps only the delimiter after a backslash).
   */
  predicate Escapable(text: string, q: char)
    decreases |text|
  {
    if text == [] then true
    else if text[0] == '\\' then |text| >= 2 && text[1] != '\\' && text[1] != q && Escapable(text[2..], q)
    else Escapable(text[1..], q)
  }

  /** Texts that scan as an unquoted value: no space, no double quote, no leading single quote. */
  predicate BareText(text: string) {
    && |text| > 0
    && text[0] != '\''
    && forall k :: 0 <= k < |text| ==> text[k] != ' ' && text[k] != '"'
  }

  /** Keys: non-empty, no '=', no surrounding white space (inner spaces are allowed). */
  predicate ValidKey(key: string) {
    |key| > 0 && Trimmed(key) && forall k :: 0 <= k < |key| ==> key[k] != '='
  }

  predicate ValidToken(t: Token) {
    match t
    case Bare(text) => BareText(text)
    case Quoted(q, text) => (q == '"' || q == '\'') && Escapable(text, q)
    case Spliced(head, text) => BareText(head) && Escapable(text, '"')
  }

  predicate ValidEntry(e: Entry) {
    ValidKey(e.key) && ValidToken(e.token)
  }

  function RenderToken(t: Token): string {
    match t
    case Bare(text) => text
    case Quoted(q, text) => [q] + Escape(text, q) + [q]
    case Spliced(head, text) => head + "\"" + Escape(text, '"') + "\""
  }

  /** `key=value`, or `key = value` when spaced. */
  function RenderEntry(e: Entry, spaced: bool): string {
    e.key + (if spaced then " = " else "=") + RenderToken(e.token)
  }

  /** The entries rendered one after another, separated by single spaces. */
  function Render(entries: seq<Entry>, spaced: bool): string {
    if entries == [] then []
    else if |entries| == 1 then RenderEntry(entries[0], spaced)
    else RenderEntry(entries[0], spaced) + " " + Render(entries[1..], spaced)
  }

  lemma RenderCons(entries: seq<Entry>, spaced: bool)
    requires |entries| >= 2
    ensures Render(entries, spaced) == RenderEntry(entries[0], spaced) + " " + Render(entries[1..], spaced)
  {
  }

  /** The map the entries describe: each key to its trimmed value, later entries overwriting earlier ones. */
  function Assign(m: map<string, string>, entries: seq<Entry>): map<string, string>
    decreases |entries|
  {
    if entries == [] then m
    else Assign(m[entries[0].key := TrimSpace(TokenValue(entries[0].token))], entries[1..])
  }

  /** The keys the entries mention. */
  function EntryKeys(entries: seq<Entry>): set<string>
    decreases |entries|
  {
    if entries == [] then {} else {entries[0].key} + EntryKeys(entries[1..])
  }

  /** Assign binds exactly the keys of the entries on top of the ones already there. */
  lemma {:induction false} AssignKeys(m: map<string, string>, entries: seq<Entry>)
    ensures Assign(m, entries).Keys == m.Keys + EntryKeys(entries)
    decreases |entries|
  {
    if entries != [] {
      AssignKeys(m[entries[0].key := TrimSpace(TokenValue(entries[0].token))], entries[1..]);
    }
  }

  /** The last entry with a given key decides its value. */
  lemma {:induction false} AssignLastWins(m: map<string, string>, entries: seq<Entry>, j: nat)
    requires j < |entries|
    requires forall l :: j < l < |entries| ==> entries[l].key != entries[j].key
    ensures entries[j].key in Assign(m, entries)
    ensures Assign(m, entries)[entries[j].key] == TrimSpace(TokenValue(entries[j].token))
    decreases |entries|
  {
    var m' := m[entries[0].key := TrimSpace(TokenValue(entries[0].token))];
    if j == 0 {
      AssignUntouched(m', entries[1..], entries[0].key);
    } else {
      AssignLastWins(m', entries[1..], j - 1);
    }
  }

  /** A key no entry mentions keeps its binding. */
  lemma {:induction false} AssignUntouched(m: map<string, string>, entries: seq<Entry>, key: string)
    requires key in m
    requires forall l :: 0 <= l < |entries| ==> entries[l].key != key
    ensures key in Assign(m, entries) && Assign(m, entries)[key] == m[key]
    decreases |entries|
  {
    if entries != [] {
      AssignUntouched(m[entries[0].key := TrimSpace(TokenValue(entries[0].token))], entries[1..], key);
    }
  }

  /** The key state with nothing pending. */
  predicate Clean(st: Scanner) {
    st.s == StateKey && !st.isEscaping && st.tmpKey == [] && st.tmpValue == []
  }

  /**
   * After a rendered entry: either the pair is committed already (after a quote),
   * or an unquoted value is pending whose commit gives res.
   */
  predicate Settled(st: Scanner, res: map<string, string>) {
    && !st.isEscaping
    && match st.s
       case StateKey => st.tmpKey == [] && st.tmpValue == [] && st.result == res
       case StateValue => st.tmpValue != [] && st.result[TrimSpace(st.tmpKey) := TrimSpace(st.tmpValue)] == res
       case StateQuote => false
  }

  lemma {:induction false} ScanKeyText(st: Scanner, w: string, i: nat)
    requires st.s == StateKey
    requires forall k :: 0 <= k < |w| ==> w[k] != '='
    requires w != [] && st.tmpKey == [] ==> w[0] != ' '
    ensures Run(st, w, i) == Ok(st.(tmpKey := st.tmpKey + w))
    decreases |w|
  {
    if w == [] {
      assert st.tmpKey + w == st.tmpKey;
    } else {
      var next := st.(tmpKey := st.tmpKey + [w[0]]);
      assert Step(st, w[0], i) == Ok(next);
      ScanKeyText(next, w[1..], i + 1);
      assert next.tmpKey + w[1..] == st.tmpKey + w;
    }
  }

  lemma {:induction false} ScanBareText(st: Scanner, w: string, i: nat)
    requires st.s == StateValue
    requires forall k :: 0 <= k < |w| ==> w[k] != ' ' && w[k] != '"'
    requires w != [] && st.tmpValue == [] ==> w[0] != '\''
    ensures Run(st, w, i) == Ok(st.(tmpValue := st.tmpValue + w))
    decreases |w|
  {
    if w == [] {
      assert st.tmpValue + w == st.tmpValue;
    } else {
      var next := st.(tmpValue := st.tmpValue + [w[0]]);
      assert Step(st, w[0], i) == Ok(next);
      ScanBareText(next, w[1..], i + 1);
      assert next.tmpValue + w[1..] == st.tmpValue + w;
    }
  }

  /** A backslash and the character after it, inside a quote. */
  lemma ScanEscapePair(st: Scanner, c: char, i: nat)
    requires st.s == StateQuote && !st.isEscaping && c != '\\'
    ensures Run(st, ['\\', c], i) == Ok(st.(tmpValue := st.tmpValue + (if c != st.quoteStyle then ['\\', c] else [c])))
  {
    var esc := st.(isEscaping := true);
    assert Run(st, ['\\'], i) == Ok(esc) by { RunOne(st, '\\', i); }
    assert Run(esc, [c], i + 1) == Ok(st.(tmpValue := st.tmpValue + (if c != st.quoteStyle then ['\\', c] else [c]))) by {
      RunOne(esc, c, i + 1);
    }
    RunChain(st, ['\\'], [c], i, i + 1, esc, st.(tmpValue := st.tmpValue + (if c != st.quoteStyle then ['\\', c] else [c])));
    assert ['\\'] + [c] == ['\\', c];
  }

  /** Escaping distributes over concatenation. */
  lemma {:induction false} EscapeAppend(a: string, b: string, q: char)
    ensures Escape(a + b, q) == Escape(a, q) + Escape(b, q)
    decreases |a|
  {
    if a == [] {
      assert a + b == b;
    } else {
      assert (a + b)[0] == a[0] && (a + b)[1..] == a[1..] + b;
      EscapeAppend(a[1..], b, q);
    }
  }

  /**
   * One unit of quoted text: a character other than a backslash, or a backslash
   * and a character that is neither a backslash nor the delimiter.
   */
  predicate EscapeUnit(u: string, q: char) {
    || (|u| == 1 && u[0] != '\\')
    || (|u| == 2 && u[0] == '\\' && u[1] != '\\' && u[1] != q)
  }

  lemma ScanEscapeUnit(st: Scanner, u: string, i: nat)
    requires st.s == StateQuote && !st.isEscaping && st.quoteStyle != '\\'
    requires EscapeUnit(u, st.quoteStyle)
    ensures Run(st, Escape(u, st.quoteStyle), i) == Ok(st.(tmpValue := st.tmpValue + u))
  {
    var q := st.quoteStyle;
    if |u| == 1 {
      assert u[1..] == [];
      if u[0] == q {
        assert Escape(u, q) == ['\\', q];
        ScanEscapePair(st, q, i);
        assert u == [q];
      } else {
        assert Escape(u, q) == [u[0]];
        RunOne(st, u[0], i);
        assert u == [u[0]];
      }
    } else {
      assert Escape(u[1..], q) == [u[1]] by { assert u[1..][1..] == []; }
      assert Escape(u, q) == ['\\', u[1]];
      ScanEscapePair(st, u[1], i);
      assert u == ['\\', u[1]];
    }
  }

  /** The escaped form of a quotable text scans back to the text, inside the quote. */
  lemma {:induction false} ScanEscapedText(st: Scanner, w: string, i: nat)
    requires st.s == StateQuote && !st.isEscaping && st.quoteStyle != '\\'
    requires Escapable(w, st.quoteStyle)
    ensures Run(st, Escape(w, st.quoteStyle), i) == Ok(st.(tmpValue := st.tmpValue + w))
    decreases |w|
  {
    var q := st.quoteStyle;
    if w == [] {
      assert st.tmpValue + w == st.tmpValue;
    } else {
      var n := if w[0] == '\\' then 2 else 1;
      var u, rest := w[..n], w[n..];
      assert w == u + rest;
      var next := st.(tmpValue := st.tmpValue + u);
      ScanEscapeUnit(st, u, i);
      ScanEscapedText(next, rest, i + |Escape(u, q)|);
      RunChain(st, Escape(u, q), Escape(rest, q), i, i + |Escape(u, q)|, next, next.(tmpValue := next.tmpValue + rest));
      EscapeAppend(u, rest, q);
      assert next.tmpValue + rest == st.tmpValue + w;
    }
  }

  /** The key and the `=` (with its optional spaces) bring a clean scanner to an empty value. */
  lemma ScanKeyPart(st: Scanner, key: string, spaced: bool, i: nat) returns (mid: Scanner)
    requires Clean(st) && ValidKey(key)
    ensures Run(st, key + (if spaced then " = " else "="), i) == Ok(mid)
    ensures mid.s == StateValue && !mid.isEscaping && mid.tmpValue == [] && mid.result == st.result
    ensures mid.quoteStyle == st.quoteStyle && TrimSpace(mid.tmpKey) == key
  {
    var keyed := st.(tmpKey := key);
    ScanKeyText(st, key, i);
    assert [] + key == key;
    var j := i + |key|;
    if spaced {
      var spaceKey := keyed.(tmpKey := key + " ");
      mid := spaceKey.(s := StateValue);
      assert Run(keyed, " ", j) == Ok(spaceKey) by { RunOne(keyed, ' ', j); }
      assert Run(spaceKey, "=", j + 1) == Ok(mid) by { RunOne(spaceKey, '=', j + 1); }
      assert Run(mid, " ", j + 2) == Ok(mid) by { RunOne(mid, ' ', j + 2); }
      RunChain(keyed, " ", "=", j, j + 1, spaceKey, mid);
      assert " " + "=" == " =";
      RunChain(keyed, " =", " ", j, j + 2, mid, mid);
      assert " =" + " " == " = ";
      RunChain(st, key, " = ", i, j, keyed, mid);
      TrimSpaceDropsTrailingSpace(key);
    } else {
      mid := keyed.(s := StateValue);
      assert Run(keyed, "=", j) == Ok(mid) by { RunOne(keyed, '=', j); }
      RunChain(st, key, "=", i, j, keyed, mid);
      TrimSpaceOfTrimmed(key);
    }
  }

  /** The scanner just after `=`: value state, nothing pending in the value. */
  predicate AtValue(st: Scanner) {
    st.s == StateValue && !st.isEscaping && st.tmpValue == []
  }

  lemma ScanBareToken(mid: Scanner, text: string, j: nat) returns (after: Scanner)
    requires AtValue(mid) && BareText(text)
    ensures Run(mid, text, j) == Ok(after)
    ensures Settled(after, mid.result[TrimSpace(mid.tmpKey) := TrimSpace(text)])
  {
    ScanBareText(mid, text, j);
    assert [] + text == text;
    after := mid.(tmpValue := text);
  }

  lemma ScanQuotedToken(mid: Scanner, q: char, text: string, j: nat) returns (after: Scanner)
    requires AtValue(mid) && (q == '"' || q == '\'') && Escapable(text, q)
    ensures Run(mid, [q] + Escape(text, q) + [q], j) == Ok(after)
    ensures Settled(after, mid.result[TrimSpace(mid.tmpKey) := TrimSpace(text)])
  {
    var open := mid.(s := StateQuote, quoteStyle := q);
    assert Run(mid, [q], j) == Ok(open) by { RunOne(mid, q, j); }
    ScanEscapedText(open, text, j + 1);
    assert [] + text == text;
    var filled := open.(tmpValue := text);
    RunChain(mid, [q], Escape(text, q), j, j + 1, open, filled);
    after := PushAndReset(filled);
    var k := j + |[q] + Escape(text, q)|;
    assert Run(filled, [q], k) == Ok(after) by { RunOne(filled, q, k); }
    RunChain(mid, [q] + Escape(text, q), [q], j, k, filled, after);
  }

  lemma ScanSplicedToken(mid: Scanner, head: string, text: string, j: nat) returns (after: Scanner)
    requires AtValue(mid) && BareText(head) && Escapable(text, '"')
    ensures Run(mid, head + "\"" + Escape(text, '"') + "\"", j) == Ok(after)
    ensures Settled(after, mid.result[TrimSpace(mid.tmpKey) := TrimSpace(head + text)])
  {
    var headed := mid.(tmpValue := head);
    ScanBareText(mid, head, j);
    assert [] + head == head;
    var open := headed.(s := StateQuote, quoteStyle := '"');
    var h := j + |head|;
    assert Run(headed, "\"", h) == Ok(open) by { RunOne(headed, '"', h); }
    RunChain(mid, head, "\"", j, h, headed, open);
    var k := j + |head + "\""|;
    ScanEscapedText(open, text, k);
    var filled := open.(tmpValue := head + text);
    RunChain(mid, head + "\"", Escape(text, '"'), j, k, open, filled);
    after := PushAndReset(filled);
    var k' := j + |head + "\"" + Escape(text, '"')|;
    assert Run(filled, "\"", k') == Ok(after) by { RunOne(filled, '"', k'); }
    RunChain(mid, head + "\"" + Escape(text, '"'), "\"", j, k', filled, after);
  }

  /** A rendered value brings the scanner from just after `=` to settled with its trimmed value. */
  lemma ScanToken(mid: Scanner, t: Token, j: nat) returns (after: Scanner)
    requires AtValue(mid) && ValidToken(t)
    ensures Run(mid, RenderToken(t), j) == Ok(after)
    ensures Settled(after, mid.result[TrimSpace(mid.tmpKey) := TrimSpace(TokenValue(t))])
  {
    match t {
      case Bare(text) =>
        after := ScanBareToken(mid, text, j);
      case Quoted(q, text) =>
        after := ScanQuotedToken(mid, q, text, j);
      case Spliced(head, text) =>
        after := ScanSplicedToken(mid, head, text, j);
    }
  }

  /** A clean scanner run over one rendered entry ends settled with that entry's pair. */
  lemma ScanEntry(st: Scanner, e: Entry, spaced: bool, i: nat) returns (after: Scanner)
    requires Clean(st) && ValidEntry(e)
    ensures Run(st, RenderEntry(e, spaced), i) == Ok(after)
    ensures Settled(after, st.result[e.key := TrimSpace(TokenValue(e.token))])
  {
    var sep := if spaced then " = " else "=";
    var mid := ScanKeyPart(st, e.key, spaced, i);
    var j := i + |e.key + sep|;
    after := ScanToken(mid, e.token, j);
    RunChain(st, e.key + sep, RenderToken(e.token), i, j, mid, after);
  }

  /** A settled scanner followed by a space is clean again, with the pending pair committed. */
  lemma SettledSpace(st: Scanner, res: map<string, string>, i: nat) returns (clean: Scanner)
    requires Settled(st, res)
    ensures Run(st, " ", i) == Ok(clean) && Clean(clean) && clean.result == res
  {
    RunOne(st, ' ', i);
    clean := Step(st, ' ', i).value;
  }

  /** Every entry is valid, stated entry by entry from the front. */
  predicate AllValid(entries: seq<Entry>) {
    entries == [] || (ValidEntry(entries[0]) && AllValid(entries[1..]))
  }

  lemma {:induction false} AllValidOf(entries: seq<Entry>)
    requires forall l :: 0 <= l < |entries| ==> ValidEntry(entries[l])
    ensures AllValid(entries)
  {
    if entries != [] {
      AllValidOf(entries[1..]);
    }
  }

  /** The first entry and a space, then the rest of the rendering. */
  lemma RunCons(st: Scanner, entries: seq<Entry>, spaced: bool, i: nat, j: nat, clean: Scanner, after: Scanner)
    requires |entries| >= 2 && j == i + |RenderEntry(entries[0], spaced) + " "|
    requires Run(st, RenderEntry(entries[0], spaced) + " ", i) == Ok(clean)
    requires Run(clean, Render(entries[1..], spaced), j) == Ok(after)
    ensures Run(st, Render(entries, spaced), i) == Ok(after)
  {
    RenderCons(entries, spaced);
    RunChain(st, RenderEntry(entries[0], spaced) + " ", Render(entries[1..], spaced), i, j, clean, after);
  }

  lemma AssignCons(m: map<string, string>, entries: seq<Entry>)
    requires entries != []
    ensures Assign(m, entries) == Assign(m[entries[0].key := TrimSpace(TokenValue(entries[0].token))], entries[1..])
  {
  }

  /**
   * A clean scanner run over the first entry and the space after it is clean
   * again, with that pair committed; j is the index after the space.
   */
  lemma ScanHead(st: Scanner, e: Entry, spaced: bool, i: nat) returns (clean: Scanner, j: nat)
    requires Clean(st) && ValidEntry(e)
    ensures j == i + |RenderEntry(e, spaced) + " "|
    ensures Run(st, RenderEntry(e, spaced) + " ", i) == Ok(clean)
    ensures Clean(clean) && clean.result == st.result[e.key := TrimSpace(TokenValue(e.token))]
  {
    var text := RenderEntry(e, spaced);
    var first := ScanEntry(st, e, spaced, i);
    clean := SettledSpace(first, st.result[e.key := TrimSpace(TokenValue(e.token))], i + |text|);
    RunChain(st, text, " ", i, i + |text|, first, clean);
    j := i + |text + " "|;
  }

  /** The last entry alone. */
  lemma ScanLast(st: Scanner, entries: seq<Entry>, spaced: bool, i: nat) returns (after: Scanner)
    requires Clean(st) && |entries| == 1 && ValidEntry(entries[0])
    ensures Run(st, Render(entries, spaced), i) == Ok(after)
    ensures Settled(after, Assign(st.result, entries))
  {
    after := ScanEntry(st, entries[0], spaced, i);
    assert entries[1..] == [];
  }

  /** A clean scanner run over several rendered entries ends settled with all their pairs. */
  lemma {:induction false} ScanEntries(st: Scanner, entries: seq<Entry>, spaced: bool, i: nat) returns (after: Scanner)
    requires Clean(st) && AllValid(entries) && |entries| >= 1
    ensures Run(st, Render(entries, spaced), i) == Ok(after)
    ensures Settled(after, Assign(st.result, entries))
    decreases |entries|
  {
    if |entries| == 1 {
      after := ScanLast(st, entries, spaced, i);
    } else {
      var clean, j := ScanHead(st, entries[0], spaced, i);
      after := ScanEntries(clean, entries[1..], spaced, j);
      RunCons(st, entries, spaced, i, j, clean, after);
      AssignCons(st.result, entries);
    }
  }

  /**
   * Round trip: rendered entries parse back to the map they describe, with or
   * without spaces around `=`, quoted or not.
   */
  lemma RenderParse(entries: seq<Entry>, spaced: bool)
    requires forall l :: 0 <= l < |entries| ==> ValidEntry(entries[l])
    ensures Parsed(Render(entries, spaced)) == Ok(Assign(map[], entries))
  {
    if entries != [] {
      AllValidOf(entries);
      var after := ScanEntries(Initial, entries, spaced, 0);
    }
  }

  /** A text made of spaces only. */
  predicate Blank(w: string) {
    forall k :: 0 <= k < |w| ==> w[k] == ' '
  }

  /** Spaces before a key, or before a value, are skipped: a run of them changes nothing. */
  lemma {:induction false} SpacesSkipped(st: Scanner, w: string, i: nat)
    requires Blank(w)
    requires (st.s == StateKey && st.tmpKey == []) || (st.s == StateValue && st.tmpValue == [])
    ensures Run(st, w, i) == Ok(st)
    decreases |w|
  {
    if w != [] {
      assert Step(st, w[0], i) == Ok(st);
      SpacesSkipped(st, w[1..], i + 1);
    }
  }

  /**
   * Rendered entries and a run of spaces (at least one after an entry) leave
   * the scanner clean, holding their map; n is the length of the text.
   */
  lemma ScanRendered(entries: seq<Entry>, spaced: bool, gap: string) returns (clean: Scanner, n: nat)
    requires forall l :: 0 <= l < |entries| ==> ValidEntry(entries[l])
    requires Blank(gap) && (entries != [] ==> |gap| >= 1)
    ensures n == |Render(entries, spaced) + gap|
    ensures Run(Initial, Render(entries, spaced) + gap, 0) == Ok(clean)
    ensures Clean(clean) && clean.result == Assign(map[], entries)
  {
    var text := Render(entries, spaced);
    n := |text + gap|;
    if entries == [] {
      assert text + gap == gap;
      SpacesSkipped(Initial, gap, 0);
      clean := Initial;
    } else {
      AllValidOf(entries);
      var after := ScanEntries(Initial, entries, spaced, 0);
      clean := SettledSpace(after, Assign(map[], entries), |text|);
      RunChain(Initial, text, " ", 0, |text|, after, clean);
      SpacesSkipped(clean, gap[1..], |text + " "|);
      RunChain(Initial, text + " ", gap[1..], 0, |text + " "|, clean, clean);
      assert text + " " + gap[1..] == text + gap;
    }
  }

  /**
   * A trailing key with no `=` is dropped without an error, whether it stands
   * alone or follows entries, after any run of spaces.
   */
  lemma TrailingKeyDropped(entries: seq<Entry>, spaced: bool, gap: string, key: string)
    requires forall l :: 0 <= l < |entries| ==> ValidEntry(entries[l])
    requires Blank(gap) && (entries != [] ==> |gap| >= 1)
    requires ValidKey(key)
    ensures Parsed(Render(entries, spaced) + gap + key) == Ok(Assign(map[], entries))
  {
    var clean, n := ScanRendered(entries, spaced, gap);
    ScanKeyText(clean, key, n);
    RunChain(Initial, Render(entries, spaced) + gap, key, 0, n, clean, clean.(tmpKey := clean.tmpKey + key));
  }

  /**
   * A trailing `key=` with nothing after it binds the key to the empty value,
   * whether it stands alone or follows entries, after any run of spaces.
   */
  lemma TrailingEmptyValue(entries: seq<Entry>, spaced: bool, gap: string, key: string)
    requires forall l :: 0 <= l < |entries| ==> ValidEntry(entries[l])
    requires Blank(gap) && (entries != [] ==> |gap| >= 1)
    requires ValidKey(key)
    ensures Parsed(Render(entries, spaced) + gap + key + "=") == Ok(Assign(map[], entries)[key := ""])
  {
    var text := Render(entries, spaced);
    var clean, n := ScanRendered(entries, spaced, gap);
    var mid := ScanKeyPart(clean, key, false, n);
    RunChain(Initial, text + gap, key + "=", 0, n, clean, mid);
    assert text + gap + (key + "=") == text + gap + key + "=";
    assert TrimSpace([]) == [];
  }

  /** The lone cases: `abc` gives no binding, and `a=` binds a to the empty value. */
  lemma LoneTrailingKey()
    ensures Parsed("abc") == Ok(map[])
    ensures Parsed("a=") == Ok(map["a" := ""])
  {
    assert ValidKey("abc") && ValidKey("a");
    var none: seq<Entry> := [];
    assert Render(none, false) + "" + "abc" == "abc";
    TrailingKeyDropped(none, false, "", "abc");
    assert Render(none, false) + "" + "a" + "=" == "a=";
    TrailingEmptyValue(none, false, "", "a");
  }

  // ---------------------------------------------------------------------------
  // The cases of eql/eql_test.go, and the quirks of the scanner

  /** A text that renders entries parses to the map they describe. */
  lemma ParsesAs(str: string, entries: seq<Entry>, spaced: bool, m: map<string, string>)
    requires AllValid(entries) && |entries| >= 1
    requires Render(entries, spaced) == str && Assign(map[], entries) == m
    ensures Parsed(str) == Ok(m)
  {
    var after := ScanEntries(Initial, entries, spaced, 0);
  }

  /** A text that renders one entry parses to that entry's pair. */
  lemma ParsesOne(str: string, e: Entry, spaced: bool, v: string)
    requires ValidEntry(e) && RenderEntry(e, spaced) == str && TrimSpace(TokenValue(e.token)) == v
    ensures Parsed(str) == Ok(map[e.key := v])
  {
    var after := ScanEntry(Initial, e, spaced, 0);
  }

  lemma TestEqlInvalid()
    ensures Parsed(" =path test = true") == Err(UnexpectedEquals(2))
  {
    var str := " =path test = true";
    assert str[..1] == " ";
    assert Run(Initial, " ", 0) == Ok(Initial) by { RunOne(Initial, ' ', 0); }
    StrayEquals(str, 1);
  }

  /** Spaces around `=` are dropped. */
  lemma SpacedEquals()
    ensures Parsed("a = 1 b = 2") == Ok(map["a" := "1", "b" := "2"])
  {
    var entries := [Entry("a", Bare("1")), Entry("b", Bare("2"))];
    assert Render(entries, true) == "a = 1 b = 2";
    assert Assign(map[], entries) == map["a" := "1", "b" := "2"] by {
      TrimSpaceOfTrimmed("1");
      TrimSpaceOfTrimmed("2");
    }
    assert AllValid(entries);
    ParsesAs("a = 1 b = 2", entries, true, map["a" := "1", "b" := "2"]);
  }

  /** The last occurrence of a key wins. */
  lemma LastKeyWins()
    ensures Parsed("a=1 a=2") == Ok(map["a" := "2"])
  {
    var entries := [Entry("a", Bare("1")), Entry("a", Bare("2"))];
    assert Render(entries, false) == "a=1 a=2";
    assert Assign(map[], entries) == map["a" := "2"] by {
      TrimSpaceOfTrimmed("1");
      TrimSpaceOfTrimmed("2");
    }
    assert AllValid(entries);
    ParsesAs("a=1 a=2", entries, false, map["a" := "2"]);
  }

  /** A quoted value keeps its inner spaces. */
  lemma QuotedSpace()
    ensures Parsed("k=\"a b\"") == Ok(map["k" := "a b"])
  {
    var e := Entry("k", Quoted('"', "a b"));
    assert RenderEntry(e, false) == "k=\"a b\"";
    TrimSpaceOfTrimmed("a b");
    ParsesOne("k=\"a b\"", e, false, "a b");
  }

  /** A backslash before the delimiter leaves only the delimiter. */
  lemma EscapedDelimiter()
    ensures Parsed("k=\"a\\\"b\"") == Ok(map["k" := "a\"b"])
  {
    var e := Entry("k", Quoted('"', "a\"b"));
    assert RenderEntry(e, false) == "k=\"a\\\"b\"";
    TrimSpaceOfTrimmed("a\"b");
    ParsesOne("k=\"a\\\"b\"", e, false, "a\"b");
  }

  /** A backslash before any other character is kept with it. */
  lemma BackslashKept()
    ensures Parsed("k=\"a\\b\"") == Ok(map["k" := "a\\b"])
  {
    var e := Entry("k", Quoted('"', "a\\b"));
    assert RenderEntry(e, false) == "k=\"a\\b\"";
    TrimSpaceOfTrimmed("a\\b");
    ParsesOne("k=\"a\\b\"", e, false, "a\\b");
  }

  /** A space inside a key is kept as part of the key. */
  lemma SpaceInKey()
    ensures Parsed("a b=c") == Ok(map["a b" := "c"])
  {
    var e := Entry("a b", Bare("c"));
    assert RenderEntry(e, false) == "a b=c";
    TrimSpaceOfTrimmed("c");
    ParsesOne("a b=c", e, false, "c");
  }

  /** A double quote inside an unquoted value opens a quote, and what came before it is kept. */
  lemma QuoteInsideValue()
    ensures Parsed("k=ab\"c d\"") == Ok(map["k" := "abc d"])
  {
    var e := Entry("k", Spliced("ab", "c d"));
    assert RenderEntry(e, false) == "k=ab\"c d\"";
    assert TokenValue(e.token) == "abc d";
    TrimSpaceOfTrimmed("abc d");
    ParsesOne("k=ab\"c d\"", e, false, "abc d");
  }

  /** A single quote inside an unquoted value is an ordinary character. */
  lemma SingleQuoteInsideValue()
    ensures Parsed("k=a'b") == Ok(map["k" := "a'b"])
  {
    var e := Entry("k", Bare("a'b"));
    assert RenderEntry(e, false) == "k=a'b";
    TrimSpaceOfTrimmed("a'b");
    ParsesOne("k=a'b", e, false, "a'b");
  }

  /** Quoted values are trimmed too. */
  lemma QuotedValueTrimmed()
    ensures Parsed("k=' x '") == Ok(map["k" := "x"])
  {
    var e := Entry("k", Quoted('\'', " x "));
    assert RenderEntry(e, false) == "k=' x '";
    assert TrimLeft(" x ") == "x ";
    assert "x "[..1] == "x";
    assert TrimRight("x ") == TrimRight("x") == "x";
    ParsesOne("k=' x '", e, false, "x");
  }

  /**
   * A backslash after a backslash keeps the escape pending, so both are
   * dropped and the delimiter after them is taken literally: `k="a\\"` never
   * closes its quote, and a backslash cannot be escaped.
   */
  lemma DoubleBackslashSwallowed()
    ensures Parsed("k=\"a\\\\\"") == Err(UnterminatedQuote)
  {
    var mid := ScanKeyPart(Initial, "k", false, 0);
    var open := mid.(s := StateQuote, quoteStyle := '"');
    var filled := open.(tmpValue := "a");
    var escaping := filled.(isEscaping := true);
    var after := filled.(tmpValue := "a\"");
    assert open.tmpValue + ['a'] == "a" && "a" + ['"'] == "a\"";
    var r4 := ['"'];
    RunStep(escaping, '"', [], 6, after, after);
    assert ['"'] + [] == r4;
    var r3 := ['\\'] + r4;
    RunStep(escaping, '\\', r4, 5, escaping, after);
    var r2 := ['\\'] + r3;
    RunStep(filled, '\\', r3, 4, escaping, after);
    var r1 := ['a'] + r2;
    RunStep(open, 'a', r2, 3, filled, after);
    var tail := ['"'] + r1;
    RunStep(mid, '"', r1, 2, open, after);
    assert "k" + "=" + tail == "k=\"a\\\\\"";
    RunChain(Initial, "k" + "=", tail, 0, 2, mid, after);
  }
}
