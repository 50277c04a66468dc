/**
 * The parts of Go's `strings` and `strconv` packages that the release logic
 * relies on: TrimSpace, ToLower, HasPrefix, Split and Join on a one-character
 * separator, and decimal conversion of naturals (`%d` and `Atoi`).
 */
module Text {

  /** Go's unicode.IsSpace: the Latin-1 white space plus the Unicode Z category spaces. */
  predicate IsSpace(c: char) {
    || c == ' ' || c == '\t' || c == '\n' || c == '\U{0B}' || c == '\U{0C}' || c == '\r'
    || c == '\U{85}' || c == '\U{A0}' || c == '\U{1680}'
    || ('\U{2000}' <= c <= '\U{200A}')
    || c == '\U{2028}' || c == '\U{2029}' || c == '\U{202F}' || c == '\U{205F}' || c == '\U{3000}'
  }

  /** Drops leading white space (see TrimLeftDrops for what it leaves). */
  function TrimLeft(s: string): string {
    if s != [] && IsSpace(s[0]) then TrimLeft(s[1..]) else s
  }

  /** Drops trailing white space (see TrimRightDrops for what it leaves). */
  function TrimRight(s: string): string {
    if s != [] && IsSpace(s[|s| - 1]) then TrimRight(s[..|s| - 1]) else s
  }

  predicate Trimmed(s: string) {
    s == [] || (!IsSpace(s[0]) && !IsSpace(s[|s| - 1]))
  }

  /** Go's strings.TrimSpace. */
  function TrimSpace(s: string): string {
    TrimRight(TrimLeft(s))
  }

  /** TrimLeft leaves a suffix that does not start with white space, and drops only white space. */
  lemma {:induction false} TrimLeftDrops(s: string)
    ensures |TrimLeft(s)| <= |s| && TrimLeft(s) == s[|s| - |TrimLeft(s)|..]
    ensures forall k :: 0 <= k < |s| - |TrimLeft(s)| ==> IsSpace(s[k])
    ensures TrimLeft(s) == [] || !IsSpace(TrimLeft(s)[0])
  {
    if s != [] && IsSpace(s[0]) {
      var t := s[1..];
      TrimLeftDrops(t);
      var r := TrimLeft(t);
      assert TrimLeft(s) == r;
      assert t[|t| - |r|..] == s[|s| - |r|..];
      forall k | 0 <= k < |s| - |r|
        ensures IsSpace(s[k])
      {
        if k > 0 {
          assert s[k] == t[k - 1];
        }
      }
    } else {
      assert TrimLeft(s) == s;
    }
  }

  /** TrimRight leaves a prefix that does not end with white space, and drops only white space. */
  lemma {:induction false} TrimRightDrops(s: string)
    ensures |TrimRight(s)| <= |s| && TrimRight(s) == s[..|TrimRight(s)|]
    ensures forall k :: |TrimRight(s)| <= k < |s| ==> IsSpace(s[k])
    ensures TrimRight(s) == [] || !IsSpace(TrimRight(s)[|TrimRight(s)| - 1])
  {
    if s != [] && IsSpace(s[|s| - 1]) {
      TrimRightDrops(s[..|s| - 1]);
    }
  }

  /**
   * TrimSpace leaves the middle of the string: no white space at either end,
   * only white space dropped before it and after it.
   */
  lemma TrimSpaceTrims(s: string)
    ensures Trimmed(TrimSpace(s))
    ensures |TrimSpace(s)| <= |TrimLeft(s)| <= |s|
    ensures var a := |s| - |TrimLeft(s)|;
      && TrimSpace(s) == s[a..a + |TrimSpace(s)|]
      && (forall k :: 0 <= k < a ==> IsSpace(s[k]))
      && (forall k :: a + |TrimSpace(s)| <= k < |s| ==> IsSpace(s[k]))
  {
    var l := TrimLeft(s);
    TrimLeftDrops(s);
    TrimRightDrops(l);
    var r := TrimRight(l);
    var a := |s| - |l|;
    if r != [] {
      assert r[0] == l[0];
    }
    forall k | a + |r| <= k < |s|
      ensures IsSpace(s[k])
    {
      assert s[k] == l[k - a];
    }
  }

  /** Trimming leaves a string without surrounding white space unchanged. */
  lemma TrimSpaceOfTrimmed(s: string)
    requires Trimmed(s)
    ensures TrimSpace(s) == s
  {
  }

  /** A single space appended to a non-empty trimmed string is trimmed away again. */
  lemma TrimSpaceDropsTrailingSpace(s: string)
    requires s != [] && Trimmed(s)
    ensures TrimSpace(s + " ") == s
  {
    assert TrimLeft(s + " ") == s + " ";
    assert (s + " ")[..|s|] == s;
    assert TrimRight(s + " ") == TrimRight(s);
  }

  /** ASCII case folding of one character. */
  function LowerChar(c: char): char {
    if 'A' <= c <= 'Z' then (c as int - 'A' as int + 'a' as int) as char else c
  }

  /** Go's strings.ToLower, on ASCII letters. */
  function ToLower(s: string): (r: string)
    ensures |r| == |s|
  {
    seq(|s|, k requires 0 <= k < |s| => LowerChar(s[k]))
  }

  /** Go's strings.HasPrefix. */
  predicate HasPrefix(s: string, prefix: string) {
    |prefix| <= |s| && s[..|prefix|] == prefix
  }

  /** The index of the first ch in s, or |s| when there is none (strings.IndexByte, with the length for -1). */
  function IndexOf(s: string, ch: char): nat
    decreases |s|
  {
    if s == [] || s[0] == ch then 0 else 1 + IndexOf(s[1..], ch)
  }

  lemma {:induction false} IndexOfBounds(s: string, ch: char)
    ensures IndexOf(s, ch) <= |s|
    ensures forall j :: 0 <= j < IndexOf(s, ch) ==> s[j] != ch
    ensures IndexOf(s, ch) < |s| ==> s[IndexOf(s, ch)] == ch
    decreases |s|
  {
    if s != [] && s[0] != ch {
      IndexOfBounds(s[1..], ch);
    }
  }

  /** A prefix without ch, followed by ch, ends at its length. */
  lemma {:induction false} IndexOfAt(a: string, ch: char, b: string)
    requires forall j :: 0 <= j < |a| ==> a[j] != ch
    requires b != [] && b[0] == ch
    ensures IndexOf(a + b, ch) == |a|
    decreases |a|
  {
    if a == [] {
      assert a + b == b;
    } else {
      assert (a + b)[1..] == a[1..] + b;
      IndexOfAt(a[1..], ch, b);
    }
  }

  /** Go's strings.TrimPrefix: the prefix is removed once, when present. */
  function TrimPrefix(s: string, prefix: string): (r: string)
    ensures HasPrefix(s, prefix) ==> prefix + r == s
    ensures !HasPrefix(s, prefix) ==> r == s
  {
    if HasPrefix(s, prefix) then s[|prefix|..] else s
  }

  /**
   * Go's strings.Split with a one-character separator: the pieces between
   * separators, always at least one, none containing the separator.
   */
  function Split(s: string, sep: char): (parts: seq<string>)
    ensures |parts| >= 1
    ensures forall i :: 0 <= i < |parts| ==> sep !in parts[i]
  {
    if s == [] then [[]]
    else
      var rest := Split(s[1..], sep);
      if s[0] == sep then [[]] + rest else [[s[0]] + rest[0]] + rest[1..]
  }

  /** Go's strings.Join with a one-character separator. */
  function Join(parts: seq<string>, sep: char): string {
    if parts == [] then []
    else if |parts| == 1 then parts[0]
    else parts[0] + [sep] + Join(parts[1..], sep)
  }

  /** Joining the pieces of a split gives back the string. */
  lemma {:induction false} JoinSplit(s: string, sep: char)
    ensures Join(Split(s, sep), sep) == s
  {
    if s != [] {
      var rest := Split(s[1..], sep);
      JoinSplit(s[1..], sep);
      if s[0] == sep {
        assert Split(s, sep) == [[]] + rest;
      } else if |rest| == 1 {
        assert s == [s[0]] + rest[0];
      } else {
        assert Join(rest, sep) == rest[0] + [sep] + Join(rest[1..], sep);
        assert Split(s, sep)[1..] == rest[1..];
      }
    }
  }

  /** A string with no separator splits into itself. */
  lemma {:induction false} SplitNoSeparator(s: string, sep: char)
    requires sep !in s
    ensures Split(s, sep) == [s]
  {
    if s != [] {
      SplitNoSeparator(s[1..], sep);
      assert [s[0]] + s[1..] == s;
    }
  }

  /** The first separator ends the first piece. */
  lemma {:induction false} SplitAtSeparator(a: string, sep: char, b: string)
    requires sep !in a
    ensures Split(a + [sep] + b, sep) == [a] + Split(b, sep)
  {
    if a == [] {
      assert a + [sep] + b == [sep] + b;
      assert ([sep] + b)[1..] == b;
    } else {
      SplitAtSeparator(a[1..], sep, b);
      assert (a + [sep] + b)[1..] == a[1..] + [sep] + b;
      assert [a[0]] + a[1..] == a;
    }
  }

  /** Splitting a join of separator-free pieces gives back the pieces. */
  lemma {:induction false} SplitJoin(parts: seq<string>, sep: char)
    requires |parts| >= 1
    requires forall i :: 0 <= i < |parts| ==> sep !in parts[i]
    ensures Split(Join(parts, sep), sep) == parts
  {
    if |parts| == 1 {
      SplitNoSeparator(parts[0], sep);
    } else {
      SplitJoin(parts[1..], sep);
      SplitAtSeparator(parts[0], sep, Join(parts[1..], sep));
      assert [parts[0]] + parts[1..] == parts;
    }
  }

  /** When there is a separator, the string is the first piece, the separator and the join of the rest. */
  lemma SplitFirst(s: string, sep: char)
    requires sep in s
    ensures |Split(s, sep)| >= 2
    ensures s == Split(s, sep)[0] + [sep] + Join(Split(s, sep)[1..], sep)
  {
    var parts := Split(s, sep);
    JoinSplit(s, sep);
  }

  predicate AllDigits(s: string) {
    forall k :: 0 <= k < |s| ==> '0' <= s[k] <= '9'
  }

  /** The strings strconv.Atoi reads without error here: one or more decimal digits. */
  predicate IsDecimal(s: string) {
    |s| > 0 && AllDigits(s)
  }

  function DigitChar(d: nat): (c: char)
    requires d < 10
    ensures '0' <= c <= '9'
  {
    ('0' as int + d) as char
  }

  /** strconv.Atoi on a string of decimal digits. */
  function Atoi(s: string): nat
    requires AllDigits(s)
  {
    if s == [] then 0 else 10 * Atoi(s[..|s| - 1]) + (s[|s| - 1] as int - '0' as int)
  }

  /** fmt's %d verb on a natural number: digits only, no leading zero. */
  function DecimalString(n: nat): (s: string)
    ensures IsDecimal(s)
    ensures s[0] == '0' ==> n == 0
  {
    if n < 10 then [DigitChar(n)] else DecimalString(n / 10) + [DigitChar(n % 10)]
  }

  /** Reading back the decimal form of a number gives the number. */
  lemma {:induction false} AtoiDecimalString(n: nat)
    ensures Atoi(DecimalString(n)) == n
  {
    if n >= 10 {
      var s := DecimalString(n);
      AtoiDecimalString(n / 10);
      assert s[..|s| - 1] == DecimalString(n / 10);
    }
  }

  /** fmt's %d verb on an integer: a minus sign before the digits of a negative number. */
  function IntString(n: int): string {
    if n < 0 then "-" + DecimalString(-n) else DecimalString(n)
  }

  /**
   * strconv.Atoi with its error discarded: an optional sign and one or more
   * decimal digits give their value, and anything else gives 0.
   */
  function GoAtoi(s: string): int {
    if IsDecimal(s) then Atoi(s)
    else if |s| >= 2 && (s[0] == '+' || s[0] == '-') && IsDecimal(s[1..]) then
      if s[0] == '-' then -(Atoi(s[1..]) as int) else Atoi(s[1..])
    else 0
  }

  /** Reading back the %d form of any integer gives the integer. */
  lemma GoAtoiIntString(n: int)
    ensures GoAtoi(IntString(n)) == n
  {
    if n < 0 {
      var s := IntString(n);
      assert s[1..] == DecimalString(-n);
      assert !IsDecimal(s) by { assert s[0] == '-'; }
      AtoiDecimalString(-n);
    } else {
      AtoiDecimalString(n);
    }
  }
}
