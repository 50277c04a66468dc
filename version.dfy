/**
 * Version numbers as main.go handles them: parseSemVer reads the latest tag,
 * the switch in run bumps one component, and `v%d.%d.%d` prints the result.
 */
module Version {
  import opened Wrappers
  import opened Text
  import opened Bump

  /** The three numbers of a version; Go ints, so possibly negative. */
  datatype Version = Version(major: int, minor: int, patch: int)

  /** The version run starts from when the repository has no version tag. */
  const FirstRelease: string := "v0.0.0"

  /** `v%d.%d.%d`; the tag reads back as the version. */
  function FormatVersion(v: Version): (tag: string)
    ensures HasThreeComponents(tag)
    ensures ParseSemVer(tag) == v
  {
    var a, b, c := IntString(v.major), IntString(v.minor), IntString(v.patch);
    DotFree(v.major);
    DotFree(v.minor);
    DotFree(v.patch);
    var tag := "v" + a + "." + b + "." + c;
    assert tag == "v" + (a + ['.'] + (b + ['.'] + (c + [])));
    ReadPieces(tag, a, b, c, []);
    GoAtoiIntString(v.major);
    GoAtoiIntString(v.minor);
    GoAtoiIntString(v.patch);
    tag
  }

  /** parseSemVer indexes three components; fewer would panic. */
  predicate HasThreeComponents(text: string) {
    |Split(TrimPrefix(text, "v"), '.')| >= 3
  }

  /**
   * parseSemVer: drop one leading `v`, split at dots, and read the first three
   * pieces with Atoi, whose errors are discarded (a piece that is not a number
   * reads as 0).
   */
  function ParseSemVer(text: string): Version
    requires HasThreeComponents(text)
  {
    var parts := Split(TrimPrefix(text, "v"), '.');
    Version(GoAtoi(parts[0]), GoAtoi(parts[1]), GoAtoi(parts[2]))
  }

  /** A tag whose first three dot-separated pieces are a, b and c reads as their Atoi values. */
  lemma ReadPieces(text: string, a: string, b: string, c: string, rest: string)
    requires '.' !in a && '.' !in b && '.' !in c
    requires rest == [] || rest[0] == '.'
    requires text == "v" + (a + ['.'] + (b + ['.'] + (c + rest)))
    ensures HasThreeComponents(text)
    ensures ParseSemVer(text) == Version(GoAtoi(a), GoAtoi(b), GoAtoi(c))
  {
    assert HasPrefix(text, "v");
    var body := TrimPrefix(text, "v");
    assert body == a + ['.'] + (b + ['.'] + (c + rest));
    if rest == [] {
      assert c + rest == c;
      SplitNoSeparator(c, '.');
    } else {
      assert c + rest == c + ['.'] + rest[1..];
      SplitAtSeparator(c, '.', rest[1..]);
    }
    SplitAtSeparator(b, '.', c + rest);
    SplitAtSeparator(a, '.', b + ['.'] + (c + rest));
    var parts := Split(body, '.');
    assert parts[0] == a && parts[1] == b && parts[2] == c;
  }

  lemma DotFree(n: int)
    ensures '.' !in IntString(n)
  {
    var s := DecimalString(if n < 0 then -n else n);
    assert forall k :: 0 <= k < |s| ==> s[k] != '.';
    if n < 0 {
      assert IntString(n) == ['-'] + s;
    }
  }

  /** Lexicographic order of versions. */
  predicate Less(a: Version, b: Version) {
    a.major < b.major
    || (a.major == b.major && a.minor < b.minor)
    || (a.major == b.major && a.minor == b.minor && a.patch < b.patch)
  }

  predicate LessEq(a: Version, b: Version) {
    a == b || Less(a, b)
  }

  /** w changes current at the level of kind or above: a new major, a new major.minor, or any later version. */
  predicate Above(current: Version, w: Version, kind: SemVerComponent) {
    match kind
    case NoBump => false
    case Major => current.major < w.major
    case Minor => current.major < w.major || (current.major == w.major && current.minor < w.minor)
    case Patch => Less(current, w)
  }

  /** No negative minor or patch number, as a printed tag would have. */
  predicate Natural(w: Version) {
    w.minor >= 0 && w.patch >= 0
  }

  /**
   * The switch in run: Patch increments the patch number; Minor increments
   * minor and zeroes patch; Major increments major and zeroes the rest; None
   * gives no new version. The result is the least version that changes the
   * current one at the bumped level.
   */
  method NextVersion(current: Version, kind: SemVerComponent) returns (next: Option<Version>)
    ensures next.None? <==> kind == NoBump
    ensures next.Some? ==> Above(current, next.value, kind)
    ensures next.Some? ==> forall w :: Natural(w) && Above(current, w, kind) ==> LessEq(next.value, w)
    ensures next.Some? && Natural(current) ==> Natural(next.value)
    ensures kind == Minor ==> next.value.major == current.major && next.value.patch == 0
    ensures kind == Major ==> next.value.minor == 0 && next.value.patch == 0
    ensures kind == Patch ==> next.value.major == current.major && next.value.minor == current.minor
  {
    var major, minor, patch := current.major, current.minor, current.patch;
    match kind {
      case Patch =>
        patch := patch + 1;
      case Minor =>
        patch := 0;
        minor := minor + 1;
      case Major =>
        patch := 0;
        minor := 0;
        major := major + 1;
      case NoBump =>
        return None;
    }
    return Some(Version(major, minor, patch));
  }

  /** The starting tag reads as 0.0.0. */
  lemma FirstReleaseIsZero()
    ensures HasThreeComponents(FirstRelease)
    ensures ParseSemVer(FirstRelease) == Version(0, 0, 0)
  {
    assert FormatVersion(Version(0, 0, 0)) == FirstRelease;
  }

  /**
   * A pre-release suffix makes its piece unreadable, and Atoi's discarded
   * error turns it into 0: v1.2.3-rc.1 reads as 1.2.0.
   */
  lemma PrereleaseReadsAsZero()
    ensures HasThreeComponents("v1.2.3-rc.1")
    ensures ParseSemVer("v1.2.3-rc.1") == Version(1, 2, 0)
  {
    assert "v1.2.3-rc.1" == "v" + ("1" + ['.'] + ("2" + ['.'] + ("3-rc" + ".1")));
    ReadPieces("v1.2.3-rc.1", "1", "2", "3-rc", ".1");
    assert !IsDecimal("3-rc") by { assert "3-rc"[1] == '-'; }
    GoAtoiIntString(1);
    GoAtoiIntString(2);
    assert IntString(1) == "1" && IntString(2) == "2";
  }
}
