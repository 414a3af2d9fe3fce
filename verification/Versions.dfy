/** Version bumping, and the precedence of section 11 of Semantic Versioning 2.0.0 it is measured by. */
module Versions {
  import opened Text
  import opened Decimal

  datatype Version = Version(major: nat, minor: nat, patch: nat, suffix: Option<string>)

  predicate IsSuffixChar(c: char) {
    'a' <= c <= 'z' || 'A' <= c <= 'Z' || IsDigit(c) || c == '.'
  }

  predicate IsSuffix(s: string) {
    s != "" && forall c <- s :: IsSuffixChar(c)
  }

  /** The length of the run of digits a text starts with. */
  function DigitRun(s: string): (n: nat)
    ensures n <= |s|
    ensures forall i :: 0 <= i < n ==> IsDecimal(s[i])
    ensures n < |s| ==> !IsDecimal(s[n])
  {
    if s == "" || !IsDecimal(s[0]) then 0 else 1 + DigitRun(s[1..])
  }

  /** `(\d+)` at the start of a text: the number and what follows it. */
  function ReadNumber(s: string): Option<(nat, string)> {
    var n := DigitRun(s);
    if n == 0 then None else Some((NatOf(s[..n]), s[n..]))
  }

  /** `(\d+)\.` at the start of a text. */
  function ReadPart(s: string): Option<(nat, string)> {
    match ReadNumber(s)
    case Some((n, rest)) => if rest != "" && rest[0] == '.' then Some((n, rest[1..])) else None
    case None => None
  }

  /** `(?:-([a-zA-Z0-9.]+))?` up to the end of the text. */
  function ReadSuffix(s: string): Option<Option<string>> {
    if s == "" then Some(None)
    else if s[0] == '-' && IsSuffix(s[1..]) then Some(Some(s[1..]))
    else None
  }

  /** `$` also matches before a line feed that ends the text. */
  function WithoutLineFeed(s: string): string {
    if s != "" && s[|s| - 1] == '\n' then s[..|s| - 1] else s
  }

  /** `parse_version`; None is the `ValueError`. */
  function ParseVersion(text: string): Option<Version> {
    match ReadPart(WithoutLineFeed(text))
    case None => None
    case Some((major, rest)) =>
      match ReadPart(rest)
      case None => None
      case Some((minor, rest)) =>
        match ReadNumber(rest)
        case None => None
        case Some((patch, rest)) =>
          match ReadSuffix(rest)
          case None => None
          case Some(suffix) => Some(Version(major, minor, patch, suffix))
  }

  function FormatVersion(v: Version): string {
    NatText(v.major) + "." + (NatText(v.minor) + "." + (NatText(v.patch) + SuffixText(v.suffix)))
  }

  function SuffixText(suffix: Option<string>): string {
    if suffix.Some? then "-" + suffix.value else ""
  }

  // ---------------------------------------------------------------- round trip

  ghost predicate WellFormed(v: Version) {
    v.suffix.Some? ==> IsSuffix(v.suffix.value)
  }

  lemma {:induction false} DigitRunOf(digits: string, rest: string)
    requires forall c <- digits :: IsDecimal(c)
    requires rest != "" ==> !IsDecimal(rest[0])
    ensures DigitRun(digits + rest) == |digits|
  {
    if digits == "" {
      assert digits + rest == rest;
    } else {
      assert (digits + rest)[1..] == digits[1..] + rest;
      DigitRunOf(digits[1..], rest);
    }
  }

  lemma ReadsNumber(n: nat, rest: string)
    requires rest != "" ==> !IsDecimal(rest[0])
    ensures ReadNumber(NatText(n) + rest) == Some((n, rest))
  {
    DigitRunOf(NatText(n), rest);
    NatRoundTrip(n);
  }

  lemma ReadsPart(n: nat, rest: string)
    ensures ReadPart(NatText(n) + "." + rest) == Some((n, rest))
  {
    ReadsNumber(n, "." + rest);
    assert NatText(n) + "." + rest == NatText(n) + ("." + rest);
  }

  lemma NoLineFeed(v: Version)
    requires WellFormed(v)
    ensures WithoutLineFeed(FormatVersion(v)) == FormatVersion(v)
  {
    var tail := NatText(v.patch) + SuffixText(v.suffix);
    assert tail[|tail| - 1] != '\n' by {
      if v.suffix.Some? {
        var last := v.suffix.value[|v.suffix.value| - 1];
        assert tail[|tail| - 1] == last && last in v.suffix.value;
      } else {
        assert tail == NatText(v.patch) && IsDigit(tail[|tail| - 1]);
      }
    }
    assert FormatVersion(v)[|FormatVersion(v)| - 1] == tail[|tail| - 1];
  }

  /** What `format_version` writes, `parse_version` reads back. */
  lemma FormatRoundTrip(v: Version)
    requires WellFormed(v)
    ensures ParseVersion(FormatVersion(v)) == Some(v)
  {
    if v.suffix.Some? { assert SuffixText(v.suffix)[1..] == v.suffix.value; }
    assert ReadSuffix(SuffixText(v.suffix)) == Some(v.suffix);
    hide NatText, ReadPart, ReadNumber, ReadSuffix, WithoutLineFeed;
    NoLineFeed(v);
    var third := NatText(v.patch) + SuffixText(v.suffix);
    var second := NatText(v.minor) + "." + third;
    assert FormatVersion(v) == NatText(v.major) + "." + second;
    ReadsPart(v.major, second);
    ReadsPart(v.minor, third);
    ReadsNumber(v.patch, SuffixText(v.suffix));
  }

  // --------------------------------------------------------------------- bumps

  datatype BumpType = Major | Minor | Patch | Rc

  function BumpTypeOf(name: string): Option<BumpType> {
    if name == "major" then Some(Major)
    else if name == "minor" then Some(Minor)
    else if name == "patch" then Some(Patch)
    else if name == "rc" then Some(Rc)
    else None
  }

  predicate IsRc(suffix: Option<string>) {
    suffix.Some? && "rc." <= suffix.value
  }

  /** The text between the first and the second dot. */
  function SecondIdentifier(suffix: string): string {
    var parts := Split(suffix, '.');
    if |parts| > 1 then parts[1] else ""
  }

  /** `int(suffix.split(".")[1])`, and 0 where that raises. */
  function RcNumber(suffix: string): nat {
    var part := SecondIdentifier(suffix);
    if IsNumeral(part) then NatOf(part) else 0
  }

  function RcSuffix(n: nat): string {
    "rc." + NatText(n)
  }

  function Bumped(v: Version, bump: BumpType): Version {
    match bump
    case Major => Version(v.major + 1, 0, 0, None)
    case Minor => Version(v.major, v.minor + 1, 0, None)
    case Patch => Version(v.major, v.minor, if v.suffix.Some? then v.patch else v.patch + 1, None)
    case Rc =>
      if IsRc(v.suffix) then v.(suffix := Some(RcSuffix(RcNumber(v.suffix.value) + 1)))
      else Version(v.major, v.minor, v.patch + 1, Some(RcSuffix(1)))
  }

  datatype BumpResult = Bump(text: string) | InvalidVersion | UnknownType

  /** `bump_version`. */
  function BumpVersion(current: string, name: string): BumpResult {
    match ParseVersion(current)
    case None => InvalidVersion
    case Some(v) =>
      match BumpTypeOf(name)
      case None => UnknownType
      case Some(bump) => Bump(FormatVersion(Bumped(v, bump)))
  }

  lemma BumpNames()
    ensures BumpTypeOf("major") == Some(Major) && BumpTypeOf("minor") == Some(Minor)
    ensures BumpTypeOf("patch") == Some(Patch) && BumpTypeOf("rc") == Some(Rc)
  {
    assert "minor"[1] == 'i' && "major"[1] == 'a';
  }

  ghost function Dotted(x: nat, y: nat, z: nat): string {
    NatText(x) + "." + NatText(y) + "." + NatText(z)
  }

  lemma FormatsPlain(x: nat, y: nat, z: nat, n: nat)
    ensures FormatVersion(Version(x, y, z, None)) == Dotted(x, y, z)
    ensures FormatVersion(Version(x, y, z, Some(RcSuffix(n)))) == Dotted(x, y, z) + ("-rc." + NatText(n))
  {
    hide NatText;
    var t, tail := Dotted(x, y, z), "-" + ("rc." + NatText(n));
    assert tail == "-rc." + NatText(n);
    assert FormatVersion(Version(x, y, z, None)) == t + "";
    assert FormatVersion(Version(x, y, z, Some(RcSuffix(n)))) == t + tail;
  }

  lemma ZeroTexts(x: nat, y: nat)
    ensures Dotted(x, 0, 0) == NatText(x) + ".0.0" && Dotted(x, y, 0) == NatText(x) + "." + NatText(y) + ".0"
    ensures "-rc." + NatText(1) == "-rc.1"
  {
    assert NatText(0) == "0" && NatText(1) == "1";
    hide NatText;
  }

  /** The release bumps as texts: of X.Y.Z, with or without a suffix, (X+1).0.0 and X.(Y+1).0; of X.Y.Z the patch
      X.Y.(Z+1), and of X.Y.Z-s the patch X.Y.Z. */
  lemma ReleaseTexts(x: nat, y: nat, z: nat, suffix: Option<string>)
    requires suffix.Some? ==> IsSuffix(suffix.value)
    ensures var current := FormatVersion(Version(x, y, z, suffix));
      && BumpVersion(current, "major") == Bump(NatText(x + 1) + ".0.0")
      && BumpVersion(current, "minor") == Bump(NatText(x) + "." + NatText(y + 1) + ".0")
      && BumpVersion(current, "patch") == Bump(if suffix.None? then Dotted(x, y, z + 1) else Dotted(x, y, z))
  {
    var v := Version(x, y, z, suffix);
    hide RcNumber, RcSuffix, FormatVersion, BumpVersion, IsSuffix, NatText, Dotted, IsRc, BumpTypeOf;
    BumpNames();
    BumpsText(v, "major");
    BumpsText(v, "minor");
    BumpsText(v, "patch");
    ZeroTexts(x + 1, 0);
    ZeroTexts(x, y + 1);
    FormatsPlain(x + 1, 0, 0, 1);
    FormatsPlain(x, y + 1, 0, 1);
    FormatsPlain(x, y, z, 1);
    FormatsPlain(x, y, z + 1, 1);
  }

  lemma CandidateStep(x: nat, y: nat, z: nat, n: nat)
    ensures var v := Version(x, y, z, Some(RcSuffix(n)));
      WellFormed(v) && Bumped(v, Rc) == Version(x, y, z, Some(RcSuffix(n + 1)))
  {
    RcSuffixIs(n);
    hide RcNumber, RcSuffix, IsRc, IsSuffix, Countable, Split;
  }

  lemma RcText(n: nat)
    ensures RcSuffix(n) == "rc." + NatText(n)
  {
  }

  /** The rc bump of a candidate X.Y.Z-rc.N is X.Y.Z-rc.(N+1). */
  lemma NextCandidateText(x: nat, y: nat, z: nat, n: nat)
    ensures BumpVersion(FormatVersion(Version(x, y, z, Some("rc." + NatText(n)))), "rc")
         == Bump(Dotted(x, y, z) + ("-rc." + NatText(n + 1)))
  {
    hide *;
    RcText(n);
    CandidateStep(x, y, z, n);
    BumpNames();
    BumpsText(Version(x, y, z, Some(RcSuffix(n))), "rc");
    FormatsPlain(x, y, z, n + 1);
  }

  /** The rc bump of any other version is X.Y.(Z+1)-rc.1. */
  lemma FirstCandidateText(x: nat, y: nat, z: nat, suffix: Option<string>)
    requires suffix.Some? ==> IsSuffix(suffix.value) && !("rc." <= suffix.value)
    ensures BumpVersion(FormatVersion(Version(x, y, z, suffix)), "rc") == Bump(Dotted(x, y, z + 1) + "-rc.1")
  {
    var v := Version(x, y, z, suffix);
    assert !IsRc(suffix);
    hide RcNumber, RcSuffix, IsRc, FormatVersion, BumpVersion, IsSuffix, NatText, Dotted, BumpTypeOf;
    BumpNames();
    BumpsText(v, "rc");
    ZeroTexts(x, y);
    FormatsPlain(x, y, z + 1, 1);
  }

  // ------------------------------------------------------------ what is parsed

  /** ASCII letters, digits and dots. */
  ghost predicate SuffixSpelled(suffix: string) {
    suffix != "" && forall c <- suffix ::
      97 <= c as int <= 122 || 65 <= c as int <= 90 || 48 <= c as int <= 57 || c as int == 46
  }

  lemma SuffixIsSpelled(suffix: string)
    ensures IsSuffix(suffix) <==> SuffixSpelled(suffix)
  {
  }

  /** The text spells the version: three runs of digits with dots between them, and a suffix behind a dash. */
  ghost predicate Spells(text: string, v: Version) {
    exists a, b, c :: IsDecimals(a) && IsDecimals(b) && IsDecimals(c)
      && v.major == NatOf(a) && v.minor == NatOf(b) && v.patch == NatOf(c)
      && (v.suffix.Some? ==> SuffixSpelled(v.suffix.value))
      && text == a + ("." + (b + ("." + (c + SuffixText(v.suffix)))))
  }

  lemma NumberExactly(s: string, n: nat, rest: string)
    requires rest != "" ==> !IsDecimal(rest[0])
    ensures ReadNumber(s) == Some((n, rest)) <==> exists a :: IsDecimals(a) && NatOf(a) == n && s == a + rest
  {
    if ReadNumber(s) == Some((n, rest)) {
      var a := s[..DigitRun(s)];
      assert s == a + rest && IsDecimals(a);
    }
    forall a | IsDecimals(a) && NatOf(a) == n && s == a + rest ensures ReadNumber(s) == Some((n, rest)) {
      DigitRunOf(a, rest);
      assert s[..|a|] == a && s[|a|..] == rest;
    }
  }

  /** Whatever is read behind a number does not start with a digit. */
  lemma NumberStops(s: string)
    ensures ReadNumber(s).Some? ==> (ReadNumber(s).value.1 != "" ==> !IsDecimal(ReadNumber(s).value.1[0]))
  {
  }

  lemma SuffixExactly(s: string, suffix: Option<string>)
    ensures ReadSuffix(s) == Some(suffix) <==> s == SuffixText(suffix) && (suffix.Some? ==> IsSuffix(suffix.value))
    ensures s == SuffixText(suffix) && s != "" ==> !IsDecimal(s[0])
  {
    if suffix.Some? { assert ("-" + suffix.value)[1..] == suffix.value; }
    if s != "" && s[0] == '-' { assert s == "-" + s[1..]; }
  }

  lemma PartExactly(s: string, n: nat, rest: string)
    ensures ReadPart(s) == Some((n, rest)) <==> exists a :: IsDecimals(a) && NatOf(a) == n && s == a + ("." + rest)
  {
    NumberExactly(s, n, "." + rest);
    assert ("." + rest)[1..] == rest;
    if ReadPart(s) == Some((n, rest)) {
      var (m, tail) := ReadNumber(s).value;
      assert tail == "." + rest;
    }
  }

  lemma ParsedSpells(text: string, v: Version)
    requires ParseVersion(text) == Some(v)
    ensures Spells(WithoutLineFeed(text), v)
  {
    if v.suffix.Some? { SuffixIsSpelled(v.suffix.value); }
    hide NatOf, IsDecimal, ReadPart, ReadNumber, ReadSuffix, SuffixText, WithoutLineFeed, SuffixSpelled, IsSuffix;
    var t := WithoutLineFeed(text);
    var (x, afterMajor) := ReadPart(t).value;
    var (y, afterMinor) := ReadPart(afterMajor).value;
    var (z, tail) := ReadNumber(afterMinor).value;
    PartExactly(t, x, afterMajor);
    PartExactly(afterMajor, y, afterMinor);
    SuffixExactly(tail, v.suffix);
    NumberExactly(afterMinor, z, tail);
    var a :| IsDecimals(a) && NatOf(a) == x && t == a + ("." + afterMajor);
    var b :| IsDecimals(b) && NatOf(b) == y && afterMajor == b + ("." + afterMinor);
    var c :| IsDecimals(c) && NatOf(c) == z && afterMinor == c + tail;
  }

  lemma PartsParse(t: string, v: Version, a: string, b: string, c: string)
    requires IsDecimals(a) && IsDecimals(b) && IsDecimals(c)
    requires v.major == NatOf(a) && v.minor == NatOf(b) && v.patch == NatOf(c)
    requires v.suffix.Some? ==> IsSuffix(v.suffix.value)
    requires t == a + ("." + (b + ("." + (c + SuffixText(v.suffix)))))
    ensures var afterMinor := c + SuffixText(v.suffix);
      var afterMajor := b + ("." + afterMinor);
      && ReadPart(t) == Some((v.major, afterMajor)) && ReadPart(afterMajor) == Some((v.minor, afterMinor))
      && ReadNumber(afterMinor) == Some((v.patch, SuffixText(v.suffix)))
      && ReadSuffix(SuffixText(v.suffix)) == Some(v.suffix)
  {
    hide NatOf, IsDecimal, IsDecimals, ReadPart, ReadNumber, ReadSuffix, SuffixText, IsSuffix;
    var tail := SuffixText(v.suffix);
    SuffixExactly(tail, v.suffix);
    NumberExactly(c + tail, v.patch, tail);
    PartExactly(b + ("." + (c + tail)), v.minor, c + tail);
    PartExactly(t, v.major, b + ("." + (c + tail)));
  }

  lemma SpelledParses(text: string, v: Version)
    requires Spells(WithoutLineFeed(text), v)
    ensures ParseVersion(text) == Some(v)
  {
    if v.suffix.Some? { SuffixIsSpelled(v.suffix.value); }
    hide ReadPart, ReadNumber, ReadSuffix, SuffixText, WithoutLineFeed, SuffixSpelled, IsSuffix, IsDecimal;
    var t, tail := WithoutLineFeed(text), SuffixText(v.suffix);
    var a, b, c :| IsDecimals(a) && IsDecimals(b) && IsDecimals(c)
      && v.major == NatOf(a) && v.minor == NatOf(b) && v.patch == NatOf(c)
      && t == a + ("." + (b + ("." + (c + tail))));
    hide IsDecimals, NatOf;
    PartsParse(t, v, a, b, c);
  }

  /** A text parses to a version exactly when, but for a line feed at its end, it spells it. */
  lemma ParsesExactly(text: string, v: Version)
    ensures ParseVersion(text) == Some(v) <==> Spells(WithoutLineFeed(text), v)
  {
    hide ParseVersion, Spells, WithoutLineFeed;
    if ParseVersion(text) == Some(v) { ParsedSpells(text, v); }
    if Spells(WithoutLineFeed(text), v) { SpelledParses(text, v); }
  }

  // ---------------------------------------------------------------- precedence

  /** Numeric identifiers compare as numbers and come before all others, which compare as texts. */
  ghost predicate IdentifierLess(a: string, b: string) {
    if IsNumeral(a) then !IsNumeral(b) || NatOf(a) < NatOf(b) else !IsNumeral(b) && Less(a, b)
  }

  ghost predicate IdentifierSame(a: string, b: string) {
    !IdentifierLess(a, b) && !IdentifierLess(b, a)
  }

  /** The first pair of identifiers that differ decides; else the shorter list comes first. */
  ghost predicate IdentifiersLess(a: seq<string>, b: seq<string>) {
    b != [] && (a == [] || IdentifierLess(a[0], b[0]) || (IdentifierSame(a[0], b[0]) && IdentifiersLess(a[1..], b[1..])))
  }

  /** A pre-release comes before its release. */
  ghost predicate SuffixLess(a: Option<string>, b: Option<string>) {
    a.Some? && (b.None? || IdentifiersLess(Split(a.value, '.'), Split(b.value, '.')))
  }

  ghost predicate Precedes(a: Version, b: Version) {
    || a.major < b.major
    || (a.major == b.major && (a.minor < b.minor
        || (a.minor == b.minor && (a.patch < b.patch || (a.patch == b.patch && SuffixLess(a.suffix, b.suffix))))))
  }

  lemma NotBelowItself(id: string)
    ensures !IdentifierLess(id, id)
  {
    AtMostTotal(id, id);
    LessIsNotAtMost(id, id);
  }

  lemma IdentifiersOrdered(a: string, b: string, c: string)
    ensures IdentifierLess(a, b) ==> !IdentifierLess(b, a)
    ensures !IdentifierLess(b, a) && !IdentifierLess(c, b) ==> !IdentifierLess(c, a)
  {
    LessIsNotAtMost(a, b);
    LessIsNotAtMost(b, a);
    LessIsNotAtMost(c, b);
    LessIsNotAtMost(c, a);
    AtMostTotal(a, b);
    if AtMost(a, b) && AtMost(b, c) { AtMostTransitive(a, b, c); }
  }

  lemma {:induction false} ListsTransitive(a: seq<string>, b: seq<string>, c: seq<string>)
    requires IdentifiersLess(a, b) && IdentifiersLess(b, c)
    ensures IdentifiersLess(a, c)
  {
    if a != [] {
      IdentifiersOrdered(a[0], b[0], c[0]);
      IdentifiersOrdered(b[0], c[0], a[0]);
      IdentifiersOrdered(c[0], a[0], b[0]);
      IdentifiersOrdered(c[0], b[0], a[0]);
      IdentifiersOrdered(b[0], a[0], c[0]);
      IdentifiersOrdered(a[0], c[0], b[0]);
      hide IdentifierLess;
      if !IdentifierLess(a[0], c[0]) { ListsTransitive(a[1..], b[1..], c[1..]); }
    }
  }

  lemma {:induction false} ListsIrreflexive(a: seq<string>)
    ensures !IdentifiersLess(a, a)
  {
    if a != [] {
      NotBelowItself(a[0]);
      ListsIrreflexive(a[1..]);
    }
  }

  /** Precedence is a strict order. */
  lemma PrecedenceIsStrict(a: Version, b: Version, c: Version)
    ensures !Precedes(a, a)
    ensures Precedes(a, b) && Precedes(b, c) ==> Precedes(a, c)
  {
    if a.suffix.Some? { ListsIrreflexive(Split(a.suffix.value, '.')); }
    if a.suffix.Some? && b.suffix.Some? && c.suffix.Some? {
      var x, y, z := Split(a.suffix.value, '.'), Split(b.suffix.value, '.'), Split(c.suffix.value, '.');
      if IdentifiersLess(x, y) && IdentifiersLess(y, z) { ListsTransitive(x, y, z); }
    }
  }

  // ----------------------------------------------------------------- the order

  /** The suffix is not a release candidate, or its second identifier is a number. */
  predicate Countable(suffix: Option<string>) {
    IsRc(suffix) ==> IsNumeral(SecondIdentifier(suffix.value))
  }

  lemma RcIdentifiers(rest: string)
    ensures Split("rc." + rest, '.') == ["rc"] + Split(rest, '.')
    ensures SecondIdentifier("rc." + rest) == Split(rest, '.')[0]
  {
    SplitFirst("rc", rest, '.');
    assert "rc" + ['.'] + rest == "rc." + rest;
  }

  lemma RcSuffixIs(n: nat)
    ensures IsSuffix(RcSuffix(n)) && IsRc(Some(RcSuffix(n))) && Countable(Some(RcSuffix(n)))
    ensures Split(RcSuffix(n), '.') == ["rc", NatText(n)] && RcNumber(RcSuffix(n)) == n
  {
    RcIdentifiers(NatText(n));
    NatRoundTrip(n);
    var digits := NatText(n);
    hide NatText;
    assert '.' !in digits;
    SplitPlain(digits, '.');
    forall c | c in RcSuffix(n) ensures IsSuffixChar(c) { assert c in "rc." || c in digits; }
  }

  /** A candidate's next one is higher exactly when the candidate has a number; otherwise it is lower. */
  lemma NextCandidate(suffix: string)
    requires IsRc(Some(suffix))
    ensures var next := RcSuffix(RcNumber(suffix) + 1);
      if IsNumeral(SecondIdentifier(suffix)) then SuffixLess(Some(suffix), Some(next))
      else SuffixLess(Some(next), Some(suffix))
  {
    var rest := suffix[3..];
    assert suffix == "rc." + rest;
    RcIdentifiers(rest);
    var n := RcNumber(suffix) + 1;
    RcSuffixIs(n);
    NatRoundTrip(n);
    NotBelowItself("rc");
    var x, y := Split(rest, '.'), [NatText(n)];
    hide NatText, NatOf, Split, Less;
    assert (["rc"] + x)[1..] == x && (["rc"] + y)[1..] == y;
    if IsNumeral(x[0]) {
      assert IdentifierLess(x[0], y[0]);
      assert IdentifiersLess(["rc"] + x, ["rc"] + y);
    } else {
      assert IdentifierLess(y[0], x[0]);
      assert IdentifiersLess(["rc"] + y, ["rc"] + x);
    }
  }

  lemma BumpIsWellFormed(v: Version, bump: BumpType)
    requires WellFormed(v)
    ensures WellFormed(Bumped(v, bump)) && Countable(Bumped(v, bump).suffix)
  {
    RcSuffixIs(1);
    if IsRc(v.suffix) { RcSuffixIs(RcNumber(v.suffix.value) + 1); }
    hide IsSuffix, IsRc, RcSuffix, RcNumber;
  }

  lemma BumpPrecedence(v: Version, bump: BumpType)
    ensures Precedes(v, Bumped(v, bump)) <==> (bump.Rc? ==> Countable(v.suffix))
  {
    var w := Bumped(v, bump);
    if bump.Rc? && IsRc(v.suffix) {
      NextCandidate(v.suffix.value);
      hide SuffixLess, RcNumber, RcSuffix, SecondIdentifier, IsNumeral;
      if Precedes(w, v) { PrecedenceIsStrict(v, w, v); }
    }
  }

  /** Every bump of every version text gives a text that parses, and a version of strictly higher precedence
      exactly when it is not an rc bump of a candidate without a number. */
  lemma BumpsRaise(current: string, name: string)
    requires ParseVersion(current).Some? && BumpTypeOf(name).Some?
    ensures var v, bump := ParseVersion(current).value, BumpTypeOf(name).value;
      && BumpVersion(current, name).Bump?
      && ParseVersion(BumpVersion(current, name).text) == Some(Bumped(v, bump))
      && (Precedes(v, Bumped(v, bump)) <==> (bump.Rc? ==> Countable(v.suffix)))
      && Countable(Bumped(v, bump).suffix)
  {
    var v, bump := ParseVersion(current).value, BumpTypeOf(name).value;
    BumpIsWellFormed(v, bump);
    BumpPrecedence(v, bump);
    FormatRoundTrip(Bumped(v, bump));
    hide ParseVersion, FormatVersion, Bumped, Precedes, Countable, BumpTypeOf;
  }

  /** A run of bumps, each of the text the one before gave. */
  ghost function BumpAll(current: string, names: seq<string>): BumpResult {
    if names == [] then Bump(current) else
      match BumpAll(current, names[..|names| - 1])
      case Bump(text) => BumpVersion(text, names[|names| - 1])
      case other => other
  }

  /** From a version that is no candidate, or one with a number, every run of bumps climbs: whatever the bumps
      are, no version ever comes back. */
  lemma {:induction false} RunsClimb(current: string, names: seq<string>)
    requires ParseVersion(current).Some? && Countable(ParseVersion(current).value.suffix)
    requires names != [] && forall n <- names :: BumpTypeOf(n).Some?
    ensures var r := BumpAll(current, names);
      && r.Bump? && ParseVersion(r.text).Some? && Countable(ParseVersion(r.text).value.suffix)
      && Precedes(ParseVersion(current).value, ParseVersion(r.text).value)
    decreases |names|
  {
    var before, last := names[..|names| - 1], names[|names| - 1];
    if before == [] {
      assert BumpAll(current, before) == Bump(current);
      BumpsRaise(current, last);
    } else {
      RunsClimb(current, before);
      var text := BumpAll(current, before).text;
      BumpsRaise(text, last);
      hide Precedes, Countable, ParseVersion;
      PrecedenceIsStrict(ParseVersion(current).value, ParseVersion(text).value,
                         ParseVersion(BumpVersion(text, last).text).value);
    }
  }

  lemma BumpsText(v: Version, name: string)
    requires WellFormed(v) && BumpTypeOf(name).Some?
    ensures BumpVersion(FormatVersion(v), name) == Bump(FormatVersion(Bumped(v, BumpTypeOf(name).value)))
  {
    FormatRoundTrip(v);
  }

  ghost function Candidate(v: Version, n: nat): Version {
    Version(v.major, v.minor, v.patch + 1, Some(RcSuffix(n)))
  }

  lemma BumpAllLonger(current: string, names: seq<string>, text: string, name: string)
    requires BumpAll(current, names) == Bump(text)
    ensures BumpAll(current, names + [name]) == BumpVersion(text, name)
  {
    assert (names + [name])[..|names|] == names;
  }

  ghost function RcTimes(n: nat): seq<string> {
    seq(n, _ => "rc")
  }

  lemma RcOnce(n: nat)
    requires n >= 1
    ensures RcTimes(n) == RcTimes(n - 1) + ["rc"]
  {
  }

  lemma CandidateBumps(v: Version, n: nat)
    requires v.suffix.None?
    ensures Bumped(v, Rc) == Candidate(v, 1)
    ensures WellFormed(Candidate(v, n)) && Bumped(Candidate(v, n), Rc) == Candidate(v, n + 1)
    ensures Bumped(Candidate(v, n), Patch) == Version(v.major, v.minor, v.patch + 1, None)
    ensures BumpTypeOf("rc") == Some(Rc) && BumpTypeOf("patch") == Some(Patch)
  {
    RcSuffixIs(n);
    assert !IsRc(v.suffix);
    hide RcSuffix, RcNumber, IsRc, IsSuffix;
  }

  lemma {:induction false} CandidatesCount(v: Version, n: nat)
    requires v.suffix.None? && n >= 1
    ensures BumpAll(FormatVersion(v), RcTimes(n)) == Bump(FormatVersion(Candidate(v, n)))
  {
    RcOnce(n);
    CandidateBumps(v, n - 1);
    if n == 1 {
      assert RcTimes(0) == [];
      BumpsText(v, "rc");
      BumpAllLonger(FormatVersion(v), [], FormatVersion(v), "rc");
    } else {
      CandidatesCount(v, n - 1);
      BumpsText(Candidate(v, n - 1), "rc");
      BumpAllLonger(FormatVersion(v), RcTimes(n - 1), FormatVersion(Candidate(v, n - 1)), "rc");
    }
    hide *;
  }

  /** From a release X.Y.Z, `n` rc bumps lead to X.Y.(Z+1)-rc.n, and a patch bump then to X.Y.(Z+1). */
  lemma CandidatesThenRelease(v: Version, n: nat)
    requires v.suffix.None? && n >= 1
    ensures BumpAll(FormatVersion(v), RcTimes(n)) == Bump(FormatVersion(Candidate(v, n)))
    ensures BumpAll(FormatVersion(v), RcTimes(n) + ["patch"])
         == Bump(FormatVersion(Version(v.major, v.minor, v.patch + 1, None)))
  {
    CandidatesCount(v, n);
    CandidateBumps(v, n);
    hide *;
    BumpsText(Candidate(v, n), "patch");
    BumpAllLonger(FormatVersion(v), RcTimes(n), FormatVersion(Candidate(v, n)), "patch");
  }

  lemma OneTwoThree(suffix: string)
    ensures FormatVersion(Version(1, 2, 3, Some(suffix))) == "1.2.3-" + suffix
  {
    assert NatText(1) == "1" && NatText(2) == "2" && NatText(3) == "3";
    hide NatText;
    assert "1" + "." + ("2" + "." + ("3" + ("-" + suffix))) == "1.2.3-" + suffix;
  }

  lemma RcX()
    ensures IsRc(Some("rc.x")) && SecondIdentifier("rc.x") == "x" && !IsNumeral("x") && IsSuffix("rc.x")
  {
    assert "rc." + "x" == "rc.x";
    RcIdentifiers("x");
    SplitPlain("x", '.');
    assert "x"[0] in "x" && !IsDigit('x');
    hide Split, SecondIdentifier;
  }

  /** The candidate 1.2.3-rc.x is bumped to 1.2.3-rc.1, which is lower. */
  lemma NumberlessFalls()
    ensures ParseVersion("1.2.3-rc.x") == Some(Version(1, 2, 3, Some("rc.x")))
    ensures BumpVersion("1.2.3-rc.x", "rc") == Bump("1.2.3-rc.1")
    ensures Precedes(Version(1, 2, 3, Some("rc.1")), Version(1, 2, 3, Some("rc.x")))
  {
    hide ParseVersion, FormatVersion, SecondIdentifier, Split, SuffixLess, IsSuffix, IsRc, IsNumeral;
    var v, w := Version(1, 2, 3, Some("rc.x")), Version(1, 2, 3, Some("rc.1"));
    assert RcSuffix(1) == "rc.1" by { assert NatText(1) == "1"; }
    RcX();
    NextCandidate("rc.x");
    OneTwoThree("rc.x");
    OneTwoThree("rc.1");
    FormatRoundTrip(v);
    assert "1.2.3-" + "rc.x" == "1.2.3-rc.x" && "1.2.3-" + "rc.1" == "1.2.3-rc.1";
    assert RcNumber("rc.x") == 0;
    hide RcNumber, RcSuffix;
    assert Bumped(v, Rc) == w;
  }
}
