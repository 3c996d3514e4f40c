/** The version rules of the later manager (pkg.elk.wtf/ecm/ECM.jsx, lines 37-69).
    A version is a string; `readSemver` hands back the raw dot-separated pieces,
    so every comparison below is a comparison of strings, not of numbers. */
module Semver {
  import opened Base

  /** The three fields `readSemver` returns, still as strings. */
  datatype Semver = Semver(major: string, minor: string, patch: string)

  // ---------------------------------------------------------------------------
  // `isNaN` on a field: JavaScript's conversion of a string to a number
  // ---------------------------------------------------------------------------

  /** White space and line terminators, which the conversion trims from both ends. */
  predicate IsSpace(c: char) {
    || c == '\t' || c == '\n' || c == '\U{000B}' || c == '\U{000C}' || c == '\r'
    || c == ' ' || c == '\U{00A0}' || c == '\U{1680}'
    || ('\U{2000}' <= c <= '\U{200A}')
    || c == '\U{2028}' || c == '\U{2029}' || c == '\U{202F}' || c == '\U{205F}'
    || c == '\U{3000}' || c == '\U{FEFF}'
  }

  function TrimStart(s: string): (t: string)
    ensures |t| <= |s|
  {
    if |s| > 0 && IsSpace(s[0]) then TrimStart(s[1..]) else s
  }

  function TrimEnd(s: string): (t: string)
    ensures |t| <= |s|
  {
    if |s| > 0 && IsSpace(s[|s| - 1]) then TrimEnd(s[..|s| - 1]) else s
  }

  predicate IsDecimalDigit(c: char) { '0' <= c <= '9' }
  predicate IsHexDigit(c: char) { IsDecimalDigit(c) || 'a' <= c <= 'f' || 'A' <= c <= 'F' }
  predicate IsOctalDigit(c: char) { '0' <= c <= '7' }
  predicate IsBinaryDigit(c: char) { c == '0' || c == '1' }

  predicate DecimalDigits(s: string) {
    |s| > 0 && forall i :: 0 <= i < |s| ==> IsDecimalDigit(s[i])
  }

  /** The number of decimal digits at the front of `s`. */
  function LeadingDigits(s: string): (k: nat)
    ensures k <= |s|
    ensures forall i :: 0 <= i < k ==> IsDecimalDigit(s[i])
    ensures k < |s| ==> !IsDecimalDigit(s[k])
  {
    if |s| > 0 && IsDecimalDigit(s[0]) then 1 + LeadingDigits(s[1..]) else 0
  }

  predicate SignedDigits(s: string) {
    DecimalDigits(s) || (|s| > 0 && (s[0] == '+' || s[0] == '-') && DecimalDigits(s[1..]))
  }

  /** An unsigned decimal literal with no decimal point (a field never holds a '.'):
      digits with an optional exponent, or "Infinity". */
  predicate UnsignedDecimal(s: string) {
    || s == "Infinity"
    || (var k := LeadingDigits(s);
        k > 0 && (k == |s| || ((s[k] == 'e' || s[k] == 'E') && SignedDigits(s[k + 1..]))))
  }

  predicate DecimalLiteral(s: string) {
    UnsignedDecimal(s) || (|s| > 0 && (s[0] == '+' || s[0] == '-') && UnsignedDecimal(s[1..]))
  }

  /** 0x.., 0o.. and 0b.. literals (no sign allowed). */
  predicate NonDecimalLiteral(s: string) {
    && |s| > 2 && s[0] == '0'
    && (|| ((s[1] == 'x' || s[1] == 'X') && forall i :: 2 <= i < |s| ==> IsHexDigit(s[i]))
        || ((s[1] == 'o' || s[1] == 'O') && forall i :: 2 <= i < |s| ==> IsOctalDigit(s[i]))
        || ((s[1] == 'b' || s[1] == 'B') && forall i :: 2 <= i < |s| ==> IsBinaryDigit(s[i])))
  }

  /** `Number(s)` is not NaN: after trimming, `s` is empty (which converts to 0)
      or a numeric literal. */
  predicate NumericString(s: string) {
    var t := TrimEnd(TrimStart(s));
    t == "" || DecimalLiteral(t) || NonDecimalLiteral(t)
  }

  /** `isNaN(field)`, where an absent field is `undefined`, which converts to NaN. */
  predicate IsNaN(field: Option<string>) {
    field.None? || !NumericString(field.value)
  }

  /** The destructured element `parts[i]`, `undefined` past the end. */
  function Field(parts: seq<string>, i: nat): Option<string> {
    if i < |parts| then Some(parts[i]) else None
  }

  // ---------------------------------------------------------------------------
  // validateSemver, readSemver, isUpgrade, satisfies
  // ---------------------------------------------------------------------------

  /** `validateSemver`: throws when any of the first three pieces is NaN. */
  function ValidateSemver(version: string): (r: Result<()>)
    ensures r.Ok? ==> |Split(version, '.')| >= 3
    ensures r.Err? ==> r.error == InvalidVersionFormat
  {
    var parts := Split(version, '.');
    if IsNaN(Field(parts, 0)) || IsNaN(Field(parts, 1)) || IsNaN(Field(parts, 2)) then
      Err(InvalidVersionFormat)
    else
      Ok(())
  }

  /** `readSemver`: validates, then returns the first three pieces unchanged. */
  function ReadSemver(version: string): (r: Result<Semver>)
    ensures r.Ok? ==> NumericString(r.value.major) && NumericString(r.value.minor)
                      && NumericString(r.value.patch)
    ensures r.Err? ==> r.error == InvalidVersionFormat
  {
    match ValidateSemver(version)
    case Err(e) => Err(e)
    case Ok(_) =>
      var parts := Split(version, '.');
      Ok(Semver(parts[0], parts[1], parts[2]))
  }

  /** JavaScript's `a < b` on strings: lexicographic order of the characters. */
  predicate StringLess(a: string, b: string) {
    if |a| == 0 then |b| > 0
    else if |b| == 0 then false
    else if a[0] != b[0] then a[0] < b[0]
    else StringLess(a[1..], b[1..])
  }

  /** `isUpgrade`: some field of `latest` is a greater string than that of `current`. */
  function IsUpgrade(current: string, latest: string): (r: Result<bool>)
    ensures r.Err? <==> ReadSemver(current).Err? || ReadSemver(latest).Err?
    ensures r.Err? ==> r.error == InvalidVersionFormat
  {
    match ReadSemver(current)
    case Err(e) => Err(e)
    case Ok(c) =>
      match ReadSemver(latest)
      case Err(e) => Err(e)
      case Ok(l) =>
        if StringLess(c.major, l.major) then Ok(true)
        else if StringLess(c.minor, l.minor) then Ok(true)
        else if StringLess(c.patch, l.patch) then Ok(true)
        else Ok(false)
  }

  /** `satisfies`: the major strings and the minor strings are identical. */
  function Satisfies(current: string, target: string): (r: Result<bool>)
    ensures r.Err? <==> ReadSemver(current).Err? || ReadSemver(target).Err?
    ensures r.Err? ==> r.error == InvalidVersionFormat
  {
    match ReadSemver(current)
    case Err(e) => Err(e)
    case Ok(c) =>
      match ReadSemver(target)
      case Err(e) => Err(e)
      case Ok(t) =>
        if t.major != c.major then Ok(false)
        else if t.minor != c.minor then Ok(false)
        else Ok(true)
  }

  // ---------------------------------------------------------------------------
  // What a field accepts
  // ---------------------------------------------------------------------------

  lemma {:induction false} TrimStartDigits(s: string)
    requires |s| > 0 && IsDecimalDigit(s[0])
    ensures TrimStart(s) == s
  {
  }

  lemma {:induction false} TrimEndDigits(s: string)
    requires |s| > 0 && IsDecimalDigit(s[|s| - 1])
    ensures TrimEnd(s) == s
  {
  }

  lemma {:induction false} LeadingDigitsAll(s: string)
    requires forall i :: 0 <= i < |s| ==> IsDecimalDigit(s[i])
    ensures LeadingDigits(s) == |s|
    decreases |s|
  {
    if |s| > 0 {
      LeadingDigitsAll(s[1..]);
    }
  }

  /** Every non-empty string of decimal digits is a valid field. */
  lemma DigitsAreNumeric(s: string)
    requires DecimalDigits(s)
    ensures NumericString(s)
  {
    TrimStartDigits(s);
    TrimEndDigits(s);
    LeadingDigitsAll(s);
  }

  /** The empty field converts to 0 and so is valid: "1..3" passes validation. */
  lemma EmptyIsNumeric()
    ensures NumericString("")
    ensures !IsNaN(Some(""))
  {
  }

  /** The characters a valid field can contain. */
  predicate NumericChar(c: char) {
    IsSpace(c) || IsHexDigit(c) || c in "+-xXoObBInfintyeE"
  }

  lemma {:induction false} UnsignedDecimalChars(s: string, i: nat)
    requires UnsignedDecimal(s) && i < |s|
    ensures NumericChar(s[i])
  {
    if s != "Infinity" {
      var k := LeadingDigits(s);
      if i > k {
        assert s[k + 1..][i - k - 1] == s[i];
      }
    }
  }

  lemma {:induction false} LiteralChars(t: string, i: nat)
    requires DecimalLiteral(t) || NonDecimalLiteral(t)
    requires i < |t|
    ensures NumericChar(t[i])
  {
    if UnsignedDecimal(t) {
      UnsignedDecimalChars(t, i);
    } else if DecimalLiteral(t) {
      if i > 0 {
        UnsignedDecimalChars(t[1..], i - 1);
      }
    }
  }

  /** A field holding any other character (a letter such as 'a' in "1.a.3",
      or a '_' or '/') is rejected. */
  lemma ForeignCharIsNaN(s: string, j: nat)
    requires j < |s| && !NumericChar(s[j])
    ensures !NumericString(s)
  {
    var t := TrimEnd(TrimStart(s));
    if t == "" {
      // trimming only removes spaces, so the foreign character survives
      var u := TrimStart(s);
      TrimStartGone(s, j);
      var k :| 0 <= k < |u| && u[k] == s[j];
      TrimEndGone(u, k);
      assert false;
    } else if DecimalLiteral(t) || NonDecimalLiteral(t) {
      var u := TrimStart(s);
      TrimStartGone(s, j);
      var k :| 0 <= k < |u| && u[k] == s[j];
      TrimEndGone(u, k);
      var m :| 0 <= m < |t| && t[m] == s[j];
      LiteralChars(t, m);
      assert false;
    }
  }

  /** Trimming the front keeps every character that is not a space. */
  lemma {:induction false} TrimStartGone(s: string, j: nat)
    requires j < |s| && !IsSpace(s[j])
    ensures exists k :: 0 <= k < |TrimStart(s)| && TrimStart(s)[k] == s[j]
    decreases |s|
  {
    if |s| > 0 && IsSpace(s[0]) {
      assert j > 0;
      TrimStartGone(s[1..], j - 1);
      assert s[1..][j - 1] == s[j];
      var k :| 0 <= k < |TrimStart(s[1..])| && TrimStart(s[1..])[k] == s[1..][j - 1];
      assert TrimStart(s)[k] == s[j];
    } else {
      assert TrimStart(s)[j] == s[j];
    }
  }

  /** Trimming the back keeps every character that is not a space. */
  lemma {:induction false} TrimEndGone(s: string, j: nat)
    requires j < |s| && !IsSpace(s[j])
    ensures exists k :: 0 <= k < |TrimEnd(s)| && TrimEnd(s)[k] == s[j]
    decreases |s|
  {
    if |s| > 0 && IsSpace(s[|s| - 1]) {
      assert j < |s| - 1;
      TrimEndGone(s[..|s| - 1], j);
      assert s[..|s| - 1][j] == s[j];
      var k :| 0 <= k < |TrimEnd(s[..|s| - 1])| && TrimEnd(s[..|s| - 1])[k] == s[..|s| - 1][j];
      assert TrimEnd(s)[k] == s[j];
    } else {
      assert TrimEnd(s)[j] == s[j];
    }
  }

  /** "a" is not a number, although 'a' may appear inside a hexadecimal field. */
  lemma LetterAIsNaN()
    ensures !NumericString("a")
  {
    assert TrimStart("a") == "a";
    assert TrimEnd("a") == "a";
    assert LeadingDigits("a") == 0;
  }

  /** A missing field (fewer than three pieces) is NaN. */
  lemma MissingFieldIsNaN(parts: seq<string>, i: nat)
    requires i >= |parts|
    ensures IsNaN(Field(parts, i))
  {
  }

  // ---------------------------------------------------------------------------
  // readSemver, independently of `split`
  // ---------------------------------------------------------------------------

  /** How `Join` starts when there are at least two pieces. */
  lemma JoinUnfold(parts: seq<string>, sep: char)
    requires |parts| >= 2
    ensures Join(parts, sep) == parts[0] + [sep] + Join(parts[1..], sep)
  {
  }

  /** Three or more pieces join to the first three, dot-separated, followed by
      nothing or by a dot and the rest. */
  lemma JoinThree(parts: seq<string>) returns (rest: string)
    requires |parts| >= 3
    ensures rest == "" || rest[0] == '.'
    ensures Join(parts, '.') == parts[0] + "." + parts[1] + "." + parts[2] + rest
  {
    JoinUnfold(parts, '.');
    JoinUnfold(parts[1..], '.');
    assert parts[1..][1..] == parts[2..];
    rest := JoinRest(parts[2..]);
    Regroup(parts[0], parts[1], parts[2], rest);
  }

  lemma Regroup(a: string, b: string, c: string, d: string)
    ensures a + "." + (b + "." + (c + d)) == a + "." + b + "." + c + d
  {
  }

  /** What follows the first piece in a join: nothing, or a dot and the rest. */
  lemma JoinRest(parts: seq<string>) returns (rest: string)
    requires |parts| >= 1
    ensures rest == "" || rest[0] == '.'
    ensures Join(parts, '.') == parts[0] + rest
  {
    if |parts| == 1 {
      rest := "";
    } else {
      JoinUnfold(parts, '.');
      rest := "." + Join(parts[1..], '.');
    }
  }

  /** A successful `readSemver` returns three dot-free, numeric fields that spell
      the start of the version string: `version` is major.minor.patch followed by
      nothing or by a further ".…". */
  lemma ReadSemverSpells(version: string)
    requires ReadSemver(version).Ok?
    ensures var s := ReadSemver(version).value;
      && '.' !in s.major && '.' !in s.minor && '.' !in s.patch
      && exists rest :: (rest == "" || rest[0] == '.')
           && version == s.major + "." + s.minor + "." + s.patch + rest
  {
    var parts := Split(version, '.');
    SplitJoin(version, '.');
    assert parts[0] in parts && parts[1] in parts && parts[2] in parts;
    var rest := JoinThree(parts);
  }

  /** Conversely, a string that starts with three dot-free numeric fields reads back
      as exactly those fields. */
  lemma {:induction false} ReadSemverOf(a: string, b: string, c: string, rest: string)
    requires '.' !in a && '.' !in b && '.' !in c
    requires NumericString(a) && NumericString(b) && NumericString(c)
    requires rest == "" || rest[0] == '.'
    ensures ReadSemver(a + "." + b + "." + c + rest) == Ok(Semver(a, b, c))
  {
    var v := a + "." + b + "." + c + rest;
    assert v == a + ['.'] + (b + ['.'] + (c + rest));
    SplitCons(a, b + ['.'] + (c + rest), '.');
    SplitCons(b, c + rest, '.');
    if rest == "" {
      assert c + rest == c;
      SplitNone(c, '.');
    } else {
      assert c + rest == c + ['.'] + rest[1..];
      SplitCons(c, rest[1..], '.');
    }
    var parts := Split(v, '.');
    assert parts[0] == a && parts[1] == b && parts[2] == c;
    assert Field(parts, 0) == Some(a) && Field(parts, 1) == Some(b) && Field(parts, 2) == Some(c);
    assert ValidateSemver(v) == Ok(());
  }

  lemma ReadSemverOneTwoThree()
    ensures ReadSemver("1.2.3") == Ok(Semver("1", "2", "3"))
  {
    DigitsAreNumeric("1");
    DigitsAreNumeric("2");
    DigitsAreNumeric("3");
    ReadSemverOf("1", "2", "3", "");
    assert "1" + "." + "2" + "." + "3" + "" == "1.2.3";
  }

  /** "1.a.3": the letter makes the middle field NaN. */
  lemma ReadSemverLetter()
    ensures ReadSemver("1.a.3") == Err(InvalidVersionFormat)
  {
    assert "1.a.3" == "1" + ['.'] + ("a" + ['.'] + "3");
    SplitCons("1", "a" + ['.'] + "3", '.');
    SplitCons("a", "3", '.');
    SplitNone("3", '.');
    LetterAIsNaN();
  }

  /** "1.2": the patch field is missing, i.e. `undefined`. */
  lemma ReadSemverTwoFields()
    ensures ReadSemver("1.2") == Err(InvalidVersionFormat)
  {
    assert "1.2" == "1" + ['.'] + "2";
    SplitCons("1", "2", '.');
    SplitNone("2", '.');
  }

  // ---------------------------------------------------------------------------
  // The string order
  // ---------------------------------------------------------------------------

  lemma {:induction false} StringLessIrreflexive(a: string)
    ensures !StringLess(a, a)
    decreases |a|
  {
    if |a| > 0 {
      StringLessIrreflexive(a[1..]);
    }
  }

  /** Any two different strings are ordered one way or the other. */
  lemma {:induction false} StringLessTotal(a: string, b: string)
    requires a != b
    ensures StringLess(a, b) || StringLess(b, a)
    decreases |a|
  {
    if |a| > 0 && |b| > 0 && a[0] == b[0] {
      assert a == [a[0]] + a[1..] && b == [b[0]] + b[1..];
      StringLessTotal(a[1..], b[1..]);
    }
  }

  lemma {:induction false} StringLessAsymmetric(a: string, b: string)
    requires StringLess(a, b)
    ensures !StringLess(b, a)
    decreases |a|
  {
    if |a| > 0 && |b| > 0 && a[0] == b[0] {
      StringLessAsymmetric(a[1..], b[1..]);
    }
  }

  lemma {:induction false} StringLessTransitive(a: string, b: string, c: string)
    requires StringLess(a, b) && StringLess(b, c)
    ensures StringLess(a, c)
    decreases |a|
  {
    if |a| > 0 && a[0] == b[0] && b[0] == c[0] {
      StringLessTransitive(a[1..], b[1..], c[1..]);
    }
  }

  /** Field comparison is textual: "10" sorts before "9". */
  lemma TenBeforeNine()
    ensures StringLess("10", "9") && !StringLess("9", "10")
  {
  }

  // ---------------------------------------------------------------------------
  // isUpgrade and satisfies
  // ---------------------------------------------------------------------------

  /** A valid version is never an upgrade of itself. */
  lemma IsUpgradeIrreflexive(v: string)
    requires ReadSemver(v).Ok?
    ensures IsUpgrade(v, v) == Ok(false)
  {
    var s := ReadSemver(v).value;
    StringLessIrreflexive(s.major);
    StringLessIrreflexive(s.minor);
    StringLessIrreflexive(s.patch);
  }

  /** Both directions: `latest` is not an upgrade exactly when none of its three
      fields is a greater string than the field of `current`, each field judged
      on its own. */
  lemma NotUpgradeIffNoFieldGrows(current: string, latest: string)
    requires ReadSemver(current).Ok? && ReadSemver(latest).Ok?
    ensures var c, l := ReadSemver(current).value, ReadSemver(latest).value;
      IsUpgrade(current, latest) == Ok(false) <==>
        && (l.major == c.major || StringLess(l.major, c.major))
        && (l.minor == c.minor || StringLess(l.minor, c.minor))
        && (l.patch == c.patch || StringLess(l.patch, c.patch))
  {
    var c, l := ReadSemver(current).value, ReadSemver(latest).value;
    if c.major != l.major { StringLessTotal(c.major, l.major); }
    if c.minor != l.minor { StringLessTotal(c.minor, l.minor); }
    if c.patch != l.patch { StringLessTotal(c.patch, l.patch); }
    if StringLess(l.major, c.major) { StringLessAsymmetric(l.major, c.major); }
    if StringLess(l.minor, c.minor) { StringLessAsymmetric(l.minor, c.minor); }
    if StringLess(l.patch, c.patch) { StringLessAsymmetric(l.patch, c.patch); }
    StringLessIrreflexive(c.major);
    StringLessIrreflexive(c.minor);
    StringLessIrreflexive(c.patch);
  }

  /** A version that satisfies the installed one and is an upgrade of it differs
      from it only by a greater patch string. */
  lemma CompatibleUpgradeIsPatch(current: string, latest: string)
    requires Satisfies(current, latest) == Ok(true)
    requires IsUpgrade(current, latest) == Ok(true)
    ensures StringLess(ReadSemver(current).value.patch, ReadSemver(latest).value.patch)
  {
    var c := ReadSemver(current).value;
    StringLessIrreflexive(c.major);
    StringLessIrreflexive(c.minor);
  }

  /** The patch field never affects `satisfies`. */
  lemma SatisfiesIgnoresPatch(current: string, t1: string, t2: string)
    requires ReadSemver(t1).Ok? && ReadSemver(t2).Ok?
    requires ReadSemver(t1).value.major == ReadSemver(t2).value.major
    requires ReadSemver(t1).value.minor == ReadSemver(t2).value.minor
    ensures Satisfies(current, t1) == Satisfies(current, t2)
  {
  }

  /** `satisfies` fails exactly when one of the two versions is malformed,
      and otherwise compares major and minor strings for equality. */
  lemma SatisfiesIff(current: string, target: string)
    ensures Satisfies(current, target).Err? <==>
              ReadSemver(current).Err? || ReadSemver(target).Err?
    ensures Satisfies(current, target) == Ok(true) <==>
              && ReadSemver(current).Ok? && ReadSemver(target).Ok?
              && ReadSemver(current).value.major == ReadSemver(target).value.major
              && ReadSemver(current).value.minor == ReadSemver(target).value.minor
  {
  }

  /** Equality of major and minor strings is an equivalence. */
  lemma SatisfiesEquivalence(a: string, b: string, c: string)
    ensures ReadSemver(a).Ok? ==> Satisfies(a, a) == Ok(true)
    ensures Satisfies(a, b) == Ok(true) ==> Satisfies(b, a) == Ok(true)
    ensures Satisfies(a, b) == Ok(true) && Satisfies(b, c) == Ok(true) ==> Satisfies(a, c) == Ok(true)
  {
  }

  /** A version made of three digit strings reads back as those strings. */
  lemma ReadSemverDigits(a: string, b: string, c: string)
    requires DecimalDigits(a) && DecimalDigits(b) && DecimalDigits(c)
    ensures ReadSemver(a + "." + b + "." + c) == Ok(Semver(a, b, c))
  {
    DigitsAreNumeric(a);
    DigitsAreNumeric(b);
    DigitsAreNumeric(c);
    assert a + "." + b + "." + c + "" == a + "." + b + "." + c;
    ReadSemverOf(a, b, c, "");
  }

  lemma ReadSemver124()
    ensures ReadSemver("1.2.4") == Ok(Semver("1", "2", "4"))
  {
    assert "1" + "." + "2" + "." + "4" == "1.2.4";
    ReadSemverDigits("1", "2", "4");
  }

  lemma ReadSemver129()
    ensures ReadSemver("1.2.9") == Ok(Semver("1", "2", "9"))
  {
    assert "1" + "." + "2" + "." + "9" == "1.2.9";
    ReadSemverDigits("1", "2", "9");
  }

  lemma ReadSemver130()
    ensures ReadSemver("1.3.0") == Ok(Semver("1", "3", "0"))
  {
    assert "1" + "." + "3" + "." + "0" == "1.3.0";
    ReadSemverDigits("1", "3", "0");
  }

  lemma ReadSemver223()
    ensures ReadSemver("2.2.3") == Ok(Semver("2", "2", "3"))
  {
    assert "2" + "." + "2" + "." + "3" == "2.2.3";
    ReadSemverDigits("2", "2", "3");
  }

  lemma VersionExamples()
    ensures IsUpgrade("1.2.3", "1.2.4") == Ok(true)
    ensures IsUpgrade("1.2.3", "1.2.3") == Ok(false)
    ensures Satisfies("1.2.3", "1.2.9") == Ok(true)
    ensures Satisfies("1.2.3", "1.3.0") == Ok(false)
    ensures Satisfies("1.2.3", "2.2.3") == Ok(false)
  {
    ReadSemverOneTwoThree();
    ReadSemver124();
    ReadSemver129();
    ReadSemver130();
    ReadSemver223();
    IsUpgradeIrreflexive("1.2.3");
  }

  lemma ReadSemver190()
    ensures ReadSemver("1.9.0") == Ok(Semver("1", "9", "0"))
  {
    assert "1" + "." + "9" + "." + "0" == "1.9.0";
    ReadSemverDigits("1", "9", "0");
  }

  lemma ReadSemver1100()
    ensures ReadSemver("1.10.0") == Ok(Semver("1", "10", "0"))
  {
    assert "1" + "." + "10" + "." + "0" == "1.10.0";
    ReadSemverDigits("1", "10", "0");
  }

  lemma ReadSemver200()
    ensures ReadSemver("2.0.0") == Ok(Semver("2", "0", "0"))
  {
    assert "2" + "." + "0" + "." + "0" == "2.0.0";
    ReadSemverDigits("2", "0", "0");
  }

  lemma ReadSemver150()
    ensures ReadSemver("1.5.0") == Ok(Semver("1", "5", "0"))
  {
    assert "1" + "." + "5" + "." + "0" == "1.5.0";
    ReadSemverDigits("1", "5", "0");
  }

  /** Because fields compare as strings, 1.10.0 is not an upgrade of 1.9.0,
      while 1.5.0 counts as an upgrade of 2.0.0 (its minor field grew). */
  lemma UpgradeAnomalies()
    ensures IsUpgrade("1.9.0", "1.10.0") == Ok(false)
    ensures IsUpgrade("2.0.0", "1.5.0") == Ok(true)
  {
    ReadSemver190();
    ReadSemver1100();
    ReadSemver200();
    ReadSemver150();
    StringLessIrreflexive("0");
  }
}
