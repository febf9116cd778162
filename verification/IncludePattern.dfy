/** The include directives of templates: `${include:name}`, `${include:name:v2}`, `${include:name:2.1}`
    (`TemplateRenderer.INCLUDE_PATTERN`). */
module IncludePattern {
  import opened Wrappers
  import opened Scanner
  import opened Ascii

  datatype Version = Version(v: bool, major: string, minor: Option<string>)

  datatype Directive = Directive(name: string, version: Option<Version>)

  predicate IsNameChar(c: char) {
    'a' <= c <= 'z' || 'A' <= c <= 'Z' || '0' <= c <= '9' || c == '_' || c == '-'
  }

  predicate IsDigit(c: char) {
    '0' <= c <= '9'
  }

  predicate WellFormedVersion(version: Version) {
    && version.major != "" && All(version.major, IsDigit)
    && (version.minor.Some? ==> version.minor.value != "" && All(version.minor.value, IsDigit))
  }

  /** The directives the pattern describes. */
  predicate WellFormed(d: Directive) {
    && d.name != "" && All(d.name, IsNameChar)
    && (d.version.Some? ==> WellFormedVersion(d.version.value))
  }

  function PrintMinor(minor: Option<string>): string {
    match minor
    case None => "}"
    case Some(digits) => "." + (digits + "}")
  }

  function PrintMajor(major: string, minor: Option<string>): string {
    major + PrintMinor(minor)
  }

  function PrintVersion(version: Option<Version>): string {
    match version
    case None => "}"
    case Some(Version(v, major, minor)) => (if v then ":v" else ":") + PrintMajor(major, minor)
  }

  function Print(d: Directive): string {
    "${include:" + (d.name + PrintVersion(d.version))
  }

  function MatchMinor(s: string, i: nat): Option<(nat, Option<string>)> {
    if At(s, i, "}") then Some((i + 1, None))
    else if At(s, i, ".") then
      var digits := Word(s, i + 1, IsDigit);
      if digits != "" && At(s, i + 1 + |digits|, "}") then Some((i + 1 + |digits| + 1, Some(digits))) else None
    else None
  }

  function MatchMajor(s: string, i: nat): Option<(nat, string, Option<string>)> {
    var digits := Word(s, i, IsDigit);
    var rest := MatchMinor(s, i + |digits|);
    if digits == "" || rest.None? then None else Some((rest.value.0, digits, rest.value.1))
  }

  function MatchVersion(s: string, i: nat): Option<(nat, Option<Version>)> {
    if At(s, i, "}") then Some((i + 1, None))
    else if At(s, i, ":v") then
      var rest := MatchMajor(s, i + 2);
      if rest.None? then None else Some((rest.value.0, Some(Version(true, rest.value.1, rest.value.2))))
    else if At(s, i, ":") then
      var rest := MatchMajor(s, i + 1);
      if rest.None? then None else Some((rest.value.0, Some(Version(false, rest.value.1, rest.value.2))))
    else None
  }

  /** `INCLUDE_PATTERN` matched at position `i`. */
  function MatchInclude(s: string, i: nat): Option<(nat, Directive)> {
    if !At(s, i, "${include:") then None
    else
      var name := Word(s, i + 10, IsNameChar);
      var rest := MatchVersion(s, i + 10 + |name|);
      if name == "" || rest.None? then None else Some((rest.value.0, Directive(name, rest.value.1)))
  }

  // ---------------------------------------------------------------- stage by stage

  lemma PrintMinorAt(s: string, i: nat, digits: string)
    ensures |PrintMinor(Some(digits))| == 1 + |digits| + 1
    ensures At(s, i, PrintMinor(Some(digits))) <==>
      At(s, i, ".") && At(s, i + 1, digits) && At(s, i + 1 + |digits|, "}")
  {
    hide At;
    AtConcat(s, i + 1, digits, "}");
    AtConcat(s, i, ".", digits + "}");
  }

  lemma MinorSound(s: string, i: nat)
    ensures var found := MatchMinor(s, i);
      found.Some? ==>
        && At(s, i, PrintMinor(found.value.1)) && found.value.0 == i + |PrintMinor(found.value.1)|
        && (found.value.1.Some? ==> found.value.1.value != "" && All(found.value.1.value, IsDigit))
  {
    hide Word, All, At;
    if !At(s, i, "}") && At(s, i, ".") {
      AtBounds(s, i, ".");
      WordAt(s, i + 1, IsDigit);
      PrintMinorAt(s, i, Word(s, i + 1, IsDigit));
    }
  }

  lemma MinorComplete(s: string, i: nat, minor: Option<string>)
    requires At(s, i, PrintMinor(minor)) && (minor.Some? ==> minor.value != "" && All(minor.value, IsDigit))
    ensures MatchMinor(s, i) == Some((i + |PrintMinor(minor)|, minor))
  {
    if minor.Some? {
      PrintMinorAt(s, i, minor.value);
      WordIs(s, i + 1, IsDigit, minor.value, "}");
      assert s[i..i + 1] == ".";
    }
  }

  lemma PrintMinorStops(minor: Option<string>)
    ensures PrintMinor(minor) != "" && !IsDigit(PrintMinor(minor)[0])
  {
  }

  lemma MajorSound(s: string, i: nat)
    requires i <= |s|
    ensures var found := MatchMajor(s, i);
      found.Some? ==>
        var (end, major, minor) := found.value;
        && At(s, i, PrintMajor(major, minor)) && end == i + |PrintMajor(major, minor)|
        && WellFormedVersion(Version(true, major, minor))
  {
    hide At, Word, All, PrintMinor, MatchMinor;
    var digits := Word(s, i, IsDigit);
    WordAt(s, i, IsDigit);
    MinorSound(s, i + |digits|);
    var rest := MatchMinor(s, i + |digits|);
    if rest.Some? {
      AtConcat(s, i, digits, PrintMinor(rest.value.1));
    }
  }

  lemma MajorComplete(s: string, i: nat, major: string, minor: Option<string>)
    requires At(s, i, PrintMajor(major, minor)) && WellFormedVersion(Version(true, major, minor))
    ensures MatchMajor(s, i) == Some((i + |PrintMajor(major, minor)|, major, minor))
  {
    hide At, Word, All, PrintMinor, MatchMinor;
    AtConcat(s, i, major, PrintMinor(minor));
    MinorComplete(s, i + |major|, minor);
    PrintMinorStops(minor);
    WordIs(s, i, IsDigit, major, PrintMinor(minor));
  }

  lemma VersionSound(s: string, i: nat)
    ensures var found := MatchVersion(s, i);
      found.Some? ==>
        && At(s, i, PrintVersion(found.value.1)) && found.value.0 == i + |PrintVersion(found.value.1)|
        && (found.value.1.Some? ==> WellFormedVersion(found.value.1.value))
  {
    hide At, All, PrintMajor, MatchMajor;
    AtBounds(s, i, ":v");
    AtBounds(s, i, ":");
    var v := At(s, i, ":v");
    if !At(s, i, "}") && (v || At(s, i, ":")) {
      var j := if v then i + 2 else i + 1;
      MajorSound(s, j);
      var rest := MatchMajor(s, j);
      if rest.Some? {
        AtConcat(s, i, if v then ":v" else ":", PrintMajor(rest.value.1, rest.value.2));
      }
    }
  }

  /** Texts that begin differently are not at the same place. */
  lemma NotBoth(s: string, i: nat, left: string, right: string)
    requires left != "" && right != "" && left[0] != right[0]
    ensures !At(s, i, left) || !At(s, i, right)
  {
    FirstChar(s, i, left);
    FirstChar(s, i, right);
  }

  lemma FirstChar(s: string, i: nat, text: string)
    requires text != ""
    ensures At(s, i, text) ==> i < |s| && s[i] == text[0]
  {
    assert At(s, i, text) ==> s[i] == s[i..i + |text|][0];
  }

  lemma VersionComplete(s: string, i: nat, version: Option<Version>)
    requires At(s, i, PrintVersion(version)) && (version.Some? ==> WellFormedVersion(version.value))
    ensures MatchVersion(s, i) == Some((i + |PrintVersion(version)|, version))
  {
    hide At, MatchVersion, PrintMajor, WellFormedVersion;
    match version
    case None => NoVersion(s, i);
    case Some(Version(v, major, minor)) =>
      PrintVersionForms(v, major, minor);
      hide PrintVersion;
      if v {
        WithV(s, i, major, minor);
      } else {
        WithoutV(s, i, major, minor);
      }
  }

  lemma NoVersion(s: string, i: nat)
    requires At(s, i, "}")
    ensures MatchVersion(s, i) == Some((i + 1, None))
  {
    hide At;
  }

  lemma PrintVersionForms(v: bool, major: string, minor: Option<string>)
    ensures var printed := PrintVersion(Some(Version(v, major, minor)));
      && printed == (if v then ":v" else ":") + PrintMajor(major, minor)
      && |printed| == (if v then 2 else 1) + |PrintMajor(major, minor)|
  {
    hide PrintMajor;
  }

  lemma EitherV(major: string, minor: Option<string>)
    ensures WellFormedVersion(Version(true, major, minor)) <==> WellFormedVersion(Version(false, major, minor))
  {
  }

  lemma WithV(s: string, i: nat, major: string, minor: Option<string>)
    requires At(s, i, ":v" + PrintMajor(major, minor)) && WellFormedVersion(Version(true, major, minor))
    ensures MatchVersion(s, i) == Some((i + 2 + |PrintMajor(major, minor)|, Some(Version(true, major, minor))))
  {
    hide At, PrintMajor, MatchMajor, WellFormedVersion;
    AtConcat(s, i, ":v", PrintMajor(major, minor));
    NotBoth(s, i, ":v", "}");
    EitherV(major, minor);
    MajorComplete(s, i + 2, major, minor);
  }

  lemma WithoutV(s: string, i: nat, major: string, minor: Option<string>)
    requires At(s, i, ":" + PrintMajor(major, minor)) && WellFormedVersion(Version(false, major, minor))
    ensures MatchVersion(s, i) == Some((i + 1 + |PrintMajor(major, minor)|, Some(Version(false, major, minor))))
  {
    hide At, PrintMajor, MatchMajor, WellFormedVersion;
    NoV(s, i, major, minor);
    AtConcat(s, i, ":", PrintMajor(major, minor));
    NotBoth(s, i, ":", "}");
    EitherV(major, minor);
    MajorComplete(s, i + 1, major, minor);
  }

  /** A digit behind the colon leaves no room for a `v`. */
  lemma NoV(s: string, i: nat, major: string, minor: Option<string>)
    requires At(s, i, ":" + PrintMajor(major, minor)) && WellFormedVersion(Version(false, major, minor))
    ensures !At(s, i, ":v")
  {
    assert IsDigit(major[0]);
    hide At, PrintMajor, All;
    AtConcat(s, i, ":", PrintMajor(major, minor));
    MajorFirst(s, i + 1, major, minor);
    NotBoth(s, i + 1, major, "v");
    AtConcat(s, i, ":", "v");
    assert ":" + "v" == ":v";
  }

  lemma MajorFirst(s: string, i: nat, major: string, minor: Option<string>)
    requires At(s, i, PrintMajor(major, minor))
    ensures At(s, i, major)
  {
    AtConcat(s, i, major, PrintMinor(minor));
  }

  lemma PrintVersionStops(version: Option<Version>)
    ensures PrintVersion(version) != "" && !IsNameChar(PrintVersion(version)[0])
  {
  }

  lemma PrintAt(s: string, i: nat, d: Directive)
    ensures |Print(d)| == 10 + |d.name| + |PrintVersion(d.version)|
    ensures At(s, i, Print(d)) <==>
      At(s, i, "${include:") && At(s, i + 10, d.name) && At(s, i + 10 + |d.name|, PrintVersion(d.version))
  {
    hide At, PrintVersion;
    AtConcat(s, i + 10, d.name, PrintVersion(d.version));
    AtConcat(s, i, "${include:", d.name + PrintVersion(d.version));
  }

  /** What is matched is the print of a well-formed directive. */
  lemma MatchSound(s: string, i: nat)
    ensures var found := MatchInclude(s, i);
      found.Some? ==>
        && WellFormed(found.value.1) && At(s, i, Print(found.value.1))
        && i < found.value.0 == i + |Print(found.value.1)| <= |s|
  {
    hide At, Word, All, Print, PrintVersion, MatchVersion;
    if At(s, i, "${include:") {
      AtBounds(s, i, "${include:");
      WordAt(s, i + 10, IsNameChar);
      var name := Word(s, i + 10, IsNameChar);
      VersionSound(s, i + 10 + |name|);
      var rest := MatchVersion(s, i + 10 + |name|);
      if rest.Some? {
        PrintAt(s, i, Directive(name, rest.value.1));
        AtBounds(s, i, Print(Directive(name, rest.value.1)));
      }
    }
  }

  /** The print of a well-formed directive is matched wherever it stands, and yields that directive. */
  lemma MatchComplete(s: string, i: nat, d: Directive)
    requires WellFormed(d) && At(s, i, Print(d))
    ensures MatchInclude(s, i) == Some((i + |Print(d)|, d))
  {
    hide At, Word, All, Print, PrintVersion, MatchVersion;
    PrintAt(s, i, d);
    VersionComplete(s, i + 10 + |d.name|, d.version);
    PrintVersionStops(d.version);
    WordIs(s, i + 10, IsNameChar, d.name, PrintVersion(d.version));
  }

  lemma MatchIncludeLocal(s: string, k: nat, i: nat)
    requires k + i <= |s|
    ensures var there, here := MatchInclude(s, k + i), MatchInclude(s[k..], i);
      there == if here.Some? then Some((k + here.value.0, here.value.1)) else None
  {
    hide MatchInclude, Print, WellFormed;
    var there, here := MatchInclude(s, k + i), MatchInclude(s[k..], i);
    if here.Some? {
      var text := Print(here.value.1);
      MatchSound(s[k..], i);
      assert s[k + i..k + i + |text|] == s[k..][i..i + |text|];
      MatchComplete(s, k + i, here.value.1);
    } else if there.Some? {
      var text := Print(there.value.1);
      MatchSound(s, k + i);
      assert s[k + i..k + i + |text|] == s[k..][i..i + |text|];
      MatchComplete(s[k..], i, there.value.1);
    }
  }

  lemma MatchIncludeProper()
    ensures Proper(MatchInclude)
  {
    hide MatchInclude;
    forall s, i: nat | MatchInclude(s, i).Some?
      ensures i < MatchInclude(s, i).value.0 <= |s|
    {
      MatchSound(s, i);
    }
  }

  lemma MatchIncludeIsScanner()
    ensures Proper(MatchInclude) && Local(MatchInclude)
  {
    MatchIncludeProper();
    hide MatchInclude;
    forall s, k: nat, i: nat | k + i <= |s|
      ensures MatchInclude(s, k + i) ==
        (if MatchInclude(s[k..], i).Some?
         then Some((k + MatchInclude(s[k..], i).value.0, MatchInclude(s[k..], i).value.1)) else None)
    {
      MatchIncludeLocal(s, k, i);
    }
  }

  // ---------------------------------------------------------------- the written form

  const DIGITS := "0123456789"
  const NAME_PUNCTUATION := "_-"

  lemma DigitsAre(c: char)
    ensures IsDigit(c) <==> c in DIGITS
  {
    if IsDigit(c) {
      assert DIGITS[c as int - '0' as int] == c;
    }
  }

  /** Names are made of letters of either case, digits, underscores and hyphens. */
  lemma NameCharsAre(c: char)
    ensures IsNameChar(c) <==> c in UPPER_CASE || c in LOWER_CASE || c in DIGITS || c in NAME_PUNCTUATION
  {
    DigitsAre(c);
    UpperAre(c);
    LowerAre(c);
    hide IsDigit;
    assert c in NAME_PUNCTUATION <==> c == '_' || c == '-';
  }

  /** The three forms of a directive, with or without the `v`. */
  lemma PrintedForms(name: string, v: bool, major: string, minor: string)
    ensures Print(Directive(name, None)) == "${include:" + name + "}"
    ensures var colon := if v then ":v" else ":";
      && Print(Directive(name, Some(Version(v, major, None)))) == "${include:" + name + colon + major + "}"
      && Print(Directive(name, Some(Version(v, major, Some(minor)))))
         == "${include:" + name + colon + major + "." + minor + "}"
  {
    var colon := if v then ":v" else ":";
    Regroup("${include:", name, colon, major + "}");
    assert "${include:" + (name + "}") == "${include:" + name + "}";
    assert "${include:" + (name + (colon + (major + "}"))) == "${include:" + name + colon + major + "}";
    assert "${include:" + (name + (colon + (major + ("." + (minor + "}")))))
        == "${include:" + name + colon + major + "." + minor + "}";
  }
}
