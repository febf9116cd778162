/** Substitution of `${namespace.key|default}` placeholders (`VariableResolver`). */
module VariableResolver {
  import opened Wrappers
  import opened Ascii
  import opened Scanner

  datatype Placeholder = Placeholder(namespace: string, key: string, default: Option<string>)

  predicate IsLetter(c: char) {
    'a' <= c <= 'z'
  }

  predicate IsKeyChar(c: char) {
    IsLetter(c) || c == '_'
  }

  predicate NotBrace(c: char) {
    c != '}'
  }

  /** The placeholders the pattern describes. */
  predicate WellFormed(p: Placeholder) {
    && p.namespace != "" && All(p.namespace, IsLetter)
    && p.key != "" && All(p.key, IsKeyChar)
    && (p.default.Some? ==> All(p.default.value, NotBrace))
  }

  function Print(p: Placeholder): string {
    "${" + (p.namespace + PrintKey(p.key, p.default))
  }

  function PrintKey(key: string, default: Option<string>): string {
    "." + (key + PrintDefault(default))
  }

  function PrintDefault(default: Option<string>): string {
    match default
    case None => "}"
    case Some(text) => "|" + (text + "}")
  }

  /** The end of `VARIABLE_PATTERN`, from the optional default on. */
  function MatchDefault(s: string, i: nat): (found: Option<(nat, Option<string>)>) {
    if At(s, i, "}") then Some((i + 1, None))
    else if At(s, i, "|") then
      var text := Word(s, i + 1, NotBrace);
      if At(s, i + 1 + |text|, "}") then Some((i + 1 + |text| + 1, Some(text))) else None
    else None
  }

  /** The dot of `VARIABLE_PATTERN`, the key and what follows it. */
  function MatchKey(s: string, i: nat): (found: Option<(nat, string, Option<string>)>) {
    if !At(s, i, ".") then None
    else
      var key := Word(s, i + 1, IsKeyChar);
      var rest := MatchDefault(s, i + 1 + |key|);
      if key == "" || rest.None? then None else Some((rest.value.0, key, rest.value.1))
  }

  /** `VARIABLE_PATTERN` matched at position `i`. */
  function MatchVariable(s: string, i: nat): (found: Option<(nat, Placeholder)>) {
    if !At(s, i, "${") then None
    else
      var namespace := Word(s, i + 2, IsLetter);
      var key := MatchKey(s, i + 2 + |namespace|);
      if namespace == "" || key.None? then None
      else Some((key.value.0, Placeholder(namespace, key.value.1, key.value.2)))
  }

  lemma PrintDefaultAt(s: string, i: nat, default: Option<string>)
    requires default.Some?
    ensures |PrintDefault(default)| == 1 + |default.value| + 1
    ensures At(s, i, PrintDefault(default)) <==>
      At(s, i, "|") && At(s, i + 1, default.value) && At(s, i + 1 + |default.value|, "}")
  {
    hide At;
    AtConcat(s, i + 1, default.value, "}");
    AtConcat(s, i, "|", default.value + "}");
  }

  lemma DefaultSound(s: string, i: nat)
    ensures var found := MatchDefault(s, i);
      found.Some? ==>
        && At(s, i, PrintDefault(found.value.1)) && found.value.0 == i + |PrintDefault(found.value.1)|
        && (found.value.1.Some? ==> All(found.value.1.value, NotBrace))
  {
    hide Word, All, At;
    if !At(s, i, "}") && At(s, i, "|") {
      AtBounds(s, i, "|");
      WordAt(s, i + 1, NotBrace);
      PrintDefaultAt(s, i, Some(Word(s, i + 1, NotBrace)));
    }
  }

  lemma DefaultComplete(s: string, i: nat, default: Option<string>)
    requires At(s, i, PrintDefault(default)) && (default.Some? ==> All(default.value, NotBrace))
    ensures MatchDefault(s, i) == Some((i + |PrintDefault(default)|, default))
  {
    if default.Some? {
      PrintDefaultAt(s, i, default);
      WordIs(s, i + 1, NotBrace, default.value, "}");
      assert s[i..i + 1] == "|";
    }
  }

  lemma PrintKeyAt(s: string, i: nat, key: string, default: Option<string>)
    ensures |PrintKey(key, default)| == 1 + |key| + |PrintDefault(default)|
    ensures At(s, i, PrintKey(key, default)) <==>
      At(s, i, ".") && At(s, i + 1, key) && At(s, i + 1 + |key|, PrintDefault(default))
  {
    hide At, PrintDefault;
    AtConcat(s, i + 1, key, PrintDefault(default));
    AtConcat(s, i, ".", key + PrintDefault(default));
  }

  lemma PrintDefaultStops(default: Option<string>)
    ensures PrintDefault(default) != "" && !IsKeyChar(PrintDefault(default)[0])
  {
  }

  lemma PrintKeyStops(key: string, default: Option<string>)
    ensures PrintKey(key, default) != "" && !IsLetter(PrintKey(key, default)[0])
  {
  }

  lemma KeySound(s: string, i: nat)
    ensures var found := MatchKey(s, i);
      found.Some? ==>
        var (end, key, default) := found.value;
        && At(s, i, PrintKey(key, default)) && end == i + |PrintKey(key, default)|
        && key != "" && All(key, IsKeyChar) && (default.Some? ==> All(default.value, NotBrace))
  {
    hide At, Word, All, PrintKey, PrintDefault, MatchDefault;
    if At(s, i, ".") {
      AtBounds(s, i, ".");
      WordAt(s, i + 1, IsKeyChar);
      var key := Word(s, i + 1, IsKeyChar);
      var rest := MatchDefault(s, i + 1 + |key|);
      DefaultSound(s, i + 1 + |key|);
      if rest.Some? {
        PrintKeyAt(s, i, key, rest.value.1);
      }
    }
  }

  lemma KeyComplete(s: string, i: nat, key: string, default: Option<string>)
    requires At(s, i, PrintKey(key, default))
    requires key != "" && All(key, IsKeyChar) && (default.Some? ==> All(default.value, NotBrace))
    ensures MatchKey(s, i) == Some((i + |PrintKey(key, default)|, key, default))
  {
    hide At, Word, All, PrintKey, PrintDefault, MatchDefault;
    PrintKeyAt(s, i, key, default);
    DefaultComplete(s, i + 1 + |key|, default);
    PrintDefaultStops(default);
    WordIs(s, i + 1, IsKeyChar, key, PrintDefault(default));
  }

  lemma PrintAt(s: string, i: nat, p: Placeholder)
    ensures |Print(p)| == 2 + |p.namespace| + |PrintKey(p.key, p.default)|
    ensures At(s, i, Print(p)) <==>
      && At(s, i, "${")
      && At(s, i + 2, p.namespace)
      && At(s, i + 2 + |p.namespace|, PrintKey(p.key, p.default))
  {
    hide At, PrintKey;
    var rest := PrintKey(p.key, p.default);
    AtConcat(s, i + 2, p.namespace, rest);
    AtConcat(s, i, "${", p.namespace + rest);
  }

  /** What is matched is the print of a well-formed placeholder. */
  lemma MatchSound(s: string, i: nat)
    ensures var found := MatchVariable(s, i);
      found.Some? ==>
        WellFormed(found.value.1) && At(s, i, Print(found.value.1)) && found.value.0 == i + |Print(found.value.1)|
  {
    hide At, Word, All, Print, PrintKey, MatchKey;
    if At(s, i, "${") {
      AtBounds(s, i, "${");
      WordAt(s, i + 2, IsLetter);
      var namespace := Word(s, i + 2, IsLetter);
      var key := MatchKey(s, i + 2 + |namespace|);
      KeySound(s, i + 2 + |namespace|);
      if key.Some? {
        PrintAt(s, i, Placeholder(namespace, key.value.1, key.value.2));
      }
    }
  }

  /** The print of a well-formed placeholder is matched wherever it stands, and yields that placeholder. */
  lemma MatchComplete(s: string, i: nat, p: Placeholder)
    requires WellFormed(p) && At(s, i, Print(p))
    ensures MatchVariable(s, i) == Some((i + |Print(p)|, p))
  {
    hide At, Word, All, Print, PrintKey, MatchKey;
    PrintAt(s, i, p);
    KeyComplete(s, i + 2 + |p.namespace|, p.key, p.default);
    PrintKeyStops(p.key, p.default);
    WordIs(s, i + 2, IsLetter, p.namespace, PrintKey(p.key, p.default));
  }

  lemma MatchVariableIsScanner()
    ensures Proper(MatchVariable) && Local(MatchVariable)
  {
    hide MatchVariable, At, Print, WellFormed;
    forall s, i: nat | MatchVariable(s, i).Some?
      ensures i < MatchVariable(s, i).value.0 <= |s|
    {
      MatchSound(s, i);
      PrintAt(s, i, MatchVariable(s, i).value.1);
      AtBounds(s, i, Print(MatchVariable(s, i).value.1));
    }
    forall s, k: nat, i: nat | k + i <= |s|
      ensures MatchVariable(s, k + i) ==
        (if MatchVariable(s[k..], i).Some?
         then Some((k + MatchVariable(s[k..], i).value.0, MatchVariable(s[k..], i).value.1)) else None)
    {
      MatchVariableLocal(s, k, i);
    }
  }

  lemma MatchVariableLocal(s: string, k: nat, i: nat)
    requires k + i <= |s|
    ensures var there, here := MatchVariable(s, k + i), MatchVariable(s[k..], i);
      there == if here.Some? then Some((k + here.value.0, here.value.1)) else None
  {
    hide MatchVariable, Print, WellFormed;
    var there, here := MatchVariable(s, k + i), MatchVariable(s[k..], i);
    if here.Some? {
      var text := Print(here.value.1);
      MatchSound(s[k..], i);
      assert s[k + i..k + i + |text|] == s[k..][i..i + |text|];
      MatchComplete(s, k + i, here.value.1);
    } else if there.Some? {
      var text := Print(there.value.1);
      MatchSound(s, k + i);
      assert s[k + i..k + i + |text|] == s[k..][i..i + |text|];
      MatchComplete(s[k..], i, there.value.1);
    }
  }

  // ---------------------------------------------------------------- resolving

  /** Values by namespace and key; `None` is Python's `None`. */
  type Context = map<string, map<string, Option<string>>>

  function Lookup(context: Context, namespace: string, key: string): Option<string> {
    if namespace in context && key in context[namespace] then context[namespace][key] else None
  }

  /** The `replace` callback: the value, else the default, else the placeholder itself. */
  function Replacement(context: Context, text: string, p: Placeholder): string {
    var value := Lookup(context, p.namespace, p.key);
    if value.Some? then value.value else if p.default.Some? then p.default.value else text
  }

  function Resolve(context: Context, content: string): string {
    MatchVariableIsScanner();
    Substitute(MatchVariable, (text: string, p: Placeholder) => Replacement(context, text, p), content, 0)
  }

  function Name(p: Placeholder): string {
    p.namespace + "." + p.key
  }

  /** The placeholders of a text, from left to right. */
  function Placeholders(content: string): seq<Match<Placeholder>> {
    MatchVariableIsScanner();
    FindAll(MatchVariable, content, 0)
  }

  function ListVariables(content: string): (names: seq<string>) {
    var found := Placeholders(content);
    seq(|found|, k requires 0 <= k < |found| => Name(found[k].value))
  }

  /** Putting every placeholder found back in place of itself, printed afresh, gives the text back. */
  lemma ScanPrintsBack(content: string)
    ensures Proper(MatchVariable)
    ensures Substitute(MatchVariable, (text: string, p: Placeholder) => Print(p), content, 0) == content
  {
    MatchVariableIsScanner();
    hide MatchVariable, Print, WellFormed;
    forall found | found in FindAll(MatchVariable, content, 0) && found.start <= found.end <= |content|
      ensures content[found.start..found.end] == Print(found.value)
    {
      FoundMatches(MatchVariable, content, 0, found);
      MatchSound(content, found.start);
    }
    SubstituteAgree(MatchVariable, (text: string, p: Placeholder) => Print(p),
                    (text: string, p: Placeholder) => text, content, 0);
    SubstituteOwn(MatchVariable, content, 0);
    assert content[0..] == content;
  }

  /** Up to the first placeholder the text is copied, the placeholder gives its replacement, and the
      rest is resolved on its own: the value put in is never scanned, alone or with its surroundings. */
  lemma ResolvesLeftToRight(context: Context, before: string, p: Placeholder, after: string)
    requires WellFormed(p)
    requires forall i :: 0 <= i < |before| ==> MatchVariable(before + (Print(p) + after), i) == None
    ensures Resolve(context, before + (Print(p) + after))
         == before + (Replacement(context, Print(p), p) + Resolve(context, after))
  {
    MatchVariableIsScanner();
    var content, end := before + (Print(p) + after), |before| + |Print(p)|;
    hide Print, WellFormed, MatchVariable, Replacement, At, Substitute, Local;
    ThreeParts(before, Print(p), after);
    PrintAt(content, |before|, p);
    MatchComplete(content, |before|, p);
    assert NoneBefore(MatchVariable, content, |before|);
    SubstituteFirst(MatchVariable, (text: string, p: Placeholder) => Replacement(context, text, p),
                    content, |before|, end, p);
  }

  /** Every text is either free of placeholders, and then unchanged, or of the form that
      `ResolvesLeftToRight` speaks of. */
  lemma FirstPlaceholder(context: Context, content: string) returns (before: string, p: Placeholder, after: string)
    ensures (forall i :: 0 <= i < |content| ==> MatchVariable(content, i) == None) ==>
      Resolve(context, content) == content
    ensures !(forall i :: 0 <= i < |content| ==> MatchVariable(content, i) == None) ==>
      && content == before + (Print(p) + after) && WellFormed(p)
      && forall i :: 0 <= i < |before| ==> MatchVariable(content, i) == None
  {
    MatchVariableIsScanner();
    before, p, after := "", Placeholder("", "", None), "";
    hide Print, WellFormed, MatchVariable, Replacement;
    var replace := (text: string, p: Placeholder) => Replacement(context, text, p);
    var i := 0;
    while i < |content| && MatchVariable(content, i) == None
      invariant i <= |content| && forall k :: 0 <= k < i ==> MatchVariable(content, k) == None
    {
      i := i + 1;
    }
    if i == |content| {
      SubstituteSkip(MatchVariable, replace, content, 0, |content|);
      assert content[0..|content|] == content;
    } else {
      var (end, found) := MatchVariable(content, i).value;
      MatchSound(content, i);
      before, p, after := content[..i], found, content[end..];
      assert content == content[..i] + (content[i..end] + content[end..]);
    }
  }

  // ---------------------------------------------------------------- the written form

  /** Namespaces are made of small letters, keys of small letters and underscores. */
  lemma NameCharsAre(c: char)
    ensures IsLetter(c) <==> c in LOWER_CASE
    ensures IsKeyChar(c) <==> c in LOWER_CASE || c == '_'
  {
    LowerAre(c);
  }

  lemma PrintedForms(namespace: string, key: string, default: string)
    ensures Print(Placeholder(namespace, key, None)) == "${" + namespace + "." + key + "}"
    ensures Print(Placeholder(namespace, key, Some(default))) == "${" + namespace + "." + key + "|" + default + "}"
  {
    assert "${" + (namespace + ("." + (key + "}"))) == "${" + namespace + "." + key + "}";
    assert "${" + (namespace + ("." + (key + ("|" + (default + "}")))))
        == "${" + namespace + "." + key + "|" + default + "}";
  }

  predicate Holds(context: Context, p: Placeholder, value: string) {
    p.namespace in context && p.key in context[p.namespace] && context[p.namespace][p.key] == Some(value)
  }

  /** A placeholder gives the value its context holds, else its default, else its own text. */
  lemma ReplacedBy(context: Context, p: Placeholder)
    ensures forall value :: Holds(context, p, value) ==> Replacement(context, Print(p), p) == value
    ensures (forall value :: !Holds(context, p, value)) && p.default.Some? ==>
      Replacement(context, Print(p), p) == p.default.value
    ensures (forall value :: !Holds(context, p, value)) && p.default.None? ==>
      Replacement(context, Print(p), p) == "${" + p.namespace + "." + p.key + "}"
  {
    PrintedForms(p.namespace, p.key, "");
    var value := Lookup(context, p.namespace, p.key);
    assert value.Some? ==> Holds(context, p, value.value);
    assert p.default.None? ==> p == Placeholder(p.namespace, p.key, None);
    hide Print, Holds;
  }

  /** The placeholders are listed from left to right, as `namespace.key`, whatever their defaults. */
  lemma ListsLeftToRight(before: string, p: Placeholder, after: string)
    requires WellFormed(p) && NoneBefore(MatchVariable, before + (Print(p) + after), |before|)
    ensures ListVariables(before + (Print(p) + after)) == [p.namespace + "." + p.key] + ListVariables(after)
  {
    MatchVariableIsScanner();
    var content, end := before + (Print(p) + after), |before| + |Print(p)|;
    hide Print, WellFormed, MatchVariable, At, Local, Proper, NoneBefore, FindAll, Shift;
    ThreeParts(before, Print(p), after);
    PrintAt(content, |before|, p);
    MatchComplete(content, |before|, p);
    FindAllFirst(MatchVariable, content, |before|, end, p);
    ListedAfter(content, Match(|before|, end, p), after);
  }

  lemma ListedAfter(content: string, first: Match<Placeholder>, after: string)
    requires Placeholders(content) == [first] + Shift(Placeholders(after), first.end)
    ensures ListVariables(content) == [first.value.namespace + "." + first.value.key] + ListVariables(after)
  {
    hide Placeholders, Shift;
    var found := Placeholders(after);
    forall k | 0 <= k < |found|
      ensures Shift(found, first.end)[k].value == found[k].value
    {
      ShiftAt(found, first.end, k);
    }
  }

  lemma NothingListed(content: string)
    requires NoneBefore(MatchVariable, content, |content|)
    ensures ListVariables(content) == []
  {
    MatchVariableIsScanner();
    hide MatchVariable;
    FindAllSkip(MatchVariable, content, 0, |content|);
  }

  /** Contexts that agree on what `list_variables` names resolve the text alike. */
  lemma ResolveReadsListed(c1: Context, c2: Context, content: string)
    requires forall p: Placeholder :: Name(p) in ListVariables(content) ==>
      Lookup(c1, p.namespace, p.key) == Lookup(c2, p.namespace, p.key)
    ensures Resolve(c1, content) == Resolve(c2, content)
  {
    MatchVariableIsScanner();
    hide MatchVariable, Lookup, Name;
    var found := FindAll(MatchVariable, content, 0);
    forall one | one in found && one.start <= one.end <= |content|
      ensures Replacement(c1, content[one.start..one.end], one.value)
        == Replacement(c2, content[one.start..one.end], one.value)
    {
      var k :| 0 <= k < |found| && found[k] == one;
      assert ListVariables(content)[k] == Name(one.value);
    }
    SubstituteAgree(MatchVariable, (text: string, p: Placeholder) => Replacement(c1, text, p),
                    (text: string, p: Placeholder) => Replacement(c2, text, p), content, 0);
  }

  /** A context without any of the values leaves text without defaults as it is. */
  lemma UnknownLeftAsIs(context: Context, content: string)
    requires forall p: Placeholder :: Name(p) in ListVariables(content) ==> Lookup(context, p.namespace, p.key) == None
    requires forall found :: found in Placeholders(content) ==> found.value.default == None
    ensures Resolve(context, content) == content
  {
    MatchVariableIsScanner();
    hide MatchVariable, Lookup, Name;
    var found := FindAll(MatchVariable, content, 0);
    forall one | one in found && one.start <= one.end <= |content|
      ensures Replacement(context, content[one.start..one.end], one.value) == content[one.start..one.end]
    {
      var k :| 0 <= k < |found| && found[k] == one;
      assert ListVariables(content)[k] == Name(one.value);
    }
    SubstituteAgree(MatchVariable, (text: string, p: Placeholder) => Replacement(context, text, p),
                    (text: string, p: Placeholder) => text, content, 0);
    SubstituteOwn(MatchVariable, content, 0);
    assert content[0..] == content;
  }
}
