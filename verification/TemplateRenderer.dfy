/** Rendering templates: recursive include expansion with a visited set and a depth limit, then one
    pass of variable substitution (`TemplateRenderer`). */
module TemplateRenderer {
  import opened Wrappers
  import opened Sequences
  import opened Scanner
  import IncludePattern
  import VariableResolver

  const MAX_INCLUDE_DEPTH := 10

  /** The arguments of one fetch. */
  datatype Ref = Ref(name: string, version: Option<string>)

  /** The content function: `None` when it raises. */
  type Fetch = Ref -> Option<string>

  datatype RenderError = CircularInclude(key: string) | MaxDepth | LoadFailed(name: string)

  function VersionText(version: IncludePattern.Version): string {
    "v" + version.major + (if version.minor.Some? then "." + version.minor.value else "")
  }

  function RefOf(d: IncludePattern.Directive): Ref {
    Ref(d.name, if d.version.Some? then Some(VersionText(d.version.value)) else None)
  }

  function KeyOf(ref: Ref): string {
    if ref.version.Some? then ref.name + (":" + ref.version.value) else ref.name
  }

  type Includes = seq<Match<IncludePattern.Directive>>

  function IncludesOf(content: string): (includes: Includes)
    ensures Ordered(content, 0, includes)
  {
    IncludePattern.MatchIncludeProper();
    FindAllOrdered(IncludePattern.MatchInclude, content, 0);
    FindAll(IncludePattern.MatchInclude, content, 0)
  }

  /** What a text includes, in order. */
  function RefsOf(content: string): (refs: seq<Ref>)
    ensures |refs| == |IncludesOf(content)|
    ensures forall k :: 0 <= k < |refs| ==> refs[k] == RefOf(IncludesOf(content)[k].value)
  {
    var includes := IncludesOf(content);
    seq(|includes|, k requires 0 <= k < |includes| => RefOf(includes[k].value))
  }

  function Glue(content: string, texts: seq<string>): string
    requires |texts| == |RefsOf(content)|
  {
    Spliced(content, IncludesOf(content), texts)
  }

  // ---------------------------------------------------------------- the code's recursion

  function ResolveIncludes(get: Fetch, content: string, visited: set<string>, depth: nat):
    (r: Result<string, RenderError>)
    decreases MAX_INCLUDE_DEPTH + 1 - depth, 1, 0
  {
    if depth > MAX_INCLUDE_DEPTH then Err(MaxDepth)
    else
      var texts := ResolveAll(get, RefsOf(content), visited, depth);
      if texts.Err? then Err(texts.error) else Ok(Glue(content, texts.value))
  }

  /** The loop over the matches of one text. */
  function ResolveAll(get: Fetch, refs: seq<Ref>, visited: set<string>, depth: nat):
    (r: Result<seq<string>, RenderError>)
    requires depth <= MAX_INCLUDE_DEPTH
    ensures r.Ok? ==> |r.value| == |refs|
    decreases MAX_INCLUDE_DEPTH + 1 - depth, 0, |refs|
  {
    if refs == [] then Ok([])
    else
      var key := KeyOf(refs[0]);
      if key in visited then Err(CircularInclude(key))
      else if get(refs[0]).None? then Err(LoadFailed(refs[0].name))
      else
        var first := ResolveIncludes(get, get(refs[0]).value, visited + {key}, depth + 1);
        if first.Err? then Err(first.error)
        else
          var rest := ResolveAll(get, refs[1..], visited, depth);
          if rest.Err? then rest else Ok([first.value] + rest.value)
  }

  function Then(texts: seq<string>, r: Result<seq<string>, RenderError>): Result<seq<string>, RenderError> {
    if r.Err? then r else Ok(texts + r.value)
  }

  /** `_resolve_includes`: the pieces are collected by position in one loop over the matches. */
  method ResolveIncludesLoop(get: Fetch, content: string, visited: set<string>, depth: nat)
    returns (r: Result<string, RenderError>)
    ensures r == ResolveIncludes(get, content, visited, depth)
    decreases MAX_INCLUDE_DEPTH + 1 - depth
  {
    if depth > MAX_INCLUDE_DEPTH {
      return Err(MaxDepth);
    }
    hide Flatten, IncludesOf, KeyOf, SplicedUpTo;
    var matches := IncludesOf(content);
    ghost var refs := RefsOf(content);
    var parts: seq<string>, lastEnd := [], 0;
    ghost var texts: seq<string> := [];
    assert refs[0..] == refs;
    ThenNothing(ResolveAll(get, refs, visited, depth));
    NothingSpliced(content, matches);
    for k := 0 to |matches|
      invariant |texts| == k && lastEnd == EndBefore(matches, k)
      invariant ResolveAll(get, refs, visited, depth) == Then(texts, ResolveAll(get, refs[k..], visited, depth))
      invariant Flatten(parts) == SplicedUpTo(content, matches, texts, k)
    {
      var ref := RefOf(matches[k].value);
      var key := KeyOf(ref);
      assert refs[k..][0] == ref && refs[k..][1..] == refs[k + 1..];
      if key in visited {
        return Err(CircularInclude(key));
      }
      var included := get(ref);
      if included.None? {
        return Err(LoadFailed(ref.name));
      }
      var text := ResolveIncludesLoop(get, included.value, visited + {key}, depth + 1);
      if text.Err? {
        return text;
      }
      SplicedNext(content, matches, texts, k, text.value);
      FlattenSnoc(parts, content[lastEnd..matches[k].start]);
      FlattenSnoc(parts + [content[lastEnd..matches[k].start]], text.value);
      ThenNext(texts, text.value, ResolveAll(get, refs[k + 1..], visited, depth));
      parts := parts + [content[lastEnd..matches[k].start]];
      parts := parts + [text.value];
      texts := texts + [text.value];
      lastEnd := matches[k].end;
    }
    FlattenSnoc(parts, content[lastEnd..]);
    assert refs[|refs|..] == [] && texts + [] == texts;
    parts := parts + [content[lastEnd..]];
    return Ok(Flatten(parts));
  }

  lemma ThenNothing(r: Result<seq<string>, RenderError>)
    ensures Then([], r) == r
  {
    assert r.Ok? ==> [] + r.value == r.value;
  }

  lemma ThenNext(texts: seq<string>, text: string, rest: Result<seq<string>, RenderError>)
    ensures Then(texts, if rest.Err? then rest else Ok([text] + rest.value)) == Then(texts + [text], rest)
  {
    if rest.Ok? {
      assert texts + ([text] + rest.value) == texts + [text] + rest.value;
    }
  }

  lemma {:induction false} SplicedSame<T>(s: string, matches: seq<Match<T>>, left: seq<string>, right: seq<string>,
                                          k: nat)
    requires Ordered(s, 0, matches) && k <= |matches| && k <= |left| && k <= |right|
    requires forall j :: 0 <= j < k ==> left[j] == right[j]
    ensures SplicedUpTo(s, matches, left, k) == SplicedUpTo(s, matches, right, k)
  {
    if k > 0 {
      SplicedSame(s, matches, left, right, k - 1);
    }
  }

  lemma NothingSpliced<T>(s: string, matches: seq<Match<T>>)
    requires Ordered(s, 0, matches)
    ensures SplicedUpTo(s, matches, [], 0) == Flatten([])
  {
  }

  lemma SplicedNext<T>(s: string, matches: seq<Match<T>>, texts: seq<string>, k: nat, text: string)
    requires Ordered(s, 0, matches) && |texts| == k < |matches|
    ensures EndBefore(matches, k) <= matches[k].start <= |s|
    ensures SplicedUpTo(s, matches, texts + [text], k + 1)
         == SplicedUpTo(s, matches, texts, k) + s[EndBefore(matches, k)..matches[k].start] + text
  {
    SplicedSame(s, matches, texts, texts + [text], k);
  }

  // ---------------------------------------------------------------- the unbounded expansion

  /** Expansion with include chains of at most `n` steps, and no visited set. */
  function Expand(get: Fetch, content: string, n: nat): Option<string>
    decreases n, 1, 0
  {
    var texts := ExpandAll(get, RefsOf(content), n);
    if texts.None? then None else Some(Glue(content, texts.value))
  }

  function ExpandAll(get: Fetch, refs: seq<Ref>, n: nat): (texts: Option<seq<string>>)
    ensures texts.Some? ==> |texts.value| == |refs|
    decreases n, 0, |refs|
  {
    if refs == [] then Some([])
    else if n == 0 || get(refs[0]).None? then None
    else
      var first, rest := Expand(get, get(refs[0]).value, n - 1), ExpandAll(get, refs[1..], n);
      if first.None? || rest.None? then None else Some([first.value] + rest.value)
  }

  /** The plain recursive meaning of includes: some depth is enough. */
  ghost predicate ExpandsTo(get: Fetch, content: string, text: string) {
    exists n: nat :: Expand(get, content, n) == Some(text)
  }

  lemma {:induction false} ExpandMore(get: Fetch, content: string, n: nat, more: nat)
    requires n <= more && Expand(get, content, n).Some?
    ensures Expand(get, content, more) == Expand(get, content, n)
    decreases n, 1, 0
  {
    ExpandAllMore(get, RefsOf(content), n, more);
  }

  lemma {:induction false} ExpandAllMore(get: Fetch, refs: seq<Ref>, n: nat, more: nat)
    requires n <= more && ExpandAll(get, refs, n).Some?
    ensures ExpandAll(get, refs, more) == ExpandAll(get, refs, n)
    decreases n, 0, |refs|
  {
    hide RefsOf, Glue;
    if refs != [] {
      ExpandMore(get, get(refs[0]).value, n - 1, more - 1);
      ExpandAllMore(get, refs[1..], n, more);
    }
  }

  /** A text has at most one expansion. */
  lemma ExpansionUnique(get: Fetch, content: string, left: string, right: string)
    requires ExpandsTo(get, content, left) && ExpandsTo(get, content, right)
    ensures left == right
  {
    hide Expand;
    var m: nat :| Expand(get, content, m) == Some(left);
    var n: nat :| Expand(get, content, n) == Some(right);
    ExpandMore(get, content, m, m + n);
    ExpandMore(get, content, n, m + n);
  }

  /** What is included by an expandable text expands with one step less. */
  lemma {:induction false} ExpandIncluded(get: Fetch, refs: seq<Ref>, n: nat, ref: Ref)
    requires ExpandAll(get, refs, n).Some? && ref in refs
    ensures n > 0 && get(ref).Some? && Expand(get, get(ref).value, n - 1).Some?
    decreases |refs|
  {
    hide RefsOf, Glue;
    if ref != refs[0] {
      ExpandIncluded(get, refs[1..], n, ref);
    }
  }

  lemma IncludedExpands(get: Fetch, content: string, n: nat, ref: Ref)
    requires Expand(get, content, n).Some? && ref in RefsOf(content)
    ensures n > 0 && get(ref).Some? && Expand(get, get(ref).value, n - 1).Some?
  {
    hide RefsOf, Glue;
    ExpandIncluded(get, RefsOf(content), n, ref);
  }

  // ---------------------------------------------------------------- what an expansion is

  /** The reference a directive fetches: its name, and its version written with a leading `v`. */
  lemma ReferenceOf(name: string, v: bool, major: string, minor: string)
    ensures RefOf(IncludePattern.Directive(name, None)) == Ref(name, None)
    ensures RefOf(IncludePattern.Directive(name, Some(IncludePattern.Version(v, major, None))))
         == Ref(name, Some("v" + major))
    ensures RefOf(IncludePattern.Directive(name, Some(IncludePattern.Version(v, major, Some(minor)))))
         == Ref(name, Some("v" + major + "." + minor))
    ensures KeyOf(Ref(name, None)) == name && KeyOf(Ref(name, Some(major))) == name + ":" + major
  {
    assert name + (":" + major) == name + ":" + major;
    assert "v" + major + "" == "v" + major;
    assert "v" + major + ("." + minor) == "v" + major + "." + minor;
  }

  ghost predicate NoInclude(content: string, i: nat) {
    NoneBefore(IncludePattern.MatchInclude, content, i)
  }

  /** Every text is either free of include directives or splits at the first of them. */
  lemma FirstInclude(content: string) returns (before: string, d: IncludePattern.Directive, after: string)
    ensures !NoInclude(content, |content|) ==>
      && content == before + (IncludePattern.Print(d) + after)
      && IncludePattern.WellFormed(d) && NoInclude(content, |before|)
  {
    hide IncludePattern.Print, IncludePattern.WellFormed, IncludePattern.MatchInclude;
    before, d, after := "", IncludePattern.Directive("", None), "";
    var i := 0;
    while i < |content| && IncludePattern.MatchInclude(content, i) == None
      invariant i <= |content| && forall k :: 0 <= k < i ==> IncludePattern.MatchInclude(content, k) == None
    {
      i := i + 1;
    }
    if i < |content| {
      var (end, found) := IncludePattern.MatchInclude(content, i).value;
      IncludePattern.MatchSound(content, i);
      before, d, after := content[..i], found, content[end..];
      assert content == content[..i] + (content[i..end] + content[end..]);
    }
  }

  lemma NothingIncluded(content: string)
    requires NoInclude(content, |content|)
    ensures RefsOf(content) == [] && Glue(content, []) == content
  {
    IncludePattern.MatchIncludeProper();
    hide IncludePattern.MatchInclude;
    FindAllSkip(IncludePattern.MatchInclude, content, 0, |content|);
    assert IncludesOf(content) == [];
    assert "" + content[0..] == content;
  }

  lemma FirstOfIncludes(before: string, d: IncludePattern.Directive, after: string)
    requires IncludePattern.WellFormed(d)
    requires NoInclude(before + (IncludePattern.Print(d) + after), |before|)
    ensures var content, end := before + (IncludePattern.Print(d) + after), |before| + |IncludePattern.Print(d)|;
      && |before| < end <= |content| && content[..|before|] == before && content[end..] == after
      && IncludesOf(content) == [Match(|before|, end, d)] + Shift(IncludesOf(after), end)
  {
    IncludePattern.MatchIncludeIsScanner();
    var content, end := before + (IncludePattern.Print(d) + after), |before| + |IncludePattern.Print(d)|;
    hide IncludePattern.Print, IncludePattern.WellFormed, IncludePattern.MatchInclude, At, Local, Proper, NoneBefore,
      FindAll, Shift;
    ThreeParts(before, IncludePattern.Print(d), after);
    IncludePattern.PrintAt(content, |before|, d);
    IncludePattern.MatchComplete(content, |before|, d);
    FindAllFirst(IncludePattern.MatchInclude, content, |before|, end, d);
  }

  lemma RefsOfFirst(content: string, rest: string, first: Match<IncludePattern.Directive>)
    requires IncludesOf(content) == [first] + Shift(IncludesOf(rest), first.end)
    ensures RefsOf(content) == [RefOf(first.value)] + RefsOf(rest)
  {
    hide IncludesOf, RefOf, Shift;
    var shifted := Shift(IncludesOf(rest), first.end);
    forall k | 0 <= k < |IncludesOf(rest)|
      ensures shifted[k].value == IncludesOf(rest)[k].value
    {
      ShiftAt(IncludesOf(rest), first.end, k);
    }
  }

  lemma GlueFirst(before: string, d: IncludePattern.Directive, after: string, text: string, texts: seq<string>)
    requires IncludePattern.WellFormed(d)
    requires NoInclude(before + (IncludePattern.Print(d) + after), |before|) && |texts| == |RefsOf(after)|
    ensures var content := before + (IncludePattern.Print(d) + after);
      && RefsOf(content) == [RefOf(d)] + RefsOf(after)
      && Glue(content, [text] + texts) == before + (text + Glue(after, texts))
  {
    hide IncludePattern.Print, IncludePattern.WellFormed, NoInclude, Shift, IncludesOf, RefOf, Spliced, Ordered;
    var content, end := before + (IncludePattern.Print(d) + after), |before| + |IncludePattern.Print(d)|;
    FirstOfIncludes(before, d, after);
    RefsOfFirst(content, after, Match(|before|, end, d));
    SplicedFirst(content, Match(|before|, end, d), IncludesOf(after), text, texts);
  }

  /** A text without includes expands to itself, and to nothing else. */
  lemma PlainExpands(get: Fetch, content: string, text: string)
    requires NoInclude(content, |content|)
    ensures ExpandsTo(get, content, text) <==> text == content
  {
    NothingIncluded(content);
    hide NoInclude, RefsOf, Glue;
    assert Expand(get, content, 0) == Some(content);
    if n: nat :| Expand(get, content, n) == Some(text) {
      assert ExpandAll(get, [], n) == Some([]);
    }
  }

  /** Expansion with a bounded chain length, at the first include of a text. */
  lemma ExpandAtFirst(get: Fetch, before: string, d: IncludePattern.Directive, after: string, n: nat)
    requires IncludePattern.WellFormed(d)
    requires NoInclude(before + (IncludePattern.Print(d) + after), |before|)
    ensures Expand(get, before + (IncludePattern.Print(d) + after), n)
      == if n == 0 || get(RefOf(d)).None?
            || Expand(get, get(RefOf(d)).value, n - 1).None? || Expand(get, after, n).None?
         then None
         else Some(before + (Expand(get, get(RefOf(d)).value, n - 1).value + Expand(get, after, n).value))
  {
    var content := before + (IncludePattern.Print(d) + after);
    var none := seq(|RefsOf(after)|, i => "");
    GlueFirst(before, d, after, "", none);
    hide IncludePattern.Print, IncludePattern.WellFormed, NoInclude, RefOf, RefsOf, Glue;
    assert RefsOf(content)[0] == RefOf(d) && RefsOf(content)[1..] == RefsOf(after);
    if n > 0 && get(RefOf(d)).Some? {
      var first, rest := Expand(get, get(RefOf(d)).value, n - 1), ExpandAll(get, RefsOf(after), n);
      if first.Some? && rest.Some? {
        GlueFirst(before, d, after, first.value, rest.value);
      }
    }
  }

  /** Up to its first include a text is copied, the include gives the expansion of what it fetches, and the
      rest expands on its own. */
  lemma ExpandsLeftToRight(get: Fetch, before: string, d: IncludePattern.Directive, after: string, text: string)
    requires IncludePattern.WellFormed(d)
    requires NoInclude(before + (IncludePattern.Print(d) + after), |before|)
    ensures ExpandsTo(get, before + (IncludePattern.Print(d) + after), text)
      <==> get(RefOf(d)).Some? && JoinsTo(get, before, get(RefOf(d)).value, after, text)
  {
    hide IncludePattern.Print, IncludePattern.WellFormed, NoInclude, RefOf, Expand;
    var content := before + (IncludePattern.Print(d) + after);
    if ExpandsTo(get, content, text) {
      var n: nat :| Expand(get, content, n) == Some(text);
      ExpandAtFirst(get, before, d, after, n);
      var included, rest := Expand(get, get(RefOf(d)).value, n - 1).value, Expand(get, after, n).value;
      assert Joined(get, before, get(RefOf(d)).value, after, text, included, rest);
    }
    if get(RefOf(d)).Some? && JoinsTo(get, before, get(RefOf(d)).value, after, text) {
      var fetched := get(RefOf(d)).value;
      var included, rest :| Joined(get, before, fetched, after, text, included, rest);
      var m: nat :| Expand(get, fetched, m) == Some(included);
      var n: nat :| Expand(get, after, n) == Some(rest);
      ExpandMore(get, fetched, m, m + n);
      ExpandMore(get, after, n, m + n + 1);
      ExpandAtFirst(get, before, d, after, m + n + 1);
    }
  }

  /** `text` is `before`, an expansion of what was fetched, and an expansion of `after`. */
  ghost predicate JoinsTo(get: Fetch, before: string, fetched: string, after: string, text: string) {
    exists included, rest :: Joined(get, before, fetched, after, text, included, rest)
  }

  ghost predicate Joined(get: Fetch, before: string, fetched: string, after: string, text: string, included: string,
                         rest: string)
  {
    ExpandsTo(get, fetched, included) && ExpandsTo(get, after, rest) && text == before + (included + rest)
  }

  // ---------------------------------------------------------------- ranks, and why the visited set is redundant

  /** The least number of steps with which an expandable text expands. */
  ghost function Rank(get: Fetch, content: string, n: nat): (rank: nat)
    requires Expand(get, content, n).Some?
    ensures rank <= n && Expand(get, content, rank).Some?
    ensures rank > 0 ==> Expand(get, content, rank - 1).None?
  {
    if n > 0 && Expand(get, content, n - 1).Some? then Rank(get, content, n - 1) else n
  }

  /** Whatever was included on the way to `content` needs at least as many steps as it does. */
  ghost predicate Above(get: Fetch, visited: set<string>, rank: nat) {
    forall ref :: KeyOf(ref) in visited && NameOk(ref) ==>
      get(ref).Some? && (rank > 0 ==> Expand(get, get(ref).value, rank - 1).None?)
  }

  predicate NotColon(c: char) {
    c != ':'
  }

  /** Names the include pattern can produce hold no colon, so keys tell references apart. */
  predicate NameOk(ref: Ref) {
    All(ref.name, NotColon)
  }

  lemma KeyShape(ref: Ref)
    requires NameOk(ref)
    ensures RunEnd(KeyOf(ref), 0, NotColon) == |ref.name| <= |KeyOf(ref)| && KeyOf(ref)[..|ref.name|] == ref.name
    ensures ref.version.Some? <==> |KeyOf(ref)| > |ref.name|
    ensures ref.version.Some? ==> KeyOf(ref)[|ref.name| + 1..] == ref.version.value
  {
    assert forall i :: 0 <= i < |ref.name| ==> KeyOf(ref)[i] == ref.name[i];
    RunEndIs(KeyOf(ref), 0, NotColon, |ref.name|);
  }

  lemma KeyInjective(left: Ref, right: Ref)
    requires NameOk(left) && NameOk(right) && KeyOf(left) == KeyOf(right)
    ensures left == right
  {
    KeyShape(left);
    KeyShape(right);
  }

  lemma RefsNameOk(content: string)
    ensures forall ref :: ref in RefsOf(content) ==> NameOk(ref)
  {
    IncludePattern.MatchIncludeProper();
    forall ref | ref in RefsOf(content)
      ensures NameOk(ref)
    {
      var k :| 0 <= k < |RefsOf(content)| && RefsOf(content)[k] == ref;
      var found := IncludesOf(content)[k];
      FoundMatches(IncludePattern.MatchInclude, content, 0, found);
      IncludePattern.MatchSound(content, found.start);
      assert All(ref.name, IncludePattern.IsNameChar);
    }
  }

  /** Dropping the visited set never loses a result. */
  lemma {:induction false} ResolvedExpands(get: Fetch, content: string, visited: set<string>, depth: nat)
    requires depth <= MAX_INCLUDE_DEPTH && ResolveIncludes(get, content, visited, depth).Ok?
    ensures Expand(get, content, MAX_INCLUDE_DEPTH - depth) == Some(ResolveIncludes(get, content, visited, depth).value)
    decreases MAX_INCLUDE_DEPTH - depth, 1, 0
  {
    ResolvedAllExpand(get, RefsOf(content), visited, depth);
  }

  lemma {:induction false} ResolvedAllExpand(get: Fetch, refs: seq<Ref>, visited: set<string>, depth: nat)
    requires depth <= MAX_INCLUDE_DEPTH && ResolveAll(get, refs, visited, depth).Ok?
    ensures ExpandAll(get, refs, MAX_INCLUDE_DEPTH - depth) == Some(ResolveAll(get, refs, visited, depth).value)
    decreases MAX_INCLUDE_DEPTH - depth, 0, |refs|
  {
    hide RefsOf, Glue;
    if refs != [] {
      var visited' := visited + {KeyOf(refs[0])};
      if depth < MAX_INCLUDE_DEPTH {
        ResolvedExpands(get, get(refs[0]).value, visited', depth + 1);
      }
      ResolvedAllExpand(get, refs[1..], visited, depth);
    }
  }

  /** Nor does the visited set ever reject what the depth limit accepts: a reference met again would
      have to expand in fewer steps than itself. */
  lemma {:induction false} ExpandedResolves(get: Fetch, content: string, visited: set<string>, depth: nat)
    requires depth <= MAX_INCLUDE_DEPTH && Expand(get, content, MAX_INCLUDE_DEPTH - depth).Some?
    requires Above(get, visited, Rank(get, content, MAX_INCLUDE_DEPTH - depth))
    ensures ResolveIncludes(get, content, visited, depth) == Ok(Expand(get, content, MAX_INCLUDE_DEPTH - depth).value)
    decreases MAX_INCLUDE_DEPTH - depth, 1, 0
  {
    hide RefsOf, Glue;
    var rank := Rank(get, content, MAX_INCLUDE_DEPTH - depth);
    RefsNameOk(content);
    ExpandMore(get, content, rank, MAX_INCLUDE_DEPTH - depth);
    ExpandedAllResolve(get, RefsOf(content), visited, depth, rank);
  }

  lemma {:induction false} ExpandedAllResolve(get: Fetch, refs: seq<Ref>, visited: set<string>, depth: nat, rank: nat)
    requires depth <= MAX_INCLUDE_DEPTH && rank <= MAX_INCLUDE_DEPTH - depth
    requires ExpandAll(get, refs, rank).Some? && (forall ref :: ref in refs ==> NameOk(ref))
    requires Above(get, visited, rank)
    ensures ExpandAll(get, refs, MAX_INCLUDE_DEPTH - depth).Some?
    ensures ResolveAll(get, refs, visited, depth) == Ok(ExpandAll(get, refs, MAX_INCLUDE_DEPTH - depth).value)
    decreases MAX_INCLUDE_DEPTH - depth, 0, |refs|
  {
    hide RefsOf, Glue, Expand, ResolveIncludes;
    ExpandAllMore(get, refs, rank, MAX_INCLUDE_DEPTH - depth);
    if refs != [] {
      var ref, key := refs[0], KeyOf(refs[0]);
      var included := get(ref).value;
      assert key !in visited;
      ExpandMore(get, included, rank - 1, MAX_INCLUDE_DEPTH - (depth + 1));
      AboveIncluded(get, visited, rank, ref, MAX_INCLUDE_DEPTH - (depth + 1));
      ExpandedResolves(get, included, visited + {key}, depth + 1);
      ExpandedAllResolve(get, refs[1..], visited, depth, rank);
    }
  }

  /** Going down one include keeps everything visited above. */
  lemma AboveIncluded(get: Fetch, visited: set<string>, rank: nat, ref: Ref, n: nat)
    requires Above(get, visited, rank) && NameOk(ref) && rank > 0 && n >= rank - 1
    requires get(ref).Some? && Expand(get, get(ref).value, rank - 1).Some? && Expand(get, get(ref).value, n).Some?
    ensures Above(get, visited + {KeyOf(ref)}, Rank(get, get(ref).value, n))
  {
    hide Expand, KeyOf, NameOk;
    var included := get(ref).value;
    var rank' := Rank(get, included, n);
    RankLeast(get, included, n, rank - 1);
    forall other | KeyOf(other) in visited + {KeyOf(ref)} && NameOk(other)
      ensures get(other).Some? && (rank' > 0 ==> Expand(get, get(other).value, rank' - 1).None?)
    {
      if KeyOf(other) == KeyOf(ref) {
        KeyInjective(other, ref);
      } else if rank' > 0 && Expand(get, get(other).value, rank' - 1).Some? {
        ExpandMore(get, get(other).value, rank' - 1, rank - 1);
        assert false;
      }
    }
  }

  lemma {:induction false} RankLeast(get: Fetch, content: string, n: nat, m: nat)
    requires Expand(get, content, n).Some? && Expand(get, content, m).Some?
    ensures Rank(get, content, n) <= m
  {
    var rank := Rank(get, content, n);
    if m < rank {
      ExpandMore(get, content, m, rank - 1);
    }
  }

  // ---------------------------------------------------------------- include chains

  /** A chain of includes from `content`: each reference is included by what the one before fetched, and loads. */
  ghost predicate Chain(get: Fetch, content: string, path: seq<Ref>)
    decreases |path|
  {
    path == [] || (path[0] in RefsOf(content) && get(path[0]).Some? && Chain(get, get(path[0]).value, path[1..]))
  }

  /** The text at the end of a chain. */
  ghost function End(get: Fetch, content: string, path: seq<Ref>): string
    requires Chain(get, content, path)
    decreases |path|
  {
    if path == [] then content else End(get, get(path[0]).value, path[1..])
  }

  /** Every include that can be reached loads. */
  ghost predicate AllLoad(get: Fetch, content: string) {
    forall path: seq<Ref> :: Chain(get, content, path) ==>
      forall ref :: ref in RefsOf(End(get, content, path)) ==> get(ref).Some?
  }

  ghost predicate ChainsWithin(get: Fetch, content: string, n: nat) {
    forall path: seq<Ref> :: Chain(get, content, path) ==> |path| <= n
  }

  lemma {:induction false} ChainExpands(get: Fetch, content: string, n: nat, path: seq<Ref>)
    requires Expand(get, content, n).Some? && Chain(get, content, path)
    ensures |path| <= n && Expand(get, End(get, content, path), n - |path|).Some?
    ensures forall ref :: ref in RefsOf(End(get, content, path)) ==> get(ref).Some?
    decreases |path|
  {
    hide RefsOf, Glue, Expand;
    if path == [] {
      forall ref | ref in RefsOf(content)
        ensures get(ref).Some?
      {
        IncludedExpands(get, content, n, ref);
      }
    } else {
      IncludedExpands(get, content, n, path[0]);
      ChainExpands(get, get(path[0]).value, n - 1, path[1..]);
    }
  }

  /** When a text does not expand in `n` steps, some chain is to blame: it is too long, or ends at
      an include that does not load. */
  lemma {:induction false} Blame(get: Fetch, content: string, n: nat) returns (path: seq<Ref>, ref: Ref)
    requires Expand(get, content, n).None?
    ensures Chain(get, content, path)
    ensures |path| > n || (ref in RefsOf(End(get, content, path)) && get(ref).None?)
    decreases n, 1, 0
  {
    path, ref := BlameAll(get, content, RefsOf(content), n);
  }

  lemma {:induction false} BlameAll(get: Fetch, content: string, refs: seq<Ref>, n: nat)
    returns (path: seq<Ref>, ref: Ref)
    requires ExpandAll(get, refs, n).None? && forall r :: r in refs ==> r in RefsOf(content)
    ensures Chain(get, content, path)
    ensures |path| > n || (ref in RefsOf(End(get, content, path)) && get(ref).None?)
    decreases n, 0, |refs|
  {
    hide RefsOf, Glue;
    var first := refs[0];
    assert first in RefsOf(content);
    if get(first).None? {
      return [], first;
    }
    if n == 0 {
      path, ref := [first], first;
      assert Chain(get, get(first).value, path[1..]);
    } else if Expand(get, get(first).value, n - 1).None? {
      var rest, bad := Blame(get, get(first).value, n - 1);
      path, ref := [first] + rest, bad;
      assert path[1..] == rest;
    } else {
      path, ref := BlameAll(get, content, refs[1..], n);
    }
  }

  /** A text expands in `n` steps exactly when every reachable include loads and no chain is longer. */
  lemma ExpandIffChains(get: Fetch, content: string, n: nat)
    ensures Expand(get, content, n).Some? <==> AllLoad(get, content) && ChainsWithin(get, content, n)
  {
    if Expand(get, content, n).Some? {
      forall path: seq<Ref> | Chain(get, content, path)
        ensures |path| <= n && forall ref :: ref in RefsOf(End(get, content, path)) ==> get(ref).Some?
      {
        ChainExpands(get, content, n, path);
      }
    } else {
      var path, ref := Blame(get, content, n);
      if |path| <= n {
        assert ref in RefsOf(End(get, content, path));
      }
    }
  }

  // ---------------------------------------------------------------- the main results

  /** Include resolution succeeds exactly when every reachable include loads and no include chain has
      more than ten steps; its result is then the unbounded recursive expansion of the text. */
  lemma ResolveSucceedsIff(get: Fetch, content: string)
    ensures ResolveIncludes(get, content, {}, 0).Ok?
      <==> AllLoad(get, content) && ChainsWithin(get, content, 10)
    ensures ResolveIncludes(get, content, {}, 0).Ok? ==>
      ExpandsTo(get, content, ResolveIncludes(get, content, {}, 0).value)
  {
    hide Expand, ResolveIncludes, AllLoad, ChainsWithin;
    ExpandIffChains(get, content, MAX_INCLUDE_DEPTH);
    if ResolveIncludes(get, content, {}, 0).Ok? {
      ResolvedExpands(get, content, {}, 0);
    }
    if Expand(get, content, MAX_INCLUDE_DEPTH).Some? {
      ExpandedResolves(get, content, {}, 0);
    }
  }

  /** When it succeeds, no chain meets the same reference twice, so the reachable includes form no cycle. */
  lemma SuccessMeansAcyclic(get: Fetch, content: string, path: seq<Ref>, i: nat, j: nat)
    requires ResolveIncludes(get, content, {}, 0).Ok?
    requires Chain(get, content, path) && i < j < |path|
    ensures path[i] != path[j]
  {
    ResolvedExpands(get, content, {}, 0);
    RanksFall(get, content, MAX_INCLUDE_DEPTH, path, i, j);
  }

  /** Along a chain every text needs fewer steps than the ones before it. */
  lemma {:induction false} RanksFall(get: Fetch, content: string, n: nat, path: seq<Ref>, i: nat, j: nat)
    requires Expand(get, content, n).Some? && Chain(get, content, path) && i < j < |path|
    ensures path[i] != path[j]
    decreases i
  {
    hide RefsOf, Glue, Expand;
    IncludedExpands(get, content, n, path[0]);
    var included := get(path[0]).value;
    if i > 0 {
      RanksFall(get, included, n - 1, path[1..], i - 1, j - 1);
    } else {
      var rank := Rank(get, included, n - 1);
      ChainTo(get, included, path[1..], j - 1);
      assert path[1..][..j] == path[1..j + 1];
      ChainExpands(get, included, rank, path[1..j + 1]);
      ChainEnd(get, included, path[1..j + 1]);
      if path[0] == path[j] {
        RankLeast(get, included, n - 1, rank - j);
      }
    }
  }

  lemma {:induction false} ChainTo(get: Fetch, content: string, path: seq<Ref>, k: nat)
    requires Chain(get, content, path) && k < |path|
    ensures Chain(get, content, path[..k + 1])
    decreases k
  {
    hide RefsOf;
    assert path[..k + 1][1..] == path[1..][..k];
    if k > 0 {
      ChainTo(get, get(path[0]).value, path[1..], k - 1);
    } else {
      assert path[1..][..0] == [];
    }
  }

  lemma {:induction false} ChainEnd(get: Fetch, content: string, path: seq<Ref>)
    requires Chain(get, content, path) && path != []
    ensures get(path[|path| - 1]) == Some(End(get, content, path))
    decreases |path|
  {
    hide RefsOf;
    if |path| > 1 {
      ChainEnd(get, get(path[0]).value, path[1..]);
    }
  }

  ghost predicate KeyMet(visited: set<string>, path: seq<Ref>, key: string) {
    key in visited || exists i :: 0 <= i < |path| && KeyOf(path[i]) == key
  }

  /** A circular-include error names a reference that some chain really meets again. */
  lemma {:induction false} CircularBlame(get: Fetch, content: string, visited: set<string>, depth: nat, key: string)
    returns (path: seq<Ref>, ref: Ref)
    requires ResolveIncludes(get, content, visited, depth) == Err(CircularInclude(key))
    ensures Chain(get, content, path) && ref in RefsOf(End(get, content, path)) && KeyOf(ref) == key
    ensures KeyMet(visited, path, key)
    decreases MAX_INCLUDE_DEPTH + 1 - depth, 1, 0
  {
    hide RefsOf, Glue, KeyOf, KeyMet;
    path, ref := CircularBlameAll(get, content, RefsOf(content), visited, depth, key);
  }

  lemma {:induction false} CircularBlameAll(get: Fetch, content: string, refs: seq<Ref>, visited: set<string>,
                                            depth: nat, key: string)
    returns (path: seq<Ref>, ref: Ref)
    requires depth <= MAX_INCLUDE_DEPTH && ResolveAll(get, refs, visited, depth) == Err(CircularInclude(key))
    requires forall r :: r in refs ==> r in RefsOf(content)
    ensures Chain(get, content, path) && ref in RefsOf(End(get, content, path)) && KeyOf(ref) == key
    ensures KeyMet(visited, path, key)
    decreases MAX_INCLUDE_DEPTH + 1 - depth, 0, |refs|
  {
    hide RefsOf, Glue, KeyOf;
    var first := refs[0];
    assert first in RefsOf(content);
    if KeyOf(first) in visited {
      return [], first;
    }
    var inner := ResolveIncludes(get, get(first).value, visited + {KeyOf(first)}, depth + 1);
    hide ResolveIncludes;
    if inner == Err(CircularInclude(key)) {
      var rest, bad := CircularBlame(get, get(first).value, visited + {KeyOf(first)}, depth + 1, key);
      path, ref := [first] + rest, bad;
      assert path[1..] == rest;
      if key in visited + {KeyOf(first)} {
        assert KeyOf(path[0]) == KeyOf(first);
      } else {
        var i :| 0 <= i < |rest| && KeyOf(rest[i]) == key;
        assert path[i + 1] == rest[i];
      }
    } else {
      path, ref := CircularBlameAll(get, content, refs[1..], visited, depth, key);
    }
  }

  /** The other errors are to the point as well: some chain has too many steps, or ends at an include of the name
      reported, which does not load. */
  lemma {:induction false} ErrorBlame(get: Fetch, content: string, visited: set<string>, depth: nat)
    returns (path: seq<Ref>, ref: Ref)
    requires depth <= MAX_INCLUDE_DEPTH && ResolveIncludes(get, content, visited, depth).Err?
    ensures Chain(get, content, path)
    ensures var error := ResolveIncludes(get, content, visited, depth).error;
      && (error.MaxDepth? ==> |path| == 11 - depth)
      && (error.LoadFailed? ==>
            ref in RefsOf(End(get, content, path)) && get(ref).None? && error.name == ref.name)
    decreases MAX_INCLUDE_DEPTH + 1 - depth, 1, 0
  {
    hide RefsOf, Glue, KeyOf;
    path, ref := ErrorBlameAll(get, content, RefsOf(content), visited, depth);
  }

  lemma {:induction false} ErrorBlameAll(get: Fetch, content: string, refs: seq<Ref>, visited: set<string>, depth: nat)
    returns (path: seq<Ref>, ref: Ref)
    requires depth <= MAX_INCLUDE_DEPTH && ResolveAll(get, refs, visited, depth).Err?
    requires forall r :: r in refs ==> r in RefsOf(content)
    ensures Chain(get, content, path)
    ensures var error := ResolveAll(get, refs, visited, depth).error;
      && (error.MaxDepth? ==> |path| == 11 - depth)
      && (error.LoadFailed? ==>
            ref in RefsOf(End(get, content, path)) && get(ref).None? && error.name == ref.name)
    decreases MAX_INCLUDE_DEPTH + 1 - depth, 0, |refs|
  {
    hide RefsOf, Glue, KeyOf;
    var first := refs[0];
    assert first in RefsOf(content);
    if KeyOf(first) in visited || get(first).None? {
      return [], first;
    }
    var inner := ResolveIncludes(get, get(first).value, visited + {KeyOf(first)}, depth + 1);
    if inner.Ok? {
      path, ref := ErrorBlameAll(get, content, refs[1..], visited, depth);
    } else if depth == MAX_INCLUDE_DEPTH {
      path, ref := [first], first;
      assert Chain(get, get(first).value, path[1..]);
    } else {
      hide ResolveIncludes;
      var rest, bad := ErrorBlame(get, get(first).value, visited + {KeyOf(first)}, depth + 1);
      path, ref := [first] + rest, bad;
      assert path[1..] == rest;
    }
  }

  /** `render`: fetch unless the content is given, expand the includes, then substitute the variables. */
  method Render(get: Fetch, ref: Ref, context: VariableResolver.Context, content: Option<string>)
    returns (r: Result<string, RenderError>)
    ensures content.None? && get(ref).None? ==> r == Err(LoadFailed(ref.name))
    ensures content.Some? || get(ref).Some? ==>
      var text := if content.Some? then content.value else get(ref).value;
      && (r.Ok? <==> AllLoad(get, text) && ChainsWithin(get, text, 10))
      && (r.Err? ==> ResolveIncludes(get, text, {}, 0) == Err(r.error))
      && (r.Ok? ==>
        exists expanded :: ExpandsTo(get, text, expanded) && r.value == VariableResolver.Resolve(context, expanded))
  {
    var text := content;
    if text.None? {
      text := get(ref);
      if text.None? {
        return Err(LoadFailed(ref.name));
      }
    }
    var expanded := ResolveIncludesLoop(get, text.value, {}, 0);
    ResolveSucceedsIff(get, text.value);
    if expanded.Err? {
      return expanded;
    }
    return Ok(VariableResolver.Resolve(context, expanded.value));
  }
}
