/** Leftmost, non-overlapping scanning of a text, as Python's `finditer`, `findall` and `sub` do it. */
module Scanner {
  import opened Wrappers

  /** Where a match ends and what its groups are, for a match that starts exactly at a position. */
  type Matcher<T> = (string, nat) -> Option<(nat, T)>

  /** Matches are never empty and stay inside the text. */
  ghost predicate Proper<T>(m: Matcher<T>) {
    forall s, i: nat :: m(s, i).Some? ==> i < m(s, i).value.0 <= |s|
  }

  datatype Match<T> = Match(start: nat, end: nat, value: T)

  function FindAll<T>(m: Matcher<T>, s: string, i: nat): (matches: seq<Match<T>>)
    requires Proper(m) && i <= |s|
    decreases |s| - i
  {
    if i == |s| then []
    else
      var found := m(s, i);
      if found.Some? then [Match(i, found.value.0, found.value.1)] + FindAll(m, s, found.value.0)
      else FindAll(m, s, i + 1)
  }

  /** The declarative meaning of a scan from `i`: each match is the first one at or after the end of the last. */
  ghost predicate IsScan<T>(m: Matcher<T>, s: string, i: nat, matches: seq<Match<T>>)
    requires i <= |s|
    decreases |matches|
  {
    if matches == [] then
      forall p :: i <= p < |s| ==> m(s, p) == None
    else
      var first := matches[0];
      && i <= first.start < first.end <= |s|
      && (forall p :: i <= p < first.start ==> m(s, p) == None)
      && m(s, first.start) == Some((first.end, first.value))
      && IsScan(m, s, first.end, matches[1..])
  }

  lemma {:induction false} FindAllIsScan<T>(m: Matcher<T>, s: string, i: nat)
    requires Proper(m) && i <= |s|
    ensures IsScan(m, s, i, FindAll(m, s, i))
    decreases |s| - i
  {
    if i < |s| {
      var found := m(s, i);
      if found.Some? {
        FindAllIsScan(m, s, found.value.0);
      } else {
        FindAllIsScan(m, s, i + 1);
      }
    }
  }

  /** What is found at a place is what the matcher finds there. */
  lemma {:induction false} FoundMatches<T>(m: Matcher<T>, s: string, i: nat, found: Match<T>)
    requires Proper(m) && i <= |s| && found in FindAll(m, s, i)
    ensures i <= found.start < found.end <= |s| && m(s, found.start) == Some((found.end, found.value))
    decreases |s| - i
  {
    if i < |s| {
      var here := m(s, i);
      if here.Some? {
        if found != Match(i, here.value.0, here.value.1) {
          FoundMatches(m, s, here.value.0, found);
        }
      } else {
        FoundMatches(m, s, i + 1, found);
      }
    }
  }

  /** There is only one scan of a text. */
  lemma {:induction false} ScanIsFindAll<T>(m: Matcher<T>, s: string, i: nat, matches: seq<Match<T>>)
    requires Proper(m) && i <= |s| && IsScan(m, s, i, matches)
    ensures matches == FindAll(m, s, i)
    decreases |s| - i
  {
    if i < |s| {
      if m(s, i).Some? {
        ScanIsFindAll(m, s, m(s, i).value.0, matches[1..]);
      } else {
        ScanIsFindAll(m, s, i + 1, matches);
      }
    }
  }

  /** The matches lie one after the other from `i` on. */
  predicate Ordered<T>(s: string, i: nat, matches: seq<Match<T>>) {
    && (forall k :: 0 <= k < |matches| ==> i <= matches[k].start <= matches[k].end <= |s|)
    && (forall j, k :: 0 <= j < k < |matches| ==> matches[j].end <= matches[k].start)
  }

  lemma {:induction false} FindAllOrdered<T>(m: Matcher<T>, s: string, i: nat)
    requires Proper(m) && i <= |s|
    ensures Ordered(s, i, FindAll(m, s, i))
    decreases |s| - i
  {
    hide Ordered;
    if i < |s| {
      var found := m(s, i);
      if found.Some? {
        FindAllOrdered(m, s, found.value.0);
        OrderedFirst(s, i, Match(i, found.value.0, found.value.1), FindAll(m, s, found.value.0));
      } else {
        FindAllOrdered(m, s, i + 1);
        OrderedEarlier(s, i, i + 1, FindAll(m, s, i + 1));
      }
    } else {
      NoneOrdered<T>(s, i);
    }
  }

  lemma NoneOrdered<T>(s: string, i: nat)
    ensures Ordered<T>(s, i, [])
  {
  }

  lemma OrderedFirst<T>(s: string, i: nat, first: Match<T>, rest: seq<Match<T>>)
    requires i <= first.start <= first.end <= |s| && Ordered(s, first.end, rest)
    ensures Ordered(s, i, [first] + rest)
  {
    assert forall k :: 1 <= k < |[first] + rest| ==> ([first] + rest)[k] == rest[k - 1];
  }

  lemma OrderedEarlier<T>(s: string, i: nat, j: nat, matches: seq<Match<T>>)
    requires i <= j && Ordered(s, j, matches)
    ensures Ordered(s, i, matches)
  {
  }

  // ---------------------------------------------------------------- replacing the matches

  function EndBefore<T>(matches: seq<Match<T>>, k: nat): nat
    requires k <= |matches|
  {
    if k == 0 then 0 else matches[k - 1].end
  }

  /** The text up to the end of the `k`th match, with the first `k` matches replaced. */
  function SplicedUpTo<T>(s: string, matches: seq<Match<T>>, values: seq<string>, k: nat): string
    requires Ordered(s, 0, matches) && k <= |matches| && k <= |values|
  {
    if k == 0 then ""
    else SplicedUpTo(s, matches, values, k - 1) + s[EndBefore(matches, k - 1)..matches[k - 1].start] + values[k - 1]
  }

  /** The text with every match replaced by its value. */
  function Spliced<T>(s: string, matches: seq<Match<T>>, values: seq<string>): string
    requires Ordered(s, 0, matches) && |values| == |matches|
  {
    SplicedUpTo(s, matches, values, |matches|) + s[EndBefore(matches, |matches|)..]
  }

  /** `pattern.sub(replace, s)` from position `i` on: one pass from left to right; what is put in
      is not looked at again. */
  function Substitute<T>(m: Matcher<T>, replace: (string, T) -> string, s: string, i: nat): string
    requires Proper(m) && i <= |s|
    decreases |s| - i
  {
    if i == |s| then ""
    else
      var found := m(s, i);
      if found.Some? then replace(s[i..found.value.0], found.value.1) + Substitute(m, replace, s, found.value.0)
      else [s[i]] + Substitute(m, replace, s, i + 1)
  }

  /** The outcome depends on the replacements of the matches found, and on nothing else. */
  lemma {:induction false} SubstituteAgree<T>(m: Matcher<T>, r1: (string, T) -> string, r2: (string, T) -> string,
                                              s: string, i: nat)
    requires Proper(m) && i <= |s|
    requires forall match_ :: match_ in FindAll(m, s, i) && match_.start <= match_.end <= |s| ==>
      r1(s[match_.start..match_.end], match_.value) == r2(s[match_.start..match_.end], match_.value)
    ensures Substitute(m, r1, s, i) == Substitute(m, r2, s, i)
    decreases |s| - i
  {
    if i < |s| {
      var found := m(s, i);
      if found.Some? {
        assert Match(i, found.value.0, found.value.1) in FindAll(m, s, i);
        SubstituteAgree(m, r1, r2, s, found.value.0);
      } else {
        SubstituteAgree(m, r1, r2, s, i + 1);
      }
    }
  }

  /** Replacing every match by its own text gives the text back. */
  lemma {:induction false} SubstituteOwn<T>(m: Matcher<T>, s: string, i: nat)
    requires Proper(m) && i <= |s|
    ensures Substitute(m, (text: string, value: T) => text, s, i) == s[i..]
    decreases |s| - i
  {
    if i < |s| {
      var found := m(s, i);
      if found.Some? {
        SubstituteOwn(m, s, found.value.0);
      } else {
        SubstituteOwn(m, s, i + 1);
      }
    }
  }

  /** Text without a match is copied. */
  lemma {:induction false} SubstituteSkip<T>(m: Matcher<T>, replace: (string, T) -> string, s: string, i: nat, j: nat)
    requires Proper(m) && i <= j <= |s|
    requires forall k :: i <= k < j ==> m(s, k) == None
    ensures Substitute(m, replace, s, i) == s[i..j] + Substitute(m, replace, s, j)
    decreases j - i
  {
    if i < j {
      SubstituteSkip(m, replace, s, i + 1, j);
    }
  }

  /** A matcher that looks only at the text from its position on. */
  ghost predicate Local<T>(m: Matcher<T>) {
    forall s, k: nat, i: nat :: k + i <= |s| ==>
      m(s, k + i) == (if m(s[k..], i).Some? then Some((k + m(s[k..], i).value.0, m(s[k..], i).value.1)) else None)
  }

  lemma LocalAt<T>(m: Matcher<T>, s: string, k: nat, i: nat)
    requires Local(m) && k + i <= |s|
    ensures m(s, k + i) == (if m(s[k..], i).Some? then Some((k + m(s[k..], i).value.0, m(s[k..], i).value.1)) else None)
  {
  }

  /** For such a matcher, going on inside the text is the same as starting afresh on the rest of it. */
  lemma {:induction false} SubstituteRest<T>(m: Matcher<T>, replace: (string, T) -> string, s: string, k: nat, i: nat)
    requires Proper(m) && Local(m) && k + i <= |s|
    ensures Substitute(m, replace, s, k + i) == Substitute(m, replace, s[k..], i)
    decreases |s| - i
  {
    LocalAt(m, s, k, i);
    hide Local, Substitute;
    if k + i < |s| {
      var here := m(s[k..], i);
      if here.Some? {
        var (end, value) := here.value;
        SubstituteHere(m, replace, s, k + i, k + end, value);
        SubstituteHere(m, replace, s[k..], i, end, value);
        SliceOfRest(s, k, i, end);
        SubstituteRest(m, replace, s, k, end);
      } else {
        SubstituteOne(m, replace, s, k + i);
        SubstituteOne(m, replace, s[k..], i);
        SubstituteRest(m, replace, s, k, i + 1);
      }
    } else {
      SubstituteEnd(m, replace, s);
      SubstituteEnd(m, replace, s[k..]);
    }
  }

  lemma SliceOfRest(s: string, k: nat, i: nat, end: nat)
    requires i <= end && k + end <= |s|
    ensures s[k..][i..end] == s[k + i..k + end]
  {
  }

  lemma SubstituteOne<T>(m: Matcher<T>, replace: (string, T) -> string, s: string, i: nat)
    requires Proper(m) && i < |s| && m(s, i) == None
    ensures Substitute(m, replace, s, i) == [s[i]] + Substitute(m, replace, s, i + 1)
  {
  }

  lemma SubstituteEnd<T>(m: Matcher<T>, replace: (string, T) -> string, s: string)
    requires Proper(m)
    ensures Substitute(m, replace, s, |s|) == ""
  {
  }

  ghost predicate NoneBefore<T>(m: Matcher<T>, s: string, i: nat) {
    forall k :: 0 <= k < i ==> m(s, k) == None
  }

  lemma SubstituteFrom<T>(m: Matcher<T>, replace: (string, T) -> string, s: string, i: nat)
    requires Proper(m) && i <= |s| && NoneBefore(m, s, i)
    ensures Substitute(m, replace, s, 0) == s[..i] + Substitute(m, replace, s, i)
  {
    SubstituteSkip(m, replace, s, 0, i);
    FromStart(s, i);
  }

  lemma SubstituteFirst<T>(m: Matcher<T>, replace: (string, T) -> string, s: string, i: nat, end: nat, value: T)
    requires Proper(m) && Local(m) && i < end <= |s|
    requires NoneBefore(m, s, i) && m(s, i) == Some((end, value))
    ensures Substitute(m, replace, s, 0) == s[..i] + (replace(s[i..end], value) + Substitute(m, replace, s[end..], 0))
  {
    hide *;
    SubstituteHere(m, replace, s, i, end, value);
    SubstituteRest(m, replace, s, end, 0);
    SubstituteFrom(m, replace, s, i);
  }

  lemma SubstituteHere<T>(m: Matcher<T>, replace: (string, T) -> string, s: string, i: nat, end: nat, value: T)
    requires Proper(m) && i < end <= |s| && m(s, i) == Some((end, value))
    ensures Substitute(m, replace, s, i) == replace(s[i..end], value) + Substitute(m, replace, s, end)
  {
  }

  // ---------------------------------------------------------------- the first match and the rest

  /** Matches found in the rest of a text from `k` on, as matches of the text. */
  function Shift<T>(matches: seq<Match<T>>, k: nat): (shifted: seq<Match<T>>)
    ensures |shifted| == |matches|
  {
    seq(|matches|, j requires 0 <= j < |matches| =>
      Match(k + matches[j].start, k + matches[j].end, matches[j].value))
  }

  lemma ShiftAt<T>(matches: seq<Match<T>>, k: nat, j: nat)
    requires j < |matches|
    ensures Shift(matches, k)[j] == Match(k + matches[j].start, k + matches[j].end, matches[j].value)
  {
  }

  lemma ShiftCons<T>(first: Match<T>, rest: seq<Match<T>>, k: nat)
    ensures Shift([first] + rest, k) == [Match(k + first.start, k + first.end, first.value)] + Shift(rest, k)
  {
  }

  lemma FindAllHere<T>(m: Matcher<T>, s: string, i: nat, end: nat, value: T)
    requires Proper(m) && i < end <= |s| && m(s, i) == Some((end, value))
    ensures FindAll(m, s, i) == [Match(i, end, value)] + FindAll(m, s, end)
  {
  }

  lemma FindAllOne<T>(m: Matcher<T>, s: string, i: nat)
    requires Proper(m) && i < |s| && m(s, i) == None
    ensures FindAll(m, s, i) == FindAll(m, s, i + 1)
  {
  }

  lemma FindAllEnd<T>(m: Matcher<T>, s: string)
    requires Proper(m)
    ensures FindAll(m, s, |s|) == []
  {
  }

  /** For a matcher that looks only forward, going on inside the text finds what the rest of it holds. */
  lemma {:induction false} FindAllRest<T>(m: Matcher<T>, s: string, k: nat, i: nat)
    requires Proper(m) && Local(m) && k + i <= |s|
    ensures FindAll(m, s, k + i) == Shift(FindAll(m, s[k..], i), k)
    decreases |s| - i
  {
    LocalAt(m, s, k, i);
    hide Local, FindAll, Shift;
    if k + i < |s| {
      var here := m(s[k..], i);
      if here.Some? {
        var (end, value) := here.value;
        FindAllHere(m, s, k + i, k + end, value);
        FindAllHere(m, s[k..], i, end, value);
        ShiftCons(Match(i, end, value), FindAll(m, s[k..], end), k);
        FindAllRest(m, s, k, end);
      } else {
        FindAllOne(m, s, k + i);
        FindAllOne(m, s[k..], i);
        FindAllRest(m, s, k, i + 1);
      }
    } else {
      FindAllEnd(m, s);
      FindAllEnd(m, s[k..]);
      assert |Shift<T>([], k)| == 0;
    }
  }

  lemma {:induction false} FindAllSkip<T>(m: Matcher<T>, s: string, i: nat, j: nat)
    requires Proper(m) && i <= j <= |s|
    requires forall k :: i <= k < j ==> m(s, k) == None
    ensures FindAll(m, s, i) == FindAll(m, s, j)
    decreases j - i
  {
    if i < j {
      FindAllSkip(m, s, i + 1, j);
    }
  }

  lemma FindAllFrom<T>(m: Matcher<T>, s: string, i: nat)
    requires Proper(m) && i <= |s| && NoneBefore(m, s, i)
    ensures FindAll(m, s, 0) == FindAll(m, s, i)
  {
    FindAllSkip(m, s, 0, i);
  }

  /** The scan of a text is its first match and then the scan of what follows it. */
  lemma FindAllFirst<T>(m: Matcher<T>, s: string, i: nat, end: nat, value: T)
    requires Proper(m) && Local(m) && i < end <= |s|
    requires NoneBefore(m, s, i) && m(s, i) == Some((end, value))
    ensures FindAll(m, s, 0) == [Match(i, end, value)] + Shift(FindAll(m, s[end..], 0), end)
  {
    hide *;
    FindAllHere(m, s, i, end, value);
    FindAllRest(m, s, end, 0);
    FindAllFrom(m, s, i);
  }

  lemma SplicedUpToNext<T>(s: string, matches: seq<Match<T>>, values: seq<string>, k: nat)
    requires Ordered(s, 0, matches) && k < |matches| && k < |values|
    ensures EndBefore(matches, k) <= matches[k].start <= |s|
    ensures SplicedUpTo(s, matches, values, k + 1)
         == SplicedUpTo(s, matches, values, k) + s[EndBefore(matches, k)..matches[k].start] + values[k]
    ensures EndBefore(matches, k + 1) == matches[k].end
  {
  }

  lemma {:induction false} SplicedUpToFirst<T>(s: string, first: Match<T>, rest: seq<Match<T>>, text: string,
                                               texts: seq<string>, k: nat)
    requires first.start <= first.end <= |s| && Ordered(s[first.end..], 0, rest)
    requires Ordered(s, 0, [first] + Shift(rest, first.end)) && k <= |rest| == |texts|
    ensures SplicedUpTo(s, [first] + Shift(rest, first.end), [text] + texts, k + 1)
         == s[..first.start] + (text + SplicedUpTo(s[first.end..], rest, texts, k))
    ensures EndBefore([first] + Shift(rest, first.end), k + 1) == first.end + EndBefore(rest, k)
  {
    hide SplicedUpTo, EndBefore, Ordered, Shift;
    var matches, values, s' := [first] + Shift(rest, first.end), [text] + texts, s[first.end..];
    SplicedUpToNext(s, matches, values, k);
    if k == 0 {
      NothingBefore(s, matches, values);
      NothingBefore(s', rest, texts);
      FromStart(s, first.start);
      assert "" + s[..first.start] + text == s[..first.start] + (text + "");
    } else {
      SplicedUpToFirst(s, first, rest, text, texts, k - 1);
      SplicedUpToNext(s', rest, texts, k - 1);
      ShiftAt(rest, first.end, k - 1);
      assert matches[k] == Shift(rest, first.end)[k - 1] && values[k] == texts[k - 1];
      var from, to := EndBefore(rest, k - 1), rest[k - 1].start;
      SliceOfRest(s, first.end, from, to);
      Regroup3(s[..first.start], text, SplicedUpTo(s', rest, texts, k - 1), s'[from..to], texts[k - 1]);
    }
  }

  lemma NothingBefore<T>(s: string, matches: seq<Match<T>>, values: seq<string>)
    requires Ordered(s, 0, matches)
    ensures SplicedUpTo(s, matches, values, 0) == "" && EndBefore(matches, 0) == 0
  {
  }

  lemma Regroup3(a: string, b: string, c: string, d: string, e: string)
    ensures a + (b + c) + d + e == a + (b + (c + d + e))
  {
  }

  /** Replacing the matches keeps the text before the first one, puts in its value, and goes on with the rest. */
  lemma SplicedFirst<T>(s: string, first: Match<T>, rest: seq<Match<T>>, text: string, texts: seq<string>)
    requires first.start <= first.end <= |s| && Ordered(s[first.end..], 0, rest)
    requires Ordered(s, 0, [first] + Shift(rest, first.end)) && |rest| == |texts|
    ensures Spliced(s, [first] + Shift(rest, first.end), [text] + texts)
         == s[..first.start] + (text + Spliced(s[first.end..], rest, texts))
  {
    SplicedEnd(s, [first] + Shift(rest, first.end), [text] + texts);
    SplicedEnd(s[first.end..], rest, texts);
    hide *;
    SplicedUpToFirst(s, first, rest, text, texts, |rest|);
    var left := SplicedUpTo(s[first.end..], rest, texts, |rest|);
    var from := EndBefore(rest, |rest|);
    TailOfRest(s, first.end, from);
    Regroup(s[..first.start], text, left, s[first.end + from..]);
  }

  lemma SplicedEnd<T>(s: string, matches: seq<Match<T>>, values: seq<string>)
    requires Ordered(s, 0, matches) && |values| == |matches|
    ensures EndBefore(matches, |matches|) <= |s|
    ensures Spliced(s, matches, values)
         == SplicedUpTo(s, matches, values, |matches|) + s[EndBefore(matches, |matches|)..]
  {
  }

  lemma TailOfRest(s: string, k: nat, i: nat)
    requires k + i <= |s|
    ensures s[k..][i..] == s[k + i..]
  {
  }

  lemma Regroup(a: string, b: string, c: string, d: string)
    ensures a + (b + c) + d == a + (b + (c + d))
  {
  }

  lemma FromStart(s: string, i: nat)
    requires i <= |s|
    ensures s[0..i] == s[..i]
  {
  }

  lemma ThreeParts(left: string, middle: string, right: string)
    ensures var s, end := left + (middle + right), |left| + |middle|;
      && s[..|left|] == left && s[|left|..end] == middle && s[end..] == right
      && |s| == end + |right| && At(s, |left|, middle)
  {
  }

  // ---------------------------------------------------------------- runs of characters

  /** The end of the longest run from `i` of characters that satisfy `p`. */
  function RunEnd(s: string, i: nat, p: char -> bool): (end: nat)
    requires i <= |s|
    ensures i <= end <= |s|
    ensures forall k :: i <= k < end ==> p(s[k])
    ensures end < |s| ==> !p(s[end])
    decreases |s| - i
  {
    if i < |s| && p(s[i]) then RunEnd(s, i + 1, p) else i
  }

  /** The run is determined by what it contains and what stops it. */
  lemma {:induction false} RunEndIs(s: string, i: nat, p: char -> bool, end: nat)
    requires i <= end <= |s|
    requires forall k :: i <= k < end ==> p(s[k])
    requires end < |s| ==> !p(s[end])
    ensures RunEnd(s, i, p) == end
    decreases end - i
  {
    if i < end {
      RunEndIs(s, i + 1, p, end);
    }
  }

  predicate All(s: string, p: char -> bool) {
    forall i :: 0 <= i < |s| ==> p(s[i])
  }

  // ---------------------------------------------------------------- text at a position

  predicate At(s: string, i: nat, text: string) {
    i + |text| <= |s| && s[i..i + |text|] == text
  }

  lemma AtConcat(s: string, i: nat, left: string, right: string)
    ensures At(s, i, left + right) <==> At(s, i, left) && At(s, i + |left|, right)
  {
    var text := left + right;
    if At(s, i, text) {
      assert s[i..i + |left|] == text[..|left|] && s[i + |left|..i + |text|] == text[|left|..];
    }
    if At(s, i, left) && At(s, i + |left|, right) {
      assert s[i..i + |text|] == s[i..i + |left|] + s[i + |left|..i + |text|];
    }
  }

  /** The longest run from `i`, as text. */
  function Word(s: string, i: nat, p: char -> bool): string {
    if i <= |s| then s[i..RunEnd(s, i, p)] else ""
  }

  lemma WordAt(s: string, i: nat, p: char -> bool)
    requires i <= |s|
    ensures At(s, i, Word(s, i, p)) && All(Word(s, i, p), p)
    ensures i + |Word(s, i, p)| <= |s|
  {
  }

  /** Text of one class of characters that something else stops is exactly the word there. */
  lemma WordIs(s: string, i: nat, p: char -> bool, text: string, next: string)
    requires At(s, i, text) && At(s, i + |text|, next) && All(text, p)
    requires next != "" && !p(next[0])
    ensures Word(s, i, p) == text
  {
    var end := i + |text|;
    assert s[end] == s[end..end + |next|][0];
    assert forall k :: i <= k < end ==> s[k] == s[i..end][k - i];
    RunEndIs(s, i, p, end);
  }

  lemma AtBounds(s: string, i: nat, text: string)
    ensures At(s, i, text) ==> i + |text| <= |s|
  {
  }
}
