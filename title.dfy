/**
 * The title extractor: the first match of `<h1[^>]*>([^<]*)</h1>` in rendered
 * markup gives the title, and with `strip` the markup without that match
 * (trimmed) gives the body.
 */
module Title {
  import opened Wrappers
  import opened Strings

  /**
   * One match of the pattern: "<h1" at `start`, the `>` that closes the
   * opening tag at `gt`, and the "</h1>" at `lt`; the captured text lies between.
   */
  datatype Match = Match(start: nat, gt: nat, lt: nat) {
    function End(): nat { lt + 5 }
  }

  /** The regular expression's meaning: `[^>]*` up to `gt`, `[^<]*` up to `lt`. */
  ghost predicate IsMatch(s: string, m: Match) {
    && m.start + 3 <= m.gt < m.lt
    && m.lt + 5 <= |s|
    && s[m.start..m.start + 3] == "<h1"
    && (forall x :: m.start + 3 <= x < m.gt ==> s[x] != '>')
    && s[m.gt] == '>'
    && (forall x :: m.gt < x < m.lt ==> s[x] != '<')
    && s[m.lt..m.lt + 5] == "</h1>"
  }

  ghost predicate MatchStartsAt(s: string, i: nat) {
    exists gt, lt :: IsMatch(s, Match(i, gt, lt))
  }

  /** What `RegExp.prototype.exec` returns: the match with the earliest start. */
  ghost predicate IsFirstMatch(s: string, m: Match) {
    IsMatch(s, m) && forall i :: 0 <= i < m.start ==> !MatchStartsAt(s, i)
  }

  /** A match is fixed by its start: the pattern admits no backtracking choice. */
  lemma MatchDeterministic(s: string, m1: Match, m2: Match)
    requires IsMatch(s, m1) && IsMatch(s, m2) && m1.start == m2.start
    ensures m1 == m2
  {
    assert m1.gt == m2.gt;
    assert s[m1.lt] == s[m1.lt..m1.lt + 5][0];
    assert s[m2.lt] == s[m2.lt..m2.lt + 5][0];
  }

  /** First index at or after `from` holding `c`, or `|s|`. */
  function IndexFrom(s: string, c: char, from: nat): (r: nat)
    requires from <= |s|
    ensures from <= r <= |s| && (r < |s| ==> s[r] == c)
    ensures forall x :: from <= x < r ==> s[x] != c
    decreases |s| - from
  {
    if from == |s| || s[from] == c then from else IndexFrom(s, c, from + 1)
  }

  /** Attempting the pattern at position `i`. */
  function MatchAt(s: string, i: nat): (r: Option<Match>)
    requires i <= |s|
    ensures r.Some? ==> r.value.start == i && IsMatch(s, r.value)
  {
    if i + 3 <= |s| && s[i..i + 3] == "<h1" then
      var gt := IndexFrom(s, '>', i + 3);
      if gt < |s| then
        var lt := IndexFrom(s, '<', gt + 1);
        if lt + 5 <= |s| && s[lt..lt + 5] == "</h1>" then Some(Match(i, gt, lt)) else None
      else None
    else None
  }

  /** The attempt at `i` fails only when no match starts there. */
  lemma MatchAtComplete(s: string, i: nat)
    requires i <= |s|
    ensures MatchAt(s, i).None? ==> !MatchStartsAt(s, i)
  {
    if MatchStartsAt(s, i) {
      var gt: nat, lt: nat :| IsMatch(s, Match(i, gt, lt));
      var g := IndexFrom(s, '>', i + 3);
      assert g == gt;
      var l := IndexFrom(s, '<', gt + 1);
      assert s[lt] == s[lt..lt + 5][0];
      assert l == lt;
    }
  }

  /** Scanning forward from `from` for the earliest match. */
  function FirstMatchFrom(s: string, from: nat): (r: Option<Match>)
    requires from <= |s|
    ensures r.Some? ==> from <= r.value.start && IsMatch(s, r.value)
    ensures r.Some? ==> forall i :: from <= i < r.value.start ==> !MatchStartsAt(s, i)
    ensures r.None? ==> forall i :: from <= i <= |s| ==> !MatchStartsAt(s, i)
    decreases |s| - from
  {
    MatchAtComplete(s, from);
    match MatchAt(s, from)
    case Some(m) => Some(m)
    case None => if from == |s| then None else FirstMatchFrom(s, from + 1)
  }

  /** `/<h1[^>]*>([^<]*)<\/h1>/.exec(s)`: the earliest match, if any. */
  function FirstMatch(s: string): (r: Option<Match>)
    ensures r.Some? ==> IsFirstMatch(s, r.value)
    ensures r.None? <==> forall i :: 0 <= i <= |s| ==> !MatchStartsAt(s, i)
  {
    var r := FirstMatchFrom(s, 0);
    assert r.Some? ==> MatchStartsAt(s, r.value.start) by {
      if r.Some? { assert IsMatch(s, Match(r.value.start, r.value.gt, r.value.lt)); }
    }
    r
  }

  predicate OccursAt(s: string, pat: string, i: nat) {
    i + |pat| <= |s| && s[i..i + |pat|] == pat
  }

  /** First occurrence of `pat` in `s`, searching from `from`. */
  function IndexOfText(s: string, pat: string, from: nat): (r: Option<nat>)
    requires from <= |s|
    ensures r.Some? ==> from <= r.value && OccursAt(s, pat, r.value)
    ensures r.Some? ==> forall i :: from <= i < r.value ==> !OccursAt(s, pat, i)
    ensures r.None? ==> forall i :: from <= i ==> !OccursAt(s, pat, i)
    decreases |s| - from
  {
    if from + |pat| > |s| then None
    else if s[from..from + |pat|] == pat then Some(from)
    else IndexOfText(s, pat, from + 1)
  }

  /** `s.replace(pat, rep)` with a string pattern: only the first occurrence is replaced. */
  function ReplaceFirst(s: string, pat: string, rep: string): (r: string)
    ensures (forall i: nat :: !OccursAt(s, pat, i)) ==> r == s
    ensures forall i: nat :: OccursAt(s, pat, i) && (forall j: nat :: j < i ==> !OccursAt(s, pat, j)) ==>
                          r == s[..i] + rep + s[i + |pat|..]
  {
    match IndexOfText(s, pat, 0)
    case None => s
    case Some(i) => s[..i] + rep + s[i + |pat|..]
  }

  /** A copy of the matched text earlier in the markup would itself be a match. */
  lemma MatchShift(s: string, m: Match, p: nat)
    requires IsMatch(s, m) && OccursAt(s, s[m.start..m.End()], p)
    ensures MatchStartsAt(s, p)
  {
    var d := m.End() - m.start;
    ShiftedMatch(s, m, p, d);
    var g, l := p + (m.gt - m.start), p + (m.lt - m.start);
    assert IsMatch(s, Match(p, g, l));
  }

  /** The same text `d` characters long at `p` matches with every offset shifted. */
  lemma ShiftedMatch(s: string, m: Match, p: nat, d: nat)
    requires IsMatch(s, m) && d == m.End() - m.start
    requires p + d <= |s| && s[p..p + d] == s[m.start..m.start + d]
    ensures IsMatch(s, Match(p, p + (m.gt - m.start), p + (m.lt - m.start)))
  {
    var g, l := m.gt - m.start, m.lt - m.start;
    ShiftTags(s, p, m.start, d, g, l);
    NoCharShift(s, p, m.start, d, 3, g, '>');
    NoCharShift(s, p, m.start, d, g + 1, l, '<');
  }

  /** The copy has the opening tag, the closing `>` and the closing tag at the same offsets. */
  lemma ShiftTags(s: string, p: nat, q: nat, d: nat, g: nat, l: nat)
    requires p + d <= |s| && q + d <= |s| && s[p..p + d] == s[q..q + d]
    requires 3 <= g < l && l + 5 == d
    requires s[q..q + 3] == "<h1" && s[q + g] == '>' && s[q + l..q + l + 5] == "</h1>"
    ensures s[p..p + 3] == "<h1" && s[p + g] == '>' && s[p + l..p + l + 5] == "</h1>"
  {
    SubSlice(s, p, q, d, 0, 3);
    SubSlice(s, p, q, d, l, d);
    CharShift(s, p, q, d, g);
  }

  lemma CharShift(s: string, p: nat, q: nat, d: nat, i: nat)
    requires p + d <= |s| && q + d <= |s| && s[p..p + d] == s[q..q + d] && i < d
    ensures s[p + i] == s[q + i]
  {
    assert s[p + i] == s[p..p + d][i];
    assert s[q + i] == s[q..q + d][i];
  }

  lemma SubSlice(s: string, p: nat, q: nat, d: nat, i: nat, j: nat)
    requires p + d <= |s| && q + d <= |s| && s[p..p + d] == s[q..q + d] && i <= j <= d
    ensures s[p + i..p + j] == s[q + i..q + j]
  {
    var a, b := s[p..p + d], s[q..q + d];
    assert |s[p + i..p + j]| == |a[i..j]|;
    forall k | 0 <= k < j - i
      ensures s[p + i..p + j][k] == a[i..j][k] && s[q + i..q + j][k] == b[i..j][k]
    {
      assert a[i..j][k] == a[i + k] == s[p + i + k];
      assert b[i..j][k] == b[i + k] == s[q + i + k];
    }
    assert s[p + i..p + j] == a[i..j];
    assert s[q + i..q + j] == b[i..j];
  }

  lemma NoCharShift(s: string, p: nat, q: nat, d: nat, i: nat, j: nat, c: char)
    requires p + d <= |s| && q + d <= |s| && s[p..p + d] == s[q..q + d] && i <= j <= d
    requires forall x :: q + i <= x < q + j ==> s[x] != c
    ensures forall x :: p + i <= x < p + j ==> s[x] != c
  {
    forall x | p + i <= x < p + j
      ensures s[x] != c
    {
      var y := q + (x - p);
      assert s[x] == s[p..p + d][x - p];
      assert s[y] == s[q..q + d][x - p];
    }
  }

  /** Replacing the matched text by "" removes exactly the first match. */
  lemma RemoveMatch(s: string, m: Match)
    requires IsFirstMatch(s, m)
    ensures ReplaceFirst(s, s[m.start..m.End()], "") == s[..m.start] + s[m.End()..]
  {
    var pat := s[m.start..m.End()];
    var r := IndexOfText(s, pat, 0);
    assert OccursAt(s, pat, m.start);
    assert r.Some? && r.value <= m.start;
    if r.value < m.start {
      MatchShift(s, m, r.value);
      assert false;
    }
  }

  /** `extractTitle`'s result: the markup itself when no title was found, else the title and, when stripping, the body. */
  datatype Extracted = Unchanged(markup: string) | Found(title: string, body: Option<string>)

  function ExtractTitle(markup: string, strip: bool): (r: Extracted)
    ensures r.Unchanged? <==> forall i :: 0 <= i <= |markup| ==> !MatchStartsAt(markup, i)
    ensures r.Unchanged? ==> r.markup == markup
    ensures r.Found? ==> '<' !in r.title && (r.body.Some? <==> strip)
  {
    match FirstMatch(markup)
    case None => Unchanged(markup)
    case Some(m) =>
      TitleHasNoTag(markup, m);
      var matched := markup[m.start..m.End()];
      Found(markup[m.gt + 1..m.lt], if strip then Some(Trim(ReplaceFirst(markup, matched, ""))) else None)
  }

  /** What `extractTitle` found, in terms of the earliest match `m`. */
  ghost predicate FoundAt(markup: string, strip: bool, m: Match, r: Extracted) {
    && IsFirstMatch(markup, m)
    && r == Found(markup[m.gt + 1..m.lt],
                  if strip then Some(Trim(markup[..m.start] + markup[m.End()..])) else None)
  }

  /**
   * A found title is the text of the earliest match; the stripped body is the
   * markup with exactly that match cut out, then trimmed.
   */
  lemma ExtractTitleFirstMatch(markup: string, strip: bool)
    requires ExtractTitle(markup, strip).Found?
    ensures exists m :: FoundAt(markup, strip, m, ExtractTitle(markup, strip))
  {
    var m := FirstMatch(markup).value;
    RemoveMatch(markup, m);
    assert FoundAt(markup, strip, m, ExtractTitle(markup, strip));
  }

  /** The captured title text contains no '<'. */
  lemma TitleHasNoTag(s: string, m: Match)
    requires IsMatch(s, m)
    ensures '<' !in s[m.gt + 1..m.lt]
  {
    var title := s[m.gt + 1..m.lt];
    forall x | 0 <= x < |title| ensures title[x] != '<' {
      assert title[x] == s[m.gt + 1 + x];
    }
  }
}
