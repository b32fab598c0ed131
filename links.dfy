/** Article URL discovery in a listing page (scrape.py:84-87): `re.findall`
    with the fixed pattern
        https://www\.whitehouse\.gov/presidential-actions/\d{4}/\d{2}/[^/]+
    over the raw markup. The pattern has no alternation, so at each position
    there is at most one way to match, and the greedy `[^/]+` runs to the
    next `/` or to the end of the text. `findall` tries positions from left
    to right and resumes after each match, so matches never overlap. */
module Links {
  import opened Wrappers
  import opened Text

  /** The literal part of the pattern: scheme, host and listing path. */
  const DetailPrefix := "https://www.whitehouse.gov/presidential-actions/"

  /** `u` is, as a whole, a string the pattern matches: the prefix, four
      digits, `/`, two digits, `/`, and a non-empty slug without `/`. */
  predicate IsDetailUrl(u: string) {
    var n := |DetailPrefix|;
    && |u| > n + 8
    && u[..n] == DetailPrefix
    && IsDigit(u[n]) && IsDigit(u[n + 1]) && IsDigit(u[n + 2]) && IsDigit(u[n + 3])
    && u[n + 4] == '/'
    && IsDigit(u[n + 5]) && IsDigit(u[n + 6])
    && u[n + 7] == '/'
    && forall k :: n + 8 <= k < |u| ==> u[k] != '/'
  }

  /** Where the greedy `[^/]+` starting at `j` stops: the first `/` at or
      after `j`, or the end of the text. */
  function SlugEnd(s: string, j: nat): (e: nat)
    requires j <= |s|
    decreases |s| - j
    ensures j <= e <= |s|
    ensures e == |s| || s[e] == '/'
    ensures forall k :: j <= k < e ==> s[k] != '/'
  {
    if j == |s| || s[j] == '/' then j else SlugEnd(s, j + 1)
  }

  /** The fixed part of the pattern (prefix, year, month and their slashes)
      matches at `i`. */
  predicate HeadAt(s: string, i: nat) {
    var h := i + |DetailPrefix|;
    && h + 8 <= |s|
    && s[i..h] == DetailPrefix
    && IsDigit(s[h]) && IsDigit(s[h + 1]) && IsDigit(s[h + 2]) && IsDigit(s[h + 3])
    && s[h + 4] == '/'
    && IsDigit(s[h + 5]) && IsDigit(s[h + 6])
    && s[h + 7] == '/'
  }

  /** The end of the match that starts at `i`, if the pattern matches there.
      A match is a detail URL that the next character (if any) cannot
      extend. */
  function MatchAt(s: string, i: nat): (r: Option<nat>)
    requires i <= |s|
    ensures r.Some? ==> i < r.value <= |s| && IsDetailUrl(s[i..r.value])
    ensures r.Some? ==> r.value == |s| || s[r.value] == '/'
  {
    if HeadAt(s, i) then
      var slug := i + |DetailPrefix| + 8;
      var e := SlugEnd(s, slug);
      if e > slug then
        assert s[i..e][..|DetailPrefix|] == s[i..i + |DetailPrefix|];
        Some(e)
      else None
    else None
  }

  /** The converse: wherever some detail URL starts at `i`, the pattern
      matches at `i`, and the greedy match is at least as long. */
  lemma MatchAtComplete(s: string, i: nat, e: nat)
    requires i <= e <= |s| && IsDetailUrl(s[i..e])
    ensures MatchAt(s, i).Some? && e <= MatchAt(s, i).value
  {
    var u := s[i..e];
    var n := |DetailPrefix|;
    assert s[i..i + n] == u[..n];
    assert HeadAt(s, i);
    var slug := i + n + 8;
    forall k | slug <= k < e
      ensures s[k] != '/'
    {
      assert s[k] == u[k - i];
    }
  }

  /** The spans `(start, end)` of the matches `findall` reports when it
      starts scanning at `i`. */
  function MatchesFrom(s: string, i: nat): (spans: seq<(nat, nat)>)
    requires i <= |s|
    decreases |s| - i
    ensures forall k :: 0 <= k < |spans| ==> i <= spans[k].0 < spans[k].1 <= |s|
    ensures forall k :: 0 <= k < |spans| - 1 ==> spans[k].1 <= spans[k + 1].0
  {
    if i == |s| then []
    else
      match MatchAt(s, i)
      case Some(e) => [(i, e)] + MatchesFrom(s, e)
      case None => MatchesFrom(s, i + 1)
  }

  /** Every reported span is a match of the pattern. */
  lemma {:induction false} MatchesFromSound(s: string, i: nat)
    requires i <= |s|
    ensures forall k :: 0 <= k < |MatchesFrom(s, i)| ==>
              MatchAt(s, MatchesFrom(s, i)[k].0) == Some(MatchesFrom(s, i)[k].1)
    decreases |s| - i
  {
    if i < |s| {
      match MatchAt(s, i)
      case Some(e) =>
        MatchesFromMatch(s, i, e);
        MatchesFromSound(s, e);
      case None =>
        MatchesFromSkip(s, i);
        MatchesFromSound(s, i + 1);
    }
  }

  /** `p` lies within one of the reported matches. */
  ghost predicate Covered(spans: seq<(nat, nat)>, p: nat) {
    exists k :: 0 <= k < |spans| && spans[k].0 <= p < spans[k].1
  }

  /** A match placed in front keeps every covered position covered, and
      covers its own positions. */
  lemma CoveredCons(span: (nat, nat), spans: seq<(nat, nat)>, p: nat)
    requires Covered(spans, p) || span.0 <= p < span.1
    ensures Covered([span] + spans, p)
  {
    if span.0 <= p < span.1 {
      assert ([span] + spans)[0] == span;
    } else {
      var k :| 0 <= k < |spans| && spans[k].0 <= p < spans[k].1;
      assert ([span] + spans)[k + 1] == spans[k];
    }
  }

  /** The scan reports a match at `i` and resumes where it ends. */
  lemma MatchesFromMatch(s: string, i: nat, e: nat)
    requires i < |s| && MatchAt(s, i) == Some(e)
    ensures MatchesFrom(s, i) == [(i, e)] + MatchesFrom(s, e)
  {
  }

  /** No match at `i`: the scan moves on by one character. */
  lemma MatchesFromSkip(s: string, i: nat)
    requires i < |s| && MatchAt(s, i).None?
    ensures MatchesFrom(s, i) == MatchesFrom(s, i + 1)
  {
  }

  /** No match is missed: every position from `i` on where the pattern
      matches is the start of a reported match or lies inside one. */
  lemma {:induction false} MatchesFromComplete(s: string, i: nat, p: nat)
    requires i <= p < |s| && MatchAt(s, p).Some?
    ensures Covered(MatchesFrom(s, i), p)
    decreases |s| - i
  {
    match MatchAt(s, i)
    case Some(e) =>
      MatchesFromMatch(s, i, e);
      if e <= p {
        MatchesFromComplete(s, e, p);
      }
      CoveredCons((i, e), MatchesFrom(s, e), p);
    case None =>
      MatchesFromSkip(s, i);
      MatchesFromComplete(s, i + 1, p);
  }

  /** `re.findall` of the detail-URL pattern over a listing page: the matched
      texts, left to right, duplicates kept. */
  function FindDetailUrls(html: string): (urls: seq<string>)
    ensures |urls| == |MatchesFrom(html, 0)|
    ensures forall k :: 0 <= k < |urls| ==> IsDetailUrl(urls[k])
  {
    var spans := MatchesFrom(html, 0);
    MatchesFromSound(html, 0);
    seq(|spans|, k requires 0 <= k < |spans| => html[spans[k].0..spans[k].1])
  }

  /** A page whose text is one detail URL followed by `/` yields exactly that
      URL. */
  lemma SlashEndsUrl(u: string)
    requires IsDetailUrl(u)
    ensures FindDetailUrls(u + "/") == [u]
  {
    var s := u + "/";
    assert s[0..|u|] == u;
    MatchAtComplete(s, 0, |u|);
    assert !IsDetailUrl(s[0..|s|]) by {
      assert s[0..|s|][|u|] == '/';
    }
    assert MatchAt(s, 0) == Some(|u|);
    assert MatchesFrom(s, |u| + 1) == [];
    assert !HeadAt(s, |u|);
    assert MatchesFrom(s, |u|) == [];
  }

  /** Without a trailing `/` the slug runs to the end of the text, so markup
      after the URL (a closing quote, say) becomes part of the match. */
  lemma SlugAbsorbsTrailingMarkup(u: string, markup: string)
    requires IsDetailUrl(u)
    requires forall k :: 0 <= k < |markup| ==> markup[k] != '/'
    ensures FindDetailUrls(u + markup) == [u + markup]
  {
    var s := u + markup;
    assert IsDetailUrl(s) by {
      assert s[..|DetailPrefix|] == u[..|DetailPrefix|];
      forall k | |DetailPrefix| + 8 <= k < |s|
        ensures s[k] != '/'
      {
        if k >= |u| {
          assert s[k] == markup[k - |u|];
        }
      }
    }
    assert s[0..|s|] == s;
    MatchAtComplete(s, 0, |s|);
    assert MatchesFrom(s, |s|) == [];
  }
}
