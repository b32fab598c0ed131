/** Title and body extraction from an article page (`get_action_content`,
    scrape.py:59-75). The parser's answers for the page (the text of the
    first <h1>, if any, and the text of every <p> in document order) come
    in as values. */
module Article {
  import opened Wrappers
  import opened Text

  // ---------------------------------------------------------------------
  // Title
  // ---------------------------------------------------------------------

  /** `str.title()` on ASCII, scanning with a flag that says whether the
      previous character was a letter: a letter after a letter is
      lower-cased, any other letter upper-cased, everything else kept. */
  function TitleCaseFrom(s: string, prevCased: bool): (r: string)
    decreases |s|
    ensures |r| == |s|
  {
    if s == [] then []
    else [if prevCased then Lower(s[0]) else Upper(s[0])] + TitleCaseFrom(s[1..], IsLetter(s[0]))
  }

  function TitleCase(s: string): string {
    TitleCaseFrom(s, false)
  }

  lemma {:induction false} TitleCaseFromAt(s: string, prevCased: bool, k: nat)
    requires k < |s|
    ensures TitleCaseFrom(s, prevCased)[k]
            == if (if k == 0 then prevCased else IsLetter(s[k - 1])) then Lower(s[k]) else Upper(s[k])
    decreases k
  {
    if k > 0 {
      TitleCaseFromAt(s[1..], IsLetter(s[0]), k - 1);
    }
  }

  /** Each character of `s.title()` depends only on itself and its left
      neighbour: a letter following a letter becomes lower case, any other
      letter upper case, and every other character is unchanged. So `"2nd"`
      becomes `"2Nd"`. */
  lemma TitleCaseAt(s: string, k: nat)
    requires k < |s|
    ensures |TitleCase(s)| == |s|
    ensures TitleCase(s)[k] == if k > 0 && IsLetter(s[k - 1]) then Lower(s[k]) else Upper(s[k])
  {
    TitleCaseFromAt(s, false, k);
  }

  lemma TitleCaseOrdinal()
    ensures TitleCase("2nd") == "2Nd"
  {
    TitleCaseAt("2nd", 0);
    TitleCaseAt("2nd", 1);
    TitleCaseAt("2nd", 2);
  }

  /** The title used when the page has no <h1>: the URL's last `/` segment
      with hyphens turned into spaces, title-cased. */
  function TitleFromUrl(url: string): string {
    TitleCase(ReplaceChar(LastPiece(url, "/"), '-', ' '))
  }

  /** The fallback title is as long as the URL's last segment, has a space
      where the segment has a hyphen, contains neither `/` nor `-`, and
      differs from the segment only in the case of its letters. */
  lemma TitleFromUrlShape(url: string)
    ensures var seg, t := LastPiece(url, "/"), TitleFromUrl(url);
            && |t| == |seg|
            && forall k :: 0 <= k < |t| ==>
                 && t[k] != '/' && t[k] != '-'
                 && (seg[k] == '-' ==> t[k] == ' ')
                 && (seg[k] != '-' ==> Lower(t[k]) == Lower(seg[k]))
  {
    var seg := LastPiece(url, "/");
    var spaced := ReplaceChar(seg, '-', ' ');
    LastPieceHasNoSep(url, "/");
    ContainsChar(seg, '/');
    forall k | 0 <= k < |spaced|
      ensures var t := TitleFromUrl(url);
              && t[k] != '/' && t[k] != '-'
              && (seg[k] == '-' ==> t[k] == ' ')
              && (seg[k] != '-' ==> Lower(t[k]) == Lower(seg[k]))
    {
      TitleCaseAt(spaced, k);
    }
  }

  /** A word of lower-case letters with its first letter capitalised. */
  function Capitalized(w: string): (r: string)
    requires w != []
    ensures |r| == |w| && r[1..] == w[1..]
    ensures Lower(r[0]) == Lower(w[0]) && (IsLetter(w[0]) ==> IsUpper(r[0]))
  {
    [Upper(w[0])] + w[1..]
  }

  predicate IsLowerWord(w: string) {
    w != [] && forall k :: 0 <= k < |w| ==> IsLower(w[k])
  }

  /** An order page without a heading whose URL ends in two lower-case words
      joined by a hyphen, such as `.../some-order`, is titled with both words
      capitalised and separated by a space (`"Some Order"`), whatever
      precedes the last `/`. */
  lemma TitleFromUrlOfWords(prefix: string, w1: string, w2: string)
    requires IsLowerWord(w1) && IsLowerWord(w2)
    ensures TitleFromUrl(prefix + "/" + (w1 + "-" + w2)) == Capitalized(w1) + " " + Capitalized(w2)
  {
    var seg := w1 + "-" + w2;
    forall k | 0 <= k < |seg|
      ensures seg[k] != '/'
    {
      if k >= |w1| + 1 {
        assert seg[k] == w2[k - |w1| - 1];
      }
    }
    ContainsChar(seg, '/');
    LastPieceAfter(prefix, "/", seg);
    HyphenSpaced(w1, w2);
    TitleCaseOfWords(w1, w2);
  }

  lemma HyphenSpaced(w1: string, w2: string)
    requires IsLowerWord(w1) && IsLowerWord(w2)
    ensures ReplaceChar(w1 + "-" + w2, '-', ' ') == w1 + " " + w2
  {
    var seg, spaced := w1 + "-" + w2, w1 + " " + w2;
    forall k | 0 <= k < |seg|
      ensures ReplaceChar(seg, '-', ' ')[k] == spaced[k]
    {
      if k >= |w1| + 1 {
        assert seg[k] == w2[k - |w1| - 1] == spaced[k];
      }
    }
  }

  lemma TitleCaseOfWords(w1: string, w2: string)
    requires IsLowerWord(w1) && IsLowerWord(w2)
    ensures TitleCase(w1 + " " + w2) == Capitalized(w1) + " " + Capitalized(w2)
  {
    var s, t := w1 + " " + w2, Capitalized(w1) + " " + Capitalized(w2);
    var n := |w1|;
    forall k | 0 <= k < |s|
      ensures TitleCase(s)[k] == t[k]
    {
      TitleCaseAt(s, k);
      if k < n {
        assert s[k] == w1[k];
        if k > 0 {
          assert s[k - 1] == w1[k - 1];
        }
      } else if k > n {
        assert s[k] == w2[k - n - 1] && t[k] == Capitalized(w2)[k - n - 1];
        if k > n + 1 {
          assert s[k - 1] == w2[k - n - 2];
        }
      }
    }
  }

  // ---------------------------------------------------------------------
  // Content
  // ---------------------------------------------------------------------

  /** The paragraph texts that survive: each stripped, the empty ones
      dropped, document order kept. */
  function CleanParagraphs(paragraphs: seq<string>): seq<string>
    decreases |paragraphs|
  {
    if paragraphs == [] then []
    else
      var t := Strip(paragraphs[0]);
      (if t != "" then [t] else []) + CleanParagraphs(paragraphs[1..])
  }

  /** The separator between paragraphs in the content: a blank line. */
  const ParagraphSeparator := "\n\n"

  /** The content of an article: its surviving paragraphs joined by a blank
      line. */
  function Content(paragraphs: seq<string>): string {
    Join(CleanParagraphs(paragraphs), ParagraphSeparator)
  }

  /** Every surviving paragraph is non-empty and already stripped. */
  lemma {:induction false} CleanParagraphsStripped(paragraphs: seq<string>)
    ensures forall t :: t in CleanParagraphs(paragraphs) ==> t != "" && Strip(t) == t
    decreases |paragraphs|
  {
    if paragraphs != [] {
      CleanParagraphsStripped(paragraphs[1..]);
      StripByIdempotent(paragraphs[0], IsSpace);
    }
  }

  /** No paragraph survives exactly when every paragraph is blank. */
  lemma {:induction false} CleanParagraphsEmpty(paragraphs: seq<string>)
    ensures CleanParagraphs(paragraphs) == []
            <==> forall k :: 0 <= k < |paragraphs| ==> Strip(paragraphs[k]) == ""
    decreases |paragraphs|
  {
    if paragraphs != [] {
      var rest := paragraphs[1..];
      var t := Strip(paragraphs[0]);
      assert CleanParagraphs(paragraphs) == (if t != "" then [t] else []) + CleanParagraphs(rest);
      CleanParagraphsEmpty(rest);
      AllBlankSplit(paragraphs);
    }
  }

  lemma AllBlankSplit(paragraphs: seq<string>)
    requires paragraphs != []
    ensures (forall k :: 0 <= k < |paragraphs| ==> Strip(paragraphs[k]) == "")
            <==> Strip(paragraphs[0]) == "" && forall k :: 0 <= k < |paragraphs[1..]| ==> Strip(paragraphs[1..][k]) == ""
  {
    var rest := paragraphs[1..];
    assert forall k :: 1 <= k < |paragraphs| ==> paragraphs[k] == rest[k - 1];
  }

  /** Cleaning keeps document order: the paragraphs of two consecutive runs
      come out in the same order. */
  lemma {:induction false} CleanParagraphsAppend(a: seq<string>, b: seq<string>)
    ensures CleanParagraphs(a + b) == CleanParagraphs(a) + CleanParagraphs(b)
    decreases |a|
  {
    if a == [] {
      assert a + b == b;
    } else {
      var t := Strip(a[0]);
      var head := if t != "" then [t] else [];
      assert (a + b)[0] == a[0];
      assert (a + b)[1..] == a[1..] + b;
      assert CleanParagraphs(a + b) == head + CleanParagraphs(a[1..] + b);
      CleanParagraphsAppend(a[1..], b);
    }
  }

  /** The content is empty exactly when no paragraph has text, and otherwise
      neither starts nor ends with whitespace. */
  lemma ContentShape(paragraphs: seq<string>)
    ensures Content(paragraphs) == "" <==> forall k :: 0 <= k < |paragraphs| ==> Strip(paragraphs[k]) == ""
    ensures var c := Content(paragraphs);
            c != "" ==> !IsSpace(c[0]) && !IsSpace(c[|c| - 1])
  {
    var parts := CleanParagraphs(paragraphs);
    CleanParagraphsStripped(paragraphs);
    CleanParagraphsEmpty(paragraphs);
    assert forall k :: 0 <= k < |parts| ==> parts[k] in parts;
    JoinEnds(parts, ParagraphSeparator);
    if parts != [] {
      var first, last := parts[0], parts[|parts| - 1];
      assert first in parts && last in parts;
      StripHasNoEdgeSpace(first);
      StripHasNoEdgeSpace(last);
    }
  }

  // ---------------------------------------------------------------------
  // The extraction
  // ---------------------------------------------------------------------

  /** `get_action_content` once the page body has been fetched: the sentinel
      `("", "")` for an empty body; otherwise the stripped <h1> text or, with
      no <h1>, the title derived from the URL, together with the content. */
  function Extract(url: string, body: string, h1: Option<string>, paragraphs: seq<string>): (r: (string, string))
    ensures body == "" ==> r == ("", "")
    ensures r.1 == "" <==> body == "" || forall k :: 0 <= k < |paragraphs| ==> Strip(paragraphs[k]) == ""
  {
    if body == "" then ("", "")
    else
      var title := match h1 case Some(text) => Strip(text) case None => TitleFromUrl(url);
      ContentShape(paragraphs);
      (title, Content(paragraphs))
  }

  /** A page with a heading and two paragraphs, all without surrounding
      whitespace, gives the heading as title and the two paragraphs separated
      by a blank line as content. */
  lemma ExtractTwoParagraphs(url: string, body: string, heading: string, a: string, b: string)
    requires body != "" && a != "" && b != ""
    requires heading != "" ==> !IsSpace(heading[0]) && !IsSpace(heading[|heading| - 1])
    requires !IsSpace(a[0]) && !IsSpace(a[|a| - 1])
    requires !IsSpace(b[0]) && !IsSpace(b[|b| - 1])
    ensures Extract(url, body, Some(heading), [a, b]) == (heading, a + "\n\n" + b)
  {
    StripKeepsTrimmed(heading);
    StripKeepsTrimmed(a);
    StripKeepsTrimmed(b);
    var ps := [a, b];
    assert CleanParagraphs(ps[1..]) == [b] by {
      assert ps[1..][1..] == [];
    }
    assert CleanParagraphs(ps) == [a] + CleanParagraphs(ps[1..]);
    assert Join([a, b], ParagraphSeparator) == a + "\n\n" + b by {
      assert [a, b][1..] == [b];
    }
  }
}
