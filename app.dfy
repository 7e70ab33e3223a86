/**
 The Streamlit page in scripts/app.py: its own copy of the PubMed lookup,
 `search_pubmed_tool`, and the rule that decides whether the page falls
 back to PubMed after the local retrieval chain has answered.
 */
module App {
  import opened PyStr
  import opened Extraction
  import PubMed

  /**
   The body of `search_pubmed_tool` after its HTTP calls. Its per-record
   block is statement for statement the one in `search_pubmed`, so it is
   the same `ExtractLine`.
   */
  method SearchPubmedTool(idlist: Option<seq<string>>, content: string) returns (result: string)
    ensures result == SearchResult(idlist, content)
  {
    if !IdsPresent(idlist) {
      return NotFound;
    }
    var articles: seq<string> := [];
    var articlesXml := Split(content, ArticleMarker)[1..];
    for n := 0 to |articlesXml|
      invariant |articles| == n
      invariant forall k :: 0 <= k < n ==> articles[k] == Entry(articlesXml[k])
    {
      var line := PubMed.ExtractLine(articlesXml[n]);
      articles := articles + [line];
    }
    assert articles == Entries(articlesXml);
    assert articlesXml == Fragments(content);
    result := if |articles| > 0 then Join("\n", articles) else NotFound;
  }

  /** The page's copy and the library's copy return the same text on the same responses. */
  method ToolAgreesWithLibrary(idlist: Option<seq<string>>, content: string)
    returns (fromTool: string, fromLibrary: string)
    ensures fromTool == fromLibrary
  {
    fromTool := SearchPubmedTool(idlist, content);
    fromLibrary := PubMed.SearchPubmed(idlist, content);
  }

  // ---------------------------------------------------------------------------
  // The PubMed fallback

  const NotFoundPhrase: string := "not found"

  /**
   Whether the page looks the question up on PubMed after showing the local
   answer: exactly when the answer mentions "not found" in any letter case, or
   has fewer than ten characters from its first to its last non-space character.
   */
  predicate NeedsPubMed(answer: string)
    ensures NeedsPubMed(answer) <==>
      (exists i :: OccursAt(Lower(answer), NotFoundPhrase, i)) ||
      !(exists i, j :: 0 <= i && i + 9 <= j < |answer| && !IsSpace(answer[i]) && !IsSpace(answer[j]))
  {
    StrippedLengthWitness(answer);
    Contains(Lower(answer), NotFoundPhrase) || |Strip(answer)| < 10
  }

  /** The answer, once stripped, is at least ten characters long exactly when two non-space characters at least nine apart exist in it. */
  lemma StrippedLengthWitness(s: string)
    ensures |Strip(s)| >= 10 <==>
      exists i, j :: 0 <= i && i + 9 <= j < |s| && !IsSpace(s[i]) && !IsSpace(s[j])
  {
    var k := StripKeepsMiddle(s);
    var r := Strip(s);
    if |r| >= 10 {
      assert s[k] == r[0] && s[k + |r| - 1] == r[|r| - 1];
    }
    forall t | 0 <= t < k ensures IsSpace(s[t]) {
      assert s[..k][t] == s[t];
    }
    forall t | k + |r| <= t < |s| ensures IsSpace(s[t]) {
      assert s[k + |r|..][t - k - |r|] == s[t];
    }
  }

  /** An empty or all-whitespace answer always falls back. */
  lemma BlankAnswerFallsBack(answer: string)
    requires AllSpace(answer)
    ensures NeedsPubMed(answer)
  {
    assert answer + [] + [] == answer;
    StripOfPadded(answer, [], []);
  }

  /** An answer shorter than ten characters falls back, whatever it says. */
  lemma ShortAnswerFallsBack(answer: string)
    requires |answer| < 10
    ensures NeedsPubMed(answer)
  {
    var k := StripKeepsMiddle(answer);
  }

  /** An answer that says "not found" in any mix of upper and lower case falls back. */
  lemma SaysNotFoundFallsBack(answer: string, phrase: string, i: nat)
    requires OccursAt(answer, phrase, i) && Lower(phrase) == NotFoundPhrase
    ensures NeedsPubMed(answer)
  {
    var low := Lower(answer);
    assert low[i..i + |phrase|] == Lower(phrase) by {
      forall k | 0 <= k < |phrase| ensures low[i..i + |phrase|][k] == Lower(phrase)[k] {
        assert answer[i..i + |phrase|][k] == phrase[k];
      }
    }
    assert OccursAt(low, NotFoundPhrase, i);
  }

  /**
   On ASCII answers the decision does not depend on letter case: lower-casing
   the answer first changes nothing. (Python's full `lower` can lengthen a
   non-ASCII answer, so the fact is stated for ASCII only.)
   */
  lemma FallbackIgnoresCase(answer: string)
    requires forall k :: 0 <= k < |answer| ==> answer[k] < '\U{80}'
    ensures NeedsPubMed(Lower(answer)) == NeedsPubMed(answer)
  {
    var low := Lower(answer);
    LowerIdempotent(answer);
    StrippedLengthWitness(answer);
    StrippedLengthWitness(low);
    forall k | 0 <= k < |answer| ensures IsSpace(low[k]) <==> IsSpace(answer[k]) {
      LowerCharKeepsSpace(answer[k]);
    }
  }
}
