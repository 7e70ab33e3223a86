/**
 `search_pubmed` in pubmed.py, from the `idlist` check onward. The esearch
 response is reduced to its `esearchresult.idlist` (absent, null or a list)
 and the efetch response to its text; the routine then walks the record
 blocks, appending one citation line per block to `articles`.
 */
module PubMed {
  import opened PyStr
  import opened Extraction

  /**
   The body of the `for` loop: the citation line of one record block. The
   `try`/`except` around it guards nothing that can fail on `str` values
   (`find`, slicing, `strip` and formatting never raise), so every block
   yields a line.
   */
  method ExtractLine(articleXml: string) returns (line: string)
    ensures line == Entry(articleXml)
  {
    var titleStart := Find(articleXml, TitleOpen, 0) + |TitleOpen|;
    var titleEnd := Find(articleXml, TitleClose, titleStart);
    var title := Strip(Slice(articleXml, titleStart, titleEnd));

    var pubDateStart := Find(articleXml, DateOpen, 0) + |DateOpen|;
    var pubDateEnd := Find(articleXml, DateClose, pubDateStart);
    var pubDate := Strip(Slice(articleXml, pubDateStart, pubDateEnd));

    var doi := "";
    if Contains(articleXml, DoiOpen) {
      var doiStart := Find(articleXml, DoiOpen, 0) + |DoiOpen|;
      var doiEnd := Find(articleXml, DoiClose, doiStart);
      doi := Strip(Slice(articleXml, doiStart, doiEnd));
    }

    line := "- " + title + " (" + pubDate + ") DOI: " + doi;
  }

  /** The body of `search_pubmed` after its HTTP calls. */
  method SearchPubmed(idlist: Option<seq<string>>, content: string) returns (result: string)
    ensures result == SearchResult(idlist, content)
  {
    if !IdsPresent(idlist) {
      return NotFound;
    }
    var articles: seq<string> := [];
    var articlesXml := Split(content, ArticleMarker)[1..];
    for n := 0 to |articlesXml|
      invariant |articles| == n
      invariant forall k :: 0 <= k < n ==> articles[k] == Entry(articlesXml[k])
    {
      var line := ExtractLine(articlesXml[n]);
      articles := articles + [line];
    }
    assert articles == Entries(articlesXml);
    assert articlesXml == Fragments(content);
    result := if |articles| > 0 then Join("\n", articles) else NotFound;
  }
}
