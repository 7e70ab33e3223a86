/**
 What the PubMed lookup returns once its two HTTP calls are done: the
 identifier list from the esearch JSON and the efetch XML text are inputs,
 and the result is a pure function of them. The text is cut into record
 blocks on `<PubmedArticle>`, each block yields one citation line
 `- {title} ({pub_date}) DOI: {doi}` by substring search, and the lines are
 joined with newlines, with a fixed French sentinel when there is nothing
 to show. Both copies of the routine (pubmed.py and scripts/app.py) are
 proved against these definitions.
 */
module Extraction {
  import opened PyStr

  datatype Option<+T> = None | Some(value: T)

  const NotFound: string := "Aucun article trouvé sur PubMed."
  const ArticleMarker: string := "<PubmedArticle>"
  const TitleOpen: string := "<ArticleTitle>"
  const TitleClose: string := "</ArticleTitle>"
  const DateOpen: string := "<PubDate>"
  const DateClose: string := "</PubDate>"
  const DoiOpen: string := "<ArticleId IdType=\"doi\">"
  const DoiClose: string := "</ArticleId>"

  /** Python truthiness of `esearchresult.idlist`: absent, null and `[]` are all false. */
  predicate IdsPresent(idlist: Option<seq<string>>)
  {
    idlist.Some? && |idlist.value| > 0
  }

  /**
   The text from index `start` up to the first `close` at or after it, with
   surrounding whitespace stripped. When `close` is missing, `find` gives -1
   and the slice ends before the fragment's last character.
   */
  function FieldFrom(frag: string, start: int, close: string): string
  {
    Strip(Slice(frag, start, Find(frag, close, start)))
  }

  /**
   One field by substring search: from just after the first `open` (or from
   `|open| - 1` when `open` is missing, since `find` then gives -1) up to the
   first `close` after that.
   */
  function Field(frag: string, open: string, close: string): string
  {
    FieldFrom(frag, Find(frag, open, 0) + |open|, close)
  }

  /** The title: never padded with whitespace. */
  function Title(frag: string): (t: string)
    ensures Trimmed(t)
  {
    Field(frag, TitleOpen, TitleClose)
  }

  /** The publication date, free-form: never padded with whitespace. */
  function PubDate(frag: string): (d: string)
    ensures Trimmed(d)
  {
    Field(frag, DateOpen, DateClose)
  }

  /** The DOI, only looked for when its typed identifier tag occurs at all: never padded with whitespace. */
  function Doi(frag: string): (d: string)
    ensures Trimmed(d)
  {
    if Contains(frag, DoiOpen) then Field(frag, DoiOpen, DoiClose) else ""
  }

  /** The display line of one record block: always a `- ` list item. */
  function Entry(frag: string): (e: string)
    ensures |e| > 2 && e[..2] == "- "
  {
    "- " + Title(frag) + " (" + PubDate(frag) + ") DOI: " + Doi(frag)
  }

  /** Everything before the first record marker. */
  function Preamble(content: string): string
  {
    Split(content, ArticleMarker)[0]
  }

  /** `content.split("<PubmedArticle>")[1:]`: the record blocks, one per non-overlapping occurrence of the marker. */
  function Fragments(content: string): (f: seq<string>)
    ensures |f| == Count(content, ArticleMarker)
  {
    SplitCount(content, ArticleMarker);
    Split(content, ArticleMarker)[1..]
  }

  /** One display line per record block, in block order. */
  function Entries(frags: seq<string>): (r: seq<string>)
    ensures |r| == |frags|
    ensures forall k :: 0 <= k < |frags| ==> r[k] == Entry(frags[k])
  {
    seq(|frags|, k requires 0 <= k < |frags| => Entry(frags[k]))
  }

  /** `"\n".join(articles) if articles else` the sentinel. */
  function Render(entries: seq<string>): string
  {
    if |entries| > 0 then Join("\n", entries) else NotFound
  }

  /**
   The value the lookup returns for a given identifier list and fetched
   text. It is never empty, and it is the sentinel exactly when there are no
   identifiers or no record blocks.
   */
  function SearchResult(idlist: Option<seq<string>>, content: string): (r: string)
    ensures r != ""
    ensures r == NotFound <==> !IdsPresent(idlist) || Count(content, ArticleMarker) == 0
  {
    var es := Entries(Fragments(content));
    assert IdsPresent(idlist) && |es| > 0 ==> Join("\n", es)[0] == es[0][0] == '-';
    assert NotFound[0] == 'A';
    if !IdsPresent(idlist) then NotFound else Render(Entries(Fragments(content)))
  }

  // ---------------------------------------------------------------------------
  // The sentinel and the identifier list

  /** Without identifiers the result is the sentinel, whatever the fetched text. */
  lemma NoIdsGivesSentinel(idlist: Option<seq<string>>, content: string, other: string)
    requires !IdsPresent(idlist)
    ensures SearchResult(idlist, content) == NotFound
    ensures SearchResult(idlist, content) == SearchResult(idlist, other)
  {
  }

  /** The identifiers only gate the lookup: which ones, and how many, never shape the output. */
  lemma IdsOnlyGate(a: seq<string>, b: seq<string>, content: string)
    requires |a| > 0 && |b| > 0
    ensures SearchResult(Some(a), content) == SearchResult(Some(b), content)
  {
  }

  // ---------------------------------------------------------------------------
  // Record blocks

  /** The blocks are the segments after the first in a split on the marker, and nothing is lost. */
  lemma FragmentsCoverContent(content: string)
    ensures Join(ArticleMarker, [Preamble(content)] + Fragments(content)) == content
    ensures forall k :: 0 <= k < |Fragments(content)| ==> !Contains(Fragments(content)[k], ArticleMarker)
  {
    var parts := Split(content, ArticleMarker);
    assert [parts[0]] + parts[1..] == parts;
    JoinSplit(content, ArticleMarker);
    forall k | 0 <= k < |Fragments(content)|
      ensures !Contains(Fragments(content)[k], ArticleMarker)
    {
      SplitPiecesFree(content, ArticleMarker, k + 1);
    }
  }

  /** The marker cannot overlap a copy of itself: its `<` appears only at index 0. */
  lemma MarkerHasNoBorder(k: int)
    requires 0 < k < |ArticleMarker|
    ensures ArticleMarker[k] != '<'
  {
  }

  /** Text before the first marker never reaches the output. */
  lemma {:induction false} PreambleNeverReachesOutput(idlist: Option<seq<string>>, p: string, rest: string)
    requires !Contains(p, ArticleMarker)
    ensures Fragments(p + ArticleMarker + rest) == Split(rest, ArticleMarker)
    ensures SearchResult(idlist, p + ArticleMarker + rest) == SearchResult(idlist, ArticleMarker + rest)
  {
    var m := ArticleMarker;
    forall p' | !Contains(p', m)
      ensures Fragments(p' + m + rest) == Split(rest, m)
    {
      var s := p' + m + rest;
      assert OccursAt(s, m, |p'|) by {
        assert s[|p'|..|p'| + |m|] == m;
      }
      forall j | 0 <= j < |p'| ensures !OccursAt(s, m, j) {
        if OccursAt(s, m, j) {
          if j + |m| <= |p'| {
            assert s[j..j + |m|] == p'[j..j + |m|];
            assert OccursAt(p', m, j);
          } else {
            var k := |p'| - j;
            assert s[|p'|] == m[0] == '<';
            assert s[j..j + |m|][k] == s[|p'|];
            MarkerHasNoBorder(k);
          }
          assert false;
        }
      }
      FindIsFirst(s, m, 0, |p'|);
      assert s[|p'| + |m|..] == rest;
    }
    assert !Contains([], m);
    assert [] + m + rest == m + rest;
  }

  // ---------------------------------------------------------------------------
  // Fields of one block

  /** A field in terms of the two `find` results it is cut between. */
  lemma FieldByFinds(frag: string, open: string, close: string, i: int, e: int)
    requires Find(frag, open, 0) == i && Find(frag, close, i + |open|) == e
    ensures Field(frag, open, close) == Strip(Slice(frag, i + |open|, e))
  {
  }

  /** With both tags in place, a field is the stripped text strictly between the first opening tag and the first closing tag after it. */
  lemma FieldBetweenTags(frag: string, open: string, close: string, i: nat, j: nat)
    requires OccursAt(frag, open, i) && forall k :: 0 <= k < i ==> !OccursAt(frag, open, k)
    requires i + |open| <= j && OccursAt(frag, close, j)
    requires forall k :: i + |open| <= k < j ==> !OccursAt(frag, close, k)
    ensures Field(frag, open, close) == Strip(frag[i + |open|..j])
  {
    assert Find(frag, open, 0) == i by { FindIsFirst(frag, open, 0, i); }
    assert Find(frag, close, i + |open|) == j by { FindIsFirst(frag, close, i + |open|, j); }
    FieldByFinds(frag, open, close, i, j);
    assert Slice(frag, i + |open|, j) == frag[i + |open|..j];
  }

  /** A missing opening tag does not fail: `find` gives -1, so the search starts at `|open| - 1`. */
  lemma FieldWithoutOpenTag(frag: string, open: string, close: string)
    requires !Contains(frag, open)
    ensures Field(frag, open, close) == Strip(Slice(frag, |open| - 1, Find(frag, close, |open| - 1)))
  {
    ContainsIffFound(frag, open);
    FieldByFinds(frag, open, close, -1, Find(frag, close, |open| - 1));
  }

  /** A missing closing tag does not fail either: the -1 end bound cuts the block's last character. */
  lemma FieldWithoutCloseTag(frag: string, open: string, close: string, i: nat)
    requires OccursAt(frag, open, i) && forall k :: 0 <= k < i ==> !OccursAt(frag, open, k)
    requires forall k :: i + |open| <= k ==> !OccursAt(frag, close, k)
    ensures Field(frag, open, close) ==
      if i + |open| < |frag| then Strip(frag[i + |open|..|frag| - 1]) else ""
  {
    var start := i + |open|;
    FindIsFirst(frag, open, 0, i);
    FindMisses(frag, close, start);
    FieldByFinds(frag, open, close, i, -1);
    SliceToMinusOne(frag, start);
    if start >= |frag| {
      StripOfPadded([], [], []);
    }
  }

  /** The offsets a missing `<ArticleTitle>` or `<PubDate>` produce: 13 and 8. */
  lemma MissingOpeningTags(frag: string)
    ensures !Contains(frag, TitleOpen) ==>
      Title(frag) == Strip(Slice(frag, 13, Find(frag, TitleClose, 13)))
    ensures !Contains(frag, DateOpen) ==>
      PubDate(frag) == Strip(Slice(frag, 8, Find(frag, DateClose, 8)))
  {
    if !Contains(frag, TitleOpen) { FieldWithoutOpenTag(frag, TitleOpen, TitleClose); }
    if !Contains(frag, DateOpen) { FieldWithoutOpenTag(frag, DateOpen, DateClose); }
  }

  /** Without the DOI tag the DOI is empty and the line ends in `DOI: `. */
  lemma DoiAbsent(frag: string)
    requires !Contains(frag, DoiOpen)
    ensures Doi(frag) == ""
    ensures var e := Entry(frag); |e| >= 5 && e[|e| - 5..] == "DOI: "
  {
    var line := "- " + Title(frag) + " (" + PubDate(frag) + ") DOI: ";
    assert Entry(frag) == line + Doi(frag);
    assert line[|line| - 7..] == ") DOI: ";
    assert line[|line| - 5..] == ") DOI: "[2..];
  }

  /** With the DOI tag, the DOI is the stripped text after its first occurrence, up to the next `</ArticleId>`. */
  lemma DoiBetweenTags(frag: string, i: nat, j: nat)
    requires OccursAt(frag, DoiOpen, i) && forall k :: 0 <= k < i ==> !OccursAt(frag, DoiOpen, k)
    requires i + |DoiOpen| <= j && OccursAt(frag, DoiClose, j)
    requires forall k :: i + |DoiOpen| <= k < j ==> !OccursAt(frag, DoiClose, k)
    ensures Doi(frag) == Strip(frag[i + |DoiOpen|..j])
  {
    assert Contains(frag, DoiOpen);
    FieldBetweenTags(frag, DoiOpen, DoiClose, i, j);
  }

  // ---------------------------------------------------------------------------
  // The joined result

  /** Extraction is total: one line per record block, in block order, none dropped. */
  lemma OneLinePerBlock(content: string)
    ensures |Entries(Fragments(content))| == Count(content, ArticleMarker)
    ensures forall k :: 0 <= k < |Fragments(content)| ==>
      Entries(Fragments(content))[k] == Entry(Fragments(content)[k])
  {
  }

  /** When no field holds a newline, splitting the result on newlines gives back the lines, one per block. */
  lemma ResultLines(idlist: Option<seq<string>>, content: string)
    requires IdsPresent(idlist) && Count(content, ArticleMarker) > 0
    requires forall k :: 0 <= k < |Fragments(content)| ==> !Contains(Entry(Fragments(content)[k]), "\n")
    ensures Split(SearchResult(idlist, content), "\n") == Entries(Fragments(content))
    ensures |Split(SearchResult(idlist, content), "\n")| == Count(content, ArticleMarker)
  {
    SplitJoin(Entries(Fragments(content)), "\n");
  }
}
