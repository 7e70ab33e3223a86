# PubMed citation extraction, modelled in Dafny

The medical question-answering assistant looks up articles on PubMed in two
steps. First an `esearch` call returns a list of identifiers. Then an `efetch`
call returns the articles as one XML text. The routine cuts that text at every
`<PubmedArticle>` marker, discarding the text before the first marker. From each
record block it takes:

- the title, between `<ArticleTitle>` and `</ArticleTitle>`;
- the publication date, between `<PubDate>` and `</PubDate>`;
- the DOI, between `<ArticleId IdType="doi">` and `</ArticleId>`, but only when
  that opening tag occurs in the block.

It does this with plain string searches (`find`, slicing, `strip`), not an XML
parser. It returns the lines `- <title> (<date>) DOI: <doi>` joined by newlines.
It returns the sentinel `Aucun article trouvé sur PubMed.` when there are no
identifiers or no lines.

The routine exists twice: as `search_pubmed` in `pubmed.py`, and as
`search_pubmed_tool` in the Streamlit page `scripts/app.py`. The page also
decides when to fall back to PubMed after the local retrieval chain has
answered. It falls back when the answer, lower-cased, contains `not found`, or
when the stripped answer is shorter than ten characters.

Modules:

- `PyStr` (pystr.dfy) gives the Python string operations the routine relies on,
  with their exact edge cases:
  - `find` returns -1 on a miss and normalises a negative start;
  - `in`;
  - slicing never fails: a negative bound counts from the end, and crossed
    bounds give an empty slice;
  - `strip` removes every `str.isspace` character;
  - `split` and `join`, with a count of non-overlapping occurrences;
  - ASCII `lower`.

  Their properties are proved from the definitions. `find` returns the first
  occurrence, `join` undoes `split`, and `split` undoes `join` when no part
  holds the one-character separator. Stripping is idempotent.
- `Extraction` (extraction.dfy) gives the routine's result as a function of its
  two inputs, and the lemmas about it.
- `PubMed` (pubmed.dfy) is `search_pubmed` as the loop it is. It is proved to
  compute that function.
- `App` (app.dfy) holds two things. The first is `search_pubmed_tool`, proved to
  agree with `search_pubmed`. The second is the fallback rule, with its
  properties.

The two HTTP responses become inputs:

- `idlist` is the `esearchresult.idlist` value. It is `None` when
  `esearchresult` is missing, or when its `idlist` key is missing or null, and
  `Some(ids)` otherwise.
- `content` is the text of the `efetch` response.

The per-record `try`/`except` looks as if it skips malformed records. Nothing
inside it can raise on `str` values: a missing tag only moves a `find` to -1,
and the slice then yields odd text. So every record block gives a line
(`Extraction.OneLinePerBlock`). The number of lines is the number of markers in
the fetched text, whatever the number of identifiers (`Extraction.IdsOnlyGate`).

## Model

| member | source | states |
|---|---|---|
| PubMed.SearchPubmed | pubmed.py:36-78 | The loop over the record blocks builds, in block order, exactly the line `Extraction.Entry` gives for each block. The method returns the sentinel without identifiers, the newline-joined lines when there are some, and the sentinel again when there are none. |
| PubMed.ExtractLine | pubmed.py:56-76 | One record block yields exactly its `Extraction.Entry` line: the title, the date and the DOI as the field lemmas below characterise them, and the DOI empty when its tag is absent. No input makes it fail, so no block is skipped. |
| App.SearchPubmedTool | scripts/app.py:49-88 | The page's copy of the lookup computes the same function of the identifier list and the fetched text. Its per-record block, lines 70-84, has the same statements as the library's, so it runs the same `PubMed.ExtractLine`. |
| App.ToolAgreesWithLibrary | scripts/app.py:35-88 | On the same two responses, `search_pubmed_tool` and `search_pubmed` return the same text. |
| Extraction.SearchResult | pubmed.py:36-78 | The result is never empty. It is the sentinel exactly when there are no identifiers or no `<PubmedArticle>` marker in the fetched text. |
| Extraction.NoIdsGivesSentinel | pubmed.py:36-37 | An absent, null or empty identifier list gives the sentinel, whatever the fetched text. |
| Extraction.IdsOnlyGate | pubmed.py:39-53 | Any two non-empty identifier lists give the same result on the same fetched text: the identifiers decide only whether the lookup proceeds. |
| Extraction.FragmentsCoverContent | pubmed.py:53 | Joining the preamble and the record blocks with the marker gives back the fetched text. No record block contains the marker. |
| Extraction.Fragments | pubmed.py:53 | There are exactly as many record blocks as non-overlapping occurrences of `<PubmedArticle>`. |
| Extraction.PreambleNeverReachesOutput | pubmed.py:53 | Text before the first marker is dropped: the blocks are the split of what follows it, and the result equals the result with the preamble removed. |
| Extraction.OneLinePerBlock | pubmed.py:55-76 | No block is skipped: there is one line per marker, and line k is the entry of block k. |
| Extraction.Entry | pubmed.py:74 | Every line is a `- ` list item, so no line is empty and none is the sentinel. |
| Extraction.FieldBetweenTags | pubmed.py:58-60 | With an opening tag at its first occurrence i and the first closing tag after it at j, the field is the stripped text from the end of that opening tag up to j. |
| Extraction.FieldWithoutOpenTag | pubmed.py:58-60 | A missing opening tag makes `find` return -1, so the search starts one character before the opening tag's length. The field is the stripped slice from there to the next closing tag. |
| Extraction.FieldWithoutCloseTag | pubmed.py:59-60 | A missing closing tag gives an end bound of -1: the field runs to the character before the block's last one, and is empty when that range is empty. |
| Extraction.MissingOpeningTags | pubmed.py:58-65 | A block without `<ArticleTitle>` is cut from offset 13, and one without `<PubDate>` from offset 8. |
| Extraction.Title | pubmed.py:58-60 | The title has no leading or trailing whitespace. |
| Extraction.PubDate | pubmed.py:63-65 | The date has no leading or trailing whitespace. |
| Extraction.Doi | pubmed.py:68-72 | The DOI has no leading or trailing whitespace. |
| Extraction.DoiAbsent | pubmed.py:68-69 | Without the DOI opening tag the DOI is empty, and the block's line ends in `DOI: `. |
| Extraction.DoiBetweenTags | pubmed.py:69-72 | With the DOI opening tag, the DOI is the stripped text between its first occurrence and the next `</ArticleId>`. |
| Extraction.ResultLines | pubmed.py:74-78 | When no line holds a newline, splitting the result on newlines gives back the block lines, as many as there are markers. |
| PyStr.IndexOfSpec | pubmed.py:58-59 | The search result is -1 or an occurrence with none before it. -1 means the substring does not occur. |
| PyStr.Find | pubmed.py:59 | `find` with a non-negative start never reports a match before that start. `FindSpec` states the rest. |
| PyStr.FindSpec | pubmed.py:59 | `find` from a start returns -1 or the first occurrence at or after the start. -1 means there is none. |
| PyStr.FindIsFirst | pubmed.py:58-59 | Given the first occurrence at or after the start, `find` returns it. |
| PyStr.FindMisses | pubmed.py:59 | With no occurrence at or after the start, `find` returns -1. |
| PyStr.ContainsIffFound | pubmed.py:69 | The `in` test holds exactly when `find` from 0 does not return -1. |
| PyStr.SliceFromEnd | pubmed.py:59-60 | A negative end bound no further back than the length counts from the end: it slices as that bound plus the length. |
| PyStr.SlicePastEnd | pubmed.py:60 | An end bound past the end of the text slices as the length. |
| PyStr.SliceBeforeStart | pubmed.py:60 | An end bound further back than the length gives empty text. |
| PyStr.Slice | pubmed.py:60 | Bounds inside the text cut exactly that range, and a start at or past the end gives empty text. |
| PyStr.SliceToMinusOne | pubmed.py:59-60 | Slicing up to -1 drops the last character, or gives nothing when the start is past it. |
| PyStr.StripStartSpec | pubmed.py:60 | Stripping the front leaves a suffix that does not start with whitespace, and only whitespace is cut. |
| PyStr.StripEndSpec | pubmed.py:60 | Stripping the back leaves a prefix that does not end with whitespace, and only whitespace is cut. |
| PyStr.Strip | pubmed.py:60 | The stripped text neither starts nor ends with whitespace. |
| PyStr.StripKeepsMiddle | pubmed.py:60 | The stripped text is a contiguous part of the input, and only whitespace lies on either side of it. |
| PyStr.StripOfPadded | pubmed.py:60 | Stripping whitespace padding off text that is already trimmed gives exactly that text. |
| PyStr.StripIdempotent | pubmed.py:60 | Stripping twice is stripping once. |
| PyStr.Split | pubmed.py:53 | A split always yields at least one piece, so the preamble and `[1:]` always exist. |
| PyStr.Join | pubmed.py:78 | Joining one part gives that part, and any join of parts starts with the first part. |
| PyStr.JoinSplit | pubmed.py:53 | Joining the segments of a split with the separator gives back the text. |
| PyStr.SplitPiecesFree | pubmed.py:53 | No segment of a split contains the separator. |
| PyStr.SplitCount | pubmed.py:53 | A split has one more segment than there are non-overlapping occurrences of the separator. |
| PyStr.Count | pubmed.py:53 | The counted occurrences do not overlap: their total length fits in the text. |
| PyStr.CountWithoutOccurrence | pubmed.py:53 | Text with no occurrence of the separator has count zero. |
| PyStr.CountSkipsPrefix | pubmed.py:53 | A prefix holding no occurrence does not change the count. |
| PyStr.SplitJoin | pubmed.py:78 | Joining parts with a one-character separator none of them contains, and splitting again, gives back the parts. |
| App.StrippedLengthWitness | scripts/app.py:180 | The stripped answer has at least ten characters exactly when two non-space characters at least nine positions apart exist in it. |
| App.NeedsPubMed | scripts/app.py:180 | The page falls back exactly when the lower-cased answer contains `not found`, or has no two non-space characters nine or more positions apart. |
| App.BlankAnswerFallsBack | scripts/app.py:180 | An empty or all-whitespace answer falls back. |
| App.ShortAnswerFallsBack | scripts/app.py:180 | An answer shorter than ten characters falls back, whatever it says. |
| App.SaysNotFoundFallsBack | scripts/app.py:180 | An answer containing `not found` in any mix of upper and lower case falls back. |
| PyStr.LowerIdempotent | scripts/app.py:180 | Lower-casing twice is lower-casing once. |
| PyStr.LowerCharKeepsSpace | scripts/app.py:180 | Lower-casing a character neither creates nor removes whitespace, so it leaves the stripped length alone. |
| App.FallbackIgnoresCase | scripts/app.py:180 | For an ASCII answer, lower-casing it first does not change the decision. |

## Left out

- The HTTP requests, `raise_for_status` and the JSON decoding are inputs: the model starts from the decoded `idlist` and the response text. A failed request, a body that is not JSON, or an `esearchresult` that is present but null (which raises in the code) is not modelled.
- `max_results` and the query only shape the requests. The comma-join of the identifiers only builds the fetch URL. Neither reaches the extraction.
- The text is searched as a string, as the code does. XML entities, CDATA and nested markup inside a title are not interpreted, neither by the code nor by the model.
- App.FallbackIgnoresCase: stated for ASCII answers only. With Python's full `lower`, some non-ASCII capitals become two code points (`İ` becomes `i̇`), so an answer of five such letters falls back while its lower-cased form does not.
- PyStr.Find: its own contract only says a match is never before the start; the full first-occurrence contract is the lemma `PyStr.FindSpec`, kept off the function because every proof that unfolds a split would otherwise carry it.
- PyStr.Lower: only ASCII letters are lower-cased. In Unicode's case tables only two non-ASCII characters lower-case to anything ASCII (U+0130 to `i` plus a combining dot, U+212A to `k`), and neither gives a letter of `not found` or a space, so for the `not found` test ASCII folding gives Python's answer on every input.
- The `try`/`except` around each record is absent: on string values nothing in it raises, so no record is skipped.
- The `authors` and `abstract` fields of the article record type are never filled by the extraction, so they are not modelled.
- The tool list, the Streamlit page layout, the vector-store loading, the embedding and language-model calls, the agent fallback and the document ingestion script are outside the extraction and are not modelled.
- The browser script `script.js` is not part of this model.
