# Risk assessment pipeline of the compliance MVP backend

A Dafny model of the document-to-risk-assessment pipeline of
`backend/main.py`. The model covers four parts.

- **Scorer.** The fixed `RISK_WEIGHTS` lexicon and the weighted scorer that
  flags every term occurring in the lower-cased text. It sums the flagged
  weights and normalises the score to `min(total / 100, 1)`.
- **Summariser.** It splits the text with `re.split(r"(?<=[.!?])\s+", text)`,
  strips each piece and drops empty ones. It keeps the sentences that mention
  a flagged term, or else the first sentence. It joins them with `". "` and
  appends `"."`. It also picks the recommendation.
- **Extraction dispatch of `analyze`.** Bytes starting with `%PDF` go to the
  optional PDF library, page by page, with the pages joined by newlines. Other
  bytes are decoded as UTF-8 with `errors="ignore"`. An empty result falls
  back to decoding the first 500 bytes.
- **In-memory store.** The `FILES` and `ANALYSES` dictionaries, as changed by
  `upload_file`, `analyze` and `get_analysis`.

Everything is a pure function of its inputs:

- The PDF library is a parameter (`Extraction.PdfSupport`): absent, or a
  function from bytes to "unreadable" or a list of per-page optional texts.
- The store is a value passed in and returned, not a global.
- An `HTTPException` is a `FileStore.Failure(status, detail)` value.

UTF-8 decoding is modelled concretely. `Utf8.Decode` follows CPython's
decoder: each well-formed sequence becomes its character, and each maximal
ill-formed subpart is dropped. Python's `str.isspace` (the same set `\s`
matches in a `str` pattern) is written out as `Text.IsSpace`.

Modules, one file each (`store.dfy` holds `FileStore` and `Endpoints`):

- `Wrappers`
- `Text`
- `Seqs`
- `Lexicon`
- `Scorer`
- `SentenceSplit`
- `Summary`
- `Utf8`
- `Extraction`
- `Analysis`
- `Decimal`
- `FileStore`
- `Endpoints`

### Where the code and its own description part ways

The model follows the code in both of these cases.

- **Doubled period.** Sentence punctuation stays attached to each sentence,
  and `'.'` is appended after the join. So a single selected sentence ending
  in `.` gives a summary ending in `..` (`Summary.SingleSentencePeriod`).
- **The fallback adds nothing for non-PDF input.** The fallback at
  backend/main.py:261-263 reads as a rescue for failed extraction. For
  non-PDF input it never changes the text: the preview decodes to a prefix
  of the full decoding (`Extraction.NonPdfTextIsDecoded`). It also does not
  guarantee non-empty text: the single byte `0xFF` gives `""`
  (`Extraction.NonEmptyBytesEmptyText`). Only for `%PDF` input does it
  guarantee text (`Extraction.PdfTextNonEmpty`).

The docstring of `analyze` (backend/main.py:241-242) says the score is
computed from term frequency relative to word count. The code calls
`enhanced_risk_analysis`, whose score depends only on which terms occur.

## Model

| member | source | states |
|---|---|---|
| Lexicon.RiskWeightsWellFormed | backend/main.py:163-174 | the ten shipped terms are distinct, non-empty, lower-case, free of `.`, `!`, `?` and of whitespace at either end; every weight is positive and the weights add up to 180, so the cap at 100 can be reached |
| Scorer.ScoreTerms | backend/main.py:187-192 | the loop over the table in definition order ends with exactly the terms the text contains, in table order, and the sum of exactly their weights |
| Scorer.FlaggedMembership | backend/main.py:189-191 | a string is flagged if and only if it is a lexicon term that is a substring of the lower-cased text |
| Scorer.FlaggedIsSubsequence | backend/main.py:189-191 | the flagged terms appear in the table's definition order |
| Scorer.FlaggedDistinct | backend/main.py:189-191 | with distinct table terms no term is flagged twice |
| Scorer.TotalIsSumOfFlaggedWeights | backend/main.py:189-192 | the running total equals the sum, over the flagged terms, of each term's table weight |
| Scorer.TotalZeroIffNothingFlagged | backend/main.py:188-192 | with positive weights the total is 0 exactly when nothing is flagged |
| Scorer.TotalAtMostMax | backend/main.py:188-192 | the total never exceeds the sum of all table weights |
| Scorer.RiskScore | backend/main.py:194 | the score is `min(total, 100) / 100`: it lies in [0, 1], is 0 exactly for a zero total and 1 exactly when the total reaches 100 |
| Scorer.RiskScoreMonotone | backend/main.py:194 | a larger total never gives a lower score |
| Scorer.Recommendation | backend/main.py:204-210 | the review advice exactly when something is flagged, the no-risk advice exactly when nothing is |
| Text.StripSpec | backend/main.py:196 | `strip` removes only whitespace, from both ends, and stops at the first and last non-whitespace characters |
| Text.StripTrimmed | backend/main.py:196 | a stripped string is empty or has no whitespace at either end, and it is empty exactly when the input is all whitespace |
| SentenceSplit.NextBoundaryIsFirst | backend/main.py:196 | the split cuts at the leftmost whitespace character that follows `.`, `!` or `?` |
| SentenceSplit.SplitReconstructs | backend/main.py:196 | the pieces interleaved with the removed runs give back the text: the split loses nothing but the runs it cuts at |
| SentenceSplit.SplitGapsAreSpace | backend/main.py:196 | every removed run is non-empty whitespace |
| SentenceSplit.SplitPiecesEnd | backend/main.py:196 | there is one more piece than removed runs, and every piece before a cut ends with `.`, `!` or `?` |
| SentenceSplit.SplitPiecesStart | backend/main.py:196 | the greedy `\s+` takes the whole whitespace run: no non-empty piece after a cut starts with whitespace |
| SentenceSplit.SplitPiecesUnbroken | backend/main.py:196 | no piece holds a further match of the pattern |
| SentenceSplit.SentencesFromPieces | backend/main.py:196 | every sentence is non-empty and trimmed; the sentences are the stripped pieces in order; each non-empty stripped piece occurs among the sentences exactly as often as among the stripped pieces, so every piece with non-whitespace content yields a sentence of its own |
| SentenceSplit.SentencesEmptyIff | backend/main.py:196 | there are no sentences exactly when the text is all whitespace |
| SentenceSplit.OccurrenceInSomeSentence | backend/main.py:196-199 | an occurrence in the lower-cased text of a word that starts and ends with non-whitespace and holds no whitespace after `.`, `!` or `?` lies inside some sentence |
| Summary.SelectIsFilter | backend/main.py:197-200 | the selection is an order-preserving subsequence of the sentences that keeps every copy of each sentence mentioning a flagged term and no copy of any other; it is empty exactly when none mentions one |
| Summary.SelectNothingFlagged | backend/main.py:197-200 | with nothing flagged no sentence is selected |
| Summary.Seed | backend/main.py:197-202 | after the fallback the kept sentences are empty exactly when there are no sentences, and they stay in text order |
| Summary.SeedFallback | backend/main.py:201-202 | the fallback to the first sentence alone happens exactly when no sentence mentions a flagged term; otherwise the kept sentences are the selection itself, precisely the mentioning sentences |
| Summary.Render | backend/main.py:203 | the summary is empty exactly when nothing is kept and otherwise ends with `.` |
| Summary.RenderShape | backend/main.py:203 | the summary's length is the sentences' lengths plus two per `". "` separator plus one; it starts with the first kept sentence and ends with the last one followed by `.` |
| Summary.SingleSentencePeriod | backend/main.py:203 | a single kept sentence ending in `.` is rendered with a doubled period |
| Analysis.ScoreAndFlags | backend/main.py:186-210 | the assessment's flagged terms are exactly the lexicon terms in the lower-cased text, in table order, each once; its score is the capped sum of their weights, in [0, 1], and 0 exactly when nothing is flagged; its recommendation is the review advice exactly when something is flagged |
| Analysis.SummaryEmptyIff | backend/main.py:196-203 | the summary is empty exactly when the text is all whitespace |
| Analysis.FlaggedTermInSomeSentence | backend/main.py:189-200 | every flagged term of the shipped kind occurs in some sentence, so flagged terms always select a sentence |
| Analysis.SummarySentences | backend/main.py:196-202 | with something flagged, the kept sentences are non-empty and are the selection itself: every copy of each sentence mentioning a flagged term, nothing else; with nothing flagged, only the first sentence is kept |
| Analysis.EmptyText | backend/main.py:176-216 | the empty text flags nothing, scores 0, has an empty summary and gets the no-risk advice |
| Utf8.DecodeEncode | backend/main.py:257 | decoding undoes UTF-8 encoding for every string |
| Utf8.DecodeEncodeAppend | backend/main.py:257 | well-formed text followed by any bytes decodes to that text followed by the decoding of those bytes alone, so ill-formed input never disturbs the text before it |
| Utf8.DecodeLength | backend/main.py:257 | decoding never yields more characters than there are bytes |
| Utf8.DecodeAscii | backend/main.py:257 | ASCII bytes decode one for one to the characters with the same code |
| Utf8.StepTruncate | backend/main.py:263 | a decoding step on cut-short bytes agrees with the full step when that step ends within the cut, and otherwise drops everything up to the cut |
| Utf8.DecodePrefix | backend/main.py:263 | decoding a prefix of the bytes gives a prefix of the decoded text |
| Utf8.InvalidLeadVanishes | backend/main.py:257 | a byte that cannot start a sequence is ignored: decoding carries on with the bytes after it as if it were absent |
| Utf8.InvalidByteVanishes | backend/main.py:257 | the non-empty input `[0xFF]` decodes to `""` |
| Extraction.PdfTextEmptyIff | backend/main.py:72-85 | the PDF path yields `""` exactly when the library is missing, cannot read the document, or finds at most one page and no page text |
| Extraction.PdfPagesRoundTrip | backend/main.py:77-83 | the PDF text holds each page's text in page order, with failed pages as `""`: splitting on newlines gives the pages back when no page text holds a newline |
| Extraction.PdfTextLength | backend/main.py:83 | the PDF text is the page texts plus one newline between neighbouring pages |
| Extraction.Preview | backend/main.py:263 | the preview is a prefix of the data, of length 500 or the whole data if shorter |
| Extraction.PdfTextNonEmpty | backend/main.py:252-263 | a `%PDF` document always yields text; when the PDF path yields none, the fallback text starts with `%` |
| Extraction.NonPdfTextIsDecoded | backend/main.py:252-263 | for any other bytes the text scored is the full UTF-8 decoding: the fallback never changes it |
| Extraction.NonEmptyBytesEmptyText | backend/main.py:252-263 | non-empty bytes can leave no text: `[0xFF]` gives `""` even after the fallback |
| Decimal.ParseNatToString | backend/main.py:229 | the decimal rendering of a number is all digits and parses back to the number |
| Decimal.NatToStringInjective | backend/main.py:229 | different numbers render differently |
| FileStore.FileId | backend/main.py:229 | every identifier starts with `file_` |
| FileStore.FileIdInjective | backend/main.py:229 | different upload counts give different identifiers |
| FileStore.IdsUpToSucc | backend/main.py:229 | the next identifier is not among the earlier ones, and issuing it extends the set of issued identifiers by exactly it |
| FileStore.EmptyStoreValid | backend/main.py:219-220 | the empty store holds exactly the identifiers of zero uploads and no analyses |
| FileStore.UploadEmpty | backend/main.py:227-228 | empty contents are refused with 400 "Empty file" and the store is unchanged |
| FileStore.UploadFresh | backend/main.py:229-231 | other contents are stored under an identifier no file has yet; no other file and no analysis changes, the store grows by one, and it stays valid |
| FileStore.GetAnalysis | backend/main.py:281-283 | a result is returned exactly when one is recorded for the identifier |
| FileStore.RecordSpec | backend/main.py:274 | after recording, the identifier serves the new result, replacing any earlier one; other identifiers and all files are unchanged, the store stays valid, and recording again changes nothing |
| FileStore.NoAnalysisWithoutFile | backend/main.py:281-282 | in a valid store an identifier that was never uploaded gets 404 "Analysis not found" |
| Endpoints.AnalyzeUnknown | backend/main.py:245-247 | analysing an identifier not in `FILES` is refused with 404 "File not found" and changes nothing |
| Endpoints.AnalyzeThenGet | backend/main.py:245-283 | analysing a stored file returns a result for that identifier, which `get_analysis` then serves; files and other analyses are unchanged, the store stays valid, and analysing again gives the same store and result |
| Endpoints.ResultScoresStoredText | backend/main.py:249-275 | the stored result scores the text extracted from the stored bytes: score in [0, 1], 0 exactly when nothing is flagged, flagged terms exactly the lexicon terms in the lower-cased text |

## Left out

- FastAPI, the CORS middleware, pydantic models and async/await are host plumbing. An HTTP error is a `Failure(status, detail)` value.
- The `filename` echoed by `upload_file` (backend/main.py:231) is not modelled: it is neither stored nor used.
- The PDF library's internals (backend/main.py:25-31, 75-79) are not modelled. The library is a parameter mapping bytes to `Unreadable` or per-page optional texts. A page whose `extract_text()` raises or returns `None` is `None` here.
- `risk_score` is a Python float. The model uses exact reals, `min(total, 100) / 100`, and leaves out binary rounding.
- Text.Lower: lower-cases ASCII letters only, not all of Unicode as `str.lower()` does. This is weaker than the source for non-ASCII text. Every lexicon term is plain lower-case ASCII, so flagging ASCII text is unaffected.
- Encoding (`Utf8.Encode`) is not used by the backend. It serves only as the reference that `Utf8.DecodeEncode` inverts.
- The `except` branch around the UTF-8 decode (backend/main.py:258-259) is left out: decoding with `errors="ignore"` cannot raise, so that branch is dead.
- `simple_text_analysis` (backend/main.py:88-154) is dead code: `analyze` never calls it.
- `scripts/lead_scraper.py` (network fetching and HTML scraping) is outside this model.
- Concurrency between requests is not modelled. Each endpoint is one atomic step on the store.
- `Analysis.Analyze` returns the two `details` entries (`flagged_terms`, `recommendations`) as fields beside `summary` and `risk_score`, not as a nested dictionary.
