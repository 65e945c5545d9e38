/** The in-memory `FILES` and `ANALYSES` dictionaries of backend/main.py and
    the three ways the endpoints touch them: storing an upload under the next
    identifier, recording an analysis result, and looking one up. The store is
    passed in and returned instead of being a global; it is generic in the
    result type `R`. */
module FileStore {
  import opened Utf8
  import opened Decimal

  /** `FILES` and `ANALYSES`. */
  datatype Store<R> = Store(files: map<string, seq<byte>>, analyses: map<string, R>)

  /** A reply: the value, or the `HTTPException` raised instead. */
  datatype Response<T> = Ok(value: T) | Failure(status: nat, detail: string)

  function EmptyStore<R>(): Store<R>
  {
    Store(map[], map[])
  }

  /** `f"file_{k}"`. */
  function FileId(k: nat): (id: string)
    ensures |id| > 5 && id[..5] == "file_"
  {
    "file_" + NatToString(k)
  }

  /** Identifiers of different numbers differ. */
  lemma FileIdInjective(a: nat, b: nat)
    requires FileId(a) == FileId(b)
    ensures a == b
  {
    assert FileId(a)[5..] == NatToString(a);
    assert FileId(b)[5..] == NatToString(b);
    NatToStringInjective(a, b);
  }

  /** The identifiers of the first `n` uploads. */
  function IdsUpTo(n: nat): set<string>
  {
    set k | 1 <= k <= n :: FileId(k)
  }

  /** What every reachable store satisfies: the files are exactly the first
      `|files|` identifiers, and only uploaded files have analyses. */
  predicate Valid<R>(st: Store<R>) {
    && st.files.Keys == IdsUpTo(|st.files|)
    && st.analyses.Keys <= st.files.Keys
  }

  /** `upload_file`: empty contents are refused with 400; otherwise the bytes
      are stored under the next identifier, which is returned. */
  function Upload<R>(st: Store<R>, contents: seq<byte>): (Store<R>, Response<string>)
  {
    if |contents| == 0 then (st, Failure(400, "Empty file"))
    else
      var id := FileId(|st.files| + 1);
      (st.(files := st.files[id := contents]), Ok(id))
  }

  /** `ANALYSES[file_id] = result`. */
  function Record<R>(st: Store<R>, id: string, result: R): Store<R>
  {
    st.(analyses := st.analyses[id := result])
  }

  /** `get_analysis`: the latest result for the identifier, or 404. */
  function GetAnalysis<R>(st: Store<R>, id: string): (r: Response<R>)
    ensures r.Ok? <==> id in st.analyses
  {
    if id in st.analyses then Ok(st.analyses[id]) else Failure(404, "Analysis not found")
  }

  /** The fresh store is valid. */
  lemma EmptyStoreValid<R>()
    ensures Valid(EmptyStore<R>())
  {
    assert IdsUpTo(0) == {};
  }

  /** One more identifier extends the set of identifiers by exactly it, and
      it is not among the earlier ones. */
  lemma IdsUpToSucc(n: nat)
    ensures FileId(n + 1) !in IdsUpTo(n)
    ensures IdsUpTo(n + 1) == IdsUpTo(n) + {FileId(n + 1)}
  {
    if FileId(n + 1) in IdsUpTo(n) {
      var k :| 1 <= k <= n && FileId(k) == FileId(n + 1);
      FileIdInjective(k, n + 1);
    }
  }

  /** Adding a fresh key grows a map by exactly that key. */
  lemma AddFreshKey<V>(m: map<string, V>, id: string, v: V)
    requires id !in m
    ensures m[id := v].Keys == m.Keys + {id}
    ensures |m[id := v]| == |m| + 1
  {
    assert m[id := v].Keys == m.Keys + {id};
  }

  /** An upload of empty contents is refused and changes nothing. */
  lemma UploadEmpty<R>(st: Store<R>)
    ensures Upload(st, []) == (st, Failure(400, "Empty file"))
  {
  }

  /** Any other upload stores the contents under an identifier no earlier
      upload has, leaves every other file and all analyses alone, and keeps
      the store valid. */
  lemma UploadFresh<R>(st: Store<R>, contents: seq<byte>)
    requires Valid(st)
    requires |contents| > 0
    ensures var (st', r) := Upload(st, contents);
      && r.Ok?
      && r.value !in st.files
      && st'.files == st.files[r.value := contents]
      && st'.analyses == st.analyses
      && |st'.files| == |st.files| + 1
      && Valid(st')
  {
    var n := |st.files|;
    IdsUpToSucc(n);
    AddFreshKey(st.files, FileId(n + 1), contents);
  }

  /** Recording a result for a stored file makes it what `get_analysis`
      serves for that file, changes nothing for any other identifier, leaves
      the files alone and keeps the store valid; recording the same result
      again changes nothing. */
  lemma RecordSpec<R>(st: Store<R>, id: string, result: R)
    requires Valid(st)
    requires id in st.files
    ensures var st' := Record(st, id, result);
      && GetAnalysis(st', id) == Ok(result)
      && st'.files == st.files
      && (forall other :: other != id ==> GetAnalysis(st', other) == GetAnalysis(st, other))
      && Valid(st')
      && Record(st', id, result) == st'
  {
    var st' := Record(st, id, result);
    assert st'.analyses[id := result] == st'.analyses;
  }

  /** `get_analysis` never serves a result for an identifier that was never
      uploaded. */
  lemma NoAnalysisWithoutFile<R>(st: Store<R>, id: string)
    requires Valid(st)
    requires id !in st.files
    ensures GetAnalysis(st, id) == Failure(404, "Analysis not found")
  {
  }
}

/** `analyze` of backend/main.py over the store. */
module Endpoints {
  import opened Utf8
  import opened Extraction
  import opened Text
  import opened Lexicon
  import opened Analysis
  import opened FileStore

  /** `AnalysisResult`: the file it belongs to and the assessment's fields. */
  datatype AnalysisResult = AnalysisResult(
    fileId: string,
    summary: string,
    riskScore: real,
    flaggedTerms: seq<string>,
    recommendations: string)

  /** The result `analyze` builds for the bytes stored under `id`. */
  function ResultFor(pdf: PdfSupport, id: string, data: seq<byte>): AnalysisResult
  {
    var a := EnhancedRiskAnalysis(DocumentText(pdf, data));
    AnalysisResult(id, a.summary, a.riskScore, a.flaggedTerms, a.recommendation)
  }

  /** `analyze`: an unknown identifier is refused with 404; otherwise the
      stored bytes are turned into text and assessed, and the result is
      recorded under the identifier, replacing any earlier one. */
  function AnalyzeFile(pdf: PdfSupport, st: Store<AnalysisResult>, id: string)
    : (Store<AnalysisResult>, Response<AnalysisResult>)
  {
    if id !in st.files then (st, Failure(404, "File not found"))
    else
      var result := ResultFor(pdf, id, st.files[id]);
      (Record(st, id, result), Ok(result))
  }

  /** Analysing an unknown identifier is refused with 404 and changes nothing. */
  lemma AnalyzeUnknown(pdf: PdfSupport, st: Store<AnalysisResult>, id: string)
    requires id !in st.files
    ensures AnalyzeFile(pdf, st, id) == (st, Failure(404, "File not found"))
  {
  }

  /** Analysing a stored file records the result it returns, which is then
      what `get_analysis` serves; no file and no other analysis changes, the
      store stays valid, and analysing the same file again changes nothing. */
  lemma AnalyzeThenGet(pdf: PdfSupport, st: Store<AnalysisResult>, id: string)
    requires Valid(st)
    requires id in st.files
    ensures var (st', r) := AnalyzeFile(pdf, st, id);
      && r.Ok?
      && r.value.fileId == id
      && GetAnalysis(st', id) == r
      && st'.files == st.files
      && (forall other :: other != id ==> GetAnalysis(st', other) == GetAnalysis(st, other))
      && Valid(st')
      && AnalyzeFile(pdf, st', id) == (st', r)
  {
    var result := ResultFor(pdf, id, st.files[id]);
    RecordSpec(st, id, result);
  }

  /** The stored result scores the text extracted from the stored bytes: its
      score lies in [0, 1] and is 0 exactly when nothing is flagged, and the
      flagged terms are exactly the lexicon terms that text contains. */
  lemma ResultScoresStoredText(pdf: PdfSupport, st: Store<AnalysisResult>, id: string)
    requires id in st.files
    ensures var r := AnalyzeFile(pdf, st, id).1.value;
      var text := DocumentText(pdf, st.files[id]);
      && 0.0 <= r.riskScore <= 1.0
      && (r.riskScore == 0.0 <==> r.flaggedTerms == [])
      && (forall t :: t in r.flaggedTerms <==> t in Terms(RiskWeights) && Contains(Lower(text), t))
  {
    RiskWeightsWellFormed();
    ScoreAndFlags(RiskWeights, DocumentText(pdf, st.files[id]));
  }
}
