/** The session logic of the application: "Build / Rebuild Knowledge Base"
    runs load, split and index and replaces the stored vector store only
    when all three succeed; "Ask" retrieves the top `k` passages from the
    stored index and formats them with `simple_grounded_answer`. */
module App {
  import opened Wrappers
  import opened Seqs
  import opened PyText
  import opened Documents
  import opened Loader
  import opened Answer

  /** The parameters handed to `RecursiveCharacterTextSplitter`. */
  datatype SplitterConfig = SplitterConfig(chunkSize: nat, chunkOverlap: nat, separators: seq<string>)

  const Splitter := SplitterConfig(900, 150, ["\n\n", "\n", ". ", " ", ""])

  /** The bounds of the "How many chunks to retrieve?" slider (which
      starts at 4). */
  const MinK := 2
  const MaxK := 8
  type TopK = k: int | MinK <= k <= MaxK witness 4

  /** The libraries the session calls: the two document loaders, the text
      splitter, building a FAISS index over local embeddings, and its
      similarity search. Each gives a value or the text of the exception it
      raised. */
  datatype Backend<!Index> = Backend(
    loaders: Loaders,
    split: (SplitterConfig, seq<Document>) -> Result<seq<Document>, string>,
    index: seq<Document> -> Result<Index, string>,
    search: (Index, string, int) -> Result<seq<Document>, string>)

  /** `split_documents`: the splitter with the fixed configuration. */
  function SplitDocuments<Index>(docs: seq<Document>, b: Backend<Index>): Result<seq<Document>, string> {
    b.split(Splitter, docs)
  }

  /** `build_vectorstore`. */
  function BuildVectorstore<Index>(chunks: seq<Document>, b: Backend<Index>): Result<Index, string> {
    b.index(chunks)
  }

  /** `retrieve`. */
  function Retrieve<Index>(vs: Index, question: string, k: int, b: Backend<Index>): Result<seq<Document>, string> {
    b.search(vs, question, k)
  }

  // ---------------------------------------------------------------------
  // Build / Rebuild
  // ---------------------------------------------------------------------

  /** What the sidebar reports after a build. */
  datatype BuildReport = NoUploads | Built(chunkCount: nat) | BuildFailed(detail: string)

  function ReportMessage(r: BuildReport): string {
    match r
    case NoUploads => "Upload at least one file first."
    case Built(n) => "Indexed " + IntToString(n) + " chunks ✅"
    case BuildFailed(_) => "Build failed. See details below."
  }

  /** The stored vector store after a build, the report, and the warnings
      about unsupported files shown on the way. */
  datatype BuildResult<Index> = BuildResult(store: Option<Index>, report: BuildReport, warnings: seq<string>)

  /** A press of the build button with store `prior`: no uploads is an
      error; otherwise load, split and index run in turn, the first
      exception ends the build with the store unchanged, and only a
      complete run replaces the store. */
  function BuildStep<Index>(prior: Option<Index>, uploads: seq<Upload>, b: Backend<Index>): BuildResult<Index> {
    if uploads == [] then BuildResult(prior, NoUploads, [])
    else
      var loaded := Load(uploads, b.loaders);
      match loaded.docs
      case Failure(e) => BuildResult(prior, BuildFailed(e), loaded.warnings)
      case Success(docs) =>
        match SplitDocuments(docs, b)
        case Failure(e) => BuildResult(prior, BuildFailed(e), loaded.warnings)
        case Success(chunks) =>
          match BuildVectorstore(chunks, b)
          case Failure(e) => BuildResult(prior, BuildFailed(e), loaded.warnings)
          case Success(vs) => BuildResult(Some(vs), Built(|chunks|), loaded.warnings)
  }

  // ---------------------------------------------------------------------
  // Ask
  // ---------------------------------------------------------------------

  /** What the "Ask questions" panel shows: the prompt to build first, the
      prompt to type a question, the exception raised by retrieval, or the
      answer together with the `k` used and the passages retrieved. */
  datatype QueryOutcome =
    | NotReady
    | EmptyQuestion
    | RetrievalFailed(detail: string)
    | Answered(k: int, retrieved: seq<Document>, answer: string)

  function AskStep<Index>(store: Option<Index>, question: string, k: TopK, b: Backend<Index>): QueryOutcome {
    match store
    case None => NotReady
    case Some(vs) =>
      if Strip(question) == [] then EmptyQuestion
      else
        match Retrieve(vs, question, k, b)
        case Failure(e) => RetrievalFailed(e)
        case Success(docs) => Answered(k, docs, GroundedAnswer(docs))
  }

  // ---------------------------------------------------------------------
  // The session
  // ---------------------------------------------------------------------

  /** `st.session_state`: the only state kept between interactions is the
      vector store, absent until the first successful build. */
  class Session<Index(==)> {
    var vectorstore: Option<Index>

    constructor()
      ensures vectorstore == None
    {
      vectorstore := None;
    }

    /** The build button. */
    method Build(uploads: seq<Upload>, b: Backend<Index>) returns (report: BuildReport, warnings: seq<string>)
      modifies this
      ensures BuildResult(vectorstore, report, warnings) == BuildStep(old(vectorstore), uploads, b)
    {
      if uploads == [] {
        return NoUploads, [];
      }
      var docs, ws, tempFiles := LoadDocuments(uploads, b.loaders);
      warnings := ws;
      if docs.Failure? {
        return BuildFailed(docs.error), warnings;
      }
      var chunks := SplitDocuments(docs.value, b);
      if chunks.Failure? {
        return BuildFailed(chunks.error), warnings;
      }
      var vs := BuildVectorstore(chunks.value, b);
      if vs.Failure? {
        return BuildFailed(vs.error), warnings;
      }
      vectorstore := Some(vs.value);
      report := Built(|chunks.value|);
    }

    /** The question panel and its "Ask" button. */
    method Ask(question: string, topK: TopK, b: Backend<Index>) returns (o: QueryOutcome)
      ensures o == AskStep(vectorstore, question, topK, b)
    {
      if vectorstore == None {
        return NotReady;
      }
      if Strip(question) == [] {
        return EmptyQuestion;
      }
      var retrieved := Retrieve(vectorstore.value, question, topK, b);
      if retrieved.Failure? {
        return RetrievalFailed(retrieved.error);
      }
      var answer := SimpleGroundedAnswer(question, retrieved.value);
      o := Answered(topK, retrieved.value, answer);
    }
  }

  // ---------------------------------------------------------------------
  // Properties of a build
  // ---------------------------------------------------------------------

  /** Pressing build with nothing uploaded reports the error and changes
      nothing. */
  lemma BuildWithoutUploads<Index>(prior: Option<Index>, b: Backend<Index>)
    ensures BuildStep(prior, [], b).store == prior
    ensures ReportMessage(BuildStep(prior, [], b).report) == "Upload at least one file first."
  {
  }

  /** The store changes only on a build that reports success; every failed
      build keeps the prior store and reports the exception. */
  lemma StoreKeptUnlessBuilt<Index>(prior: Option<Index>, uploads: seq<Upload>, b: Backend<Index>)
    ensures !BuildStep(prior, uploads, b).report.Built? ==> BuildStep(prior, uploads, b).store == prior
    ensures BuildStep(prior, uploads, b).report.Built? ==> BuildStep(prior, uploads, b).store.Some?
    ensures (ReportMessage(BuildStep(prior, uploads, b).report) == "Build failed. See details below.")
      <==> BuildStep(prior, uploads, b).report.BuildFailed?
  {
    hide Load;
    var r := BuildStep(prior, uploads, b).report;
    var m := ReportMessage(r);
    if r.BuildFailed? {
      assert m == "Build failed. See details below.";
    } else if r.NoUploads? {
      assert m[0] == 'U';
    } else {
      assert m[0] == 'I';
    }
  }

  /** A build succeeds exactly when there are uploads, every upload's loader
      succeeds, the split of all their documents (in upload order) succeeds
      and indexing the chunks succeeds; the new store is that index, the
      report counts the chunks, and the warnings name the unsupported
      uploads in order. */
  lemma BuiltIff<Index>(prior: Option<Index>, uploads: seq<Upload>, b: Backend<Index>)
    ensures var r := BuildStep(prior, uploads, b);
      var docs := Flatten(AllDocs(uploads, b.loaders));
      r.report.Built? <==>
        && uploads != []
        && (forall j :: 0 <= j < |uploads| ==> FileOutput(uploads[j], b.loaders).Success?)
        && SplitDocuments(docs, b).Success?
        && BuildVectorstore(SplitDocuments(docs, b).value, b).Success?
    ensures var r := BuildStep(prior, uploads, b);
      var docs := Flatten(AllDocs(uploads, b.loaders));
      r.report.Built? ==>
        && r.store == Some(BuildVectorstore(SplitDocuments(docs, b).value, b).value)
        && r.report.chunkCount == |SplitDocuments(docs, b).value|
        && r.warnings == Flatten(AllWarnings(uploads))
  {
    hide Load;
    LoadSucceedsIff(uploads, b.loaders);
    if forall j :: 0 <= j < |uploads| ==> FileOutput(uploads[j], b.loaders).Success? {
      LoadAllSucceed(uploads, b.loaders);
    }
  }

  /** A successful rebuild does not depend on what was stored before. */
  lemma RebuildForgetsPrior<Index>(p: Option<Index>, q: Option<Index>, uploads: seq<Upload>, b: Backend<Index>)
    requires BuildStep(p, uploads, b).report.Built?
    ensures BuildStep(q, uploads, b) == BuildStep(p, uploads, b)
  {
    hide Load;
  }

  // ---------------------------------------------------------------------
  // Properties of a question
  // ---------------------------------------------------------------------

  /** Retrieval is asked for exactly when a store exists and the question
      has a non-whitespace character; it then receives the stored index,
      the question as typed and the slider's `k`. */
  lemma RetrievalOnlyWhenReady<Index>(store: Option<Index>, question: string, k: TopK, b: Backend<Index>)
    ensures AskStep(store, question, k, b) == NotReady <==> store == None
    ensures (AskStep(store, question, k, b) == EmptyQuestion)
      <==> store != None && forall j :: 0 <= j < |question| ==> IsSpace(question[j])
    ensures var o := AskStep(store, question, k, b);
      (o.RetrievalFailed? || o.Answered?) ==>
        && store != None
        && (exists j :: 0 <= j < |question| && !IsSpace(question[j]))
        && (o.RetrievalFailed? ==> Retrieve(store.value, question, k, b) == Failure(o.detail))
        && (o.Answered? ==> Retrieve(store.value, question, k, b) == Success(o.retrieved))
  {
    StripEmptyIffBlank(question);
  }

  /** An answer was retrieved with a `k` between 2 and 8, the slider's
      value, and is the grounded answer over exactly the retrieved
      passages: the "don't know" reply when nothing came back, else one
      numbered entry per passage. */
  lemma AnsweredWithSliderK<Index>(store: Option<Index>, question: string, k: TopK, b: Backend<Index>)
    requires AskStep(store, question, k, b).Answered?
    ensures var o := AskStep(store, question, k, b);
      && MinK <= o.k <= MaxK && o.k == k
      && (o.retrieved == [] <==> o.answer == NotFound)
      && (o.retrieved != [] ==> o.answer == Preamble + Flatten(EntryList(o.retrieved)))
  {
    var o := AskStep(store, question, k, b);
    hide GroundedAnswer;
    assert o.answer == GroundedAnswer(o.retrieved);
    NotFoundIffEmpty(o.retrieved);
    if o.retrieved != [] {
      AnswerShape(o.retrieved);
    }
  }

  // ---------------------------------------------------------------------
  // A history of builds
  // ---------------------------------------------------------------------

  /** The store after pressing build once for each upload list in
      `presses`, in order, starting from `prior`. */
  function StoreAfter<Index>(prior: Option<Index>, presses: seq<seq<Upload>>, b: Backend<Index>): Option<Index>
    decreases |presses|
  {
    if presses == [] then prior
    else BuildStep(StoreAfter(prior, presses[..|presses| - 1], b), presses[|presses| - 1], b).store
  }

  /** No press in `presses` reported a successful build. */
  predicate NoneBuilt<Index>(prior: Option<Index>, presses: seq<seq<Upload>>, b: Backend<Index>) {
    forall i :: 0 <= i < |presses| ==> !BuildStep(StoreAfter(prior, presses[..i], b), presses[i], b).report.Built?
  }

  /** Presses of which none succeeded leave the store as it was. */
  lemma {:induction false} StoreKeptWhenNoneBuilt<Index>(prior: Option<Index>, presses: seq<seq<Upload>>, b: Backend<Index>)
    requires NoneBuilt(prior, presses, b)
    ensures StoreAfter(prior, presses, b) == prior
    decreases |presses|
  {
    hide BuildStep;
    if presses != [] {
      var n := |presses| - 1;
      var pre := presses[..n];
      forall i | 0 <= i < |pre|
        ensures !BuildStep(StoreAfter(prior, pre[..i], b), pre[i], b).report.Built?
      {
        assert pre[..i] == presses[..i];
      }
      StoreKeptWhenNoneBuilt(prior, pre, b);
      StoreKeptUnlessBuilt(StoreAfter(prior, pre, b), presses[n], b);
    }
  }

  /** A session in which no build has succeeded yet cannot answer: every
      question gets the prompt to build first. */
  lemma NotReadyUntilBuilt<Index>(presses: seq<seq<Upload>>, question: string, k: TopK, b: Backend<Index>)
    requires NoneBuilt(None, presses, b)
    ensures StoreAfter(None, presses, b) == None
    ensures AskStep(StoreAfter(None, presses, b), question, k, b) == NotReady
  {
    StoreKeptWhenNoneBuilt(None, presses, b);
  }
}
