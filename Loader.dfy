/** `load_documents`: every upload is classified by its lower-cased file
    suffix and handed to the PDF loader, to the UTF-8 text loader, or
    skipped with a warning; the documents are gathered in upload order. */
module Loader {
  import opened Wrappers
  import opened Seqs
  import opened PyText
  import opened Documents

  datatype Kind = Pdf | Text | Unsupported

  /** The suffix the application dispatches on:
      `os.path.splitext(name)[1].lower()`. */
  function Suffix(name: string): string {
    AsciiLower(SplitExt(name).1)
  }

  function Classify(name: string): Kind {
    var suffix := Suffix(name);
    if suffix == ".pdf" then Pdf
    else if suffix == ".txt" || suffix == ".md" then Text
    else Unsupported
  }

  /** The two document loaders (`PyPDFLoader` and `TextLoader` with UTF-8),
      applied to the temporary copy of an upload: each gives the documents
      it read or the text of the exception it raised. */
  datatype Loaders = Loaders(
    pdf: TempFile -> Result<seq<Document>, string>,
    text: TempFile -> Result<seq<Document>, string>)

  /** The temporary copy written for an upload. */
  function TempCopy(u: Upload): TempFile {
    TempFile(Suffix(u.name), u.data)
  }

  function UnsupportedWarning(name: string): string {
    "Unsupported file type: " + name + " (use PDF/TXT/MD)"
  }

  /** What one upload contributes: the loader's outcome for its kind, or no
      documents at all for an unsupported kind. */
  function FileOutput(u: Upload, ls: Loaders): Result<seq<Document>, string> {
    match Classify(u.name)
    case Pdf => ls.pdf(TempCopy(u))
    case Text => ls.text(TempCopy(u))
    case Unsupported => Success([])
  }

  /** The warnings one upload raises in the interface. */
  function FileWarnings(u: Upload): seq<string> {
    if Classify(u.name) == Unsupported then [UnsupportedWarning(u.name)] else []
  }

  /** The documents one upload contributes when its loader succeeds. */
  function FileDocs(u: Upload, ls: Loaders): seq<Document> {
    match FileOutput(u, ls)
    case Success(ds) => ds
    case Failure(_) => []
  }

  /** Where `load_documents` stands: the documents gathered so far (or the
      exception that ended it), the warnings shown, and the number of
      temporary files written (created with `delete=False`, never removed). */
  datatype LoadState = LoadState(docs: Result<seq<Document>, string>, warnings: seq<string>, tempFiles: nat)

  /** The state after processing the uploads `us` in order; once a loader
      raises, the remaining uploads are not processed. */
  function Load(us: seq<Upload>, ls: Loaders): LoadState
    decreases |us|
  {
    if us == [] then LoadState(Success([]), [], 0)
    else
      var prev := Load(us[..|us| - 1], ls);
      var u := us[|us| - 1];
      if prev.docs.Failure? then prev
      else
        var ws := prev.warnings + FileWarnings(u);
        match FileOutput(u, ls)
        case Success(ds) => LoadState(Success(prev.docs.value + ds), ws, prev.tempFiles + 1)
        case Failure(e) => LoadState(Failure(e), ws, prev.tempFiles + 1)
  }

  /** The loop of `load_documents`. */
  method LoadDocuments(uploads: seq<Upload>, ls: Loaders)
    returns (docs: Result<seq<Document>, string>, warnings: seq<string>, tempFiles: nat)
    ensures LoadState(docs, warnings, tempFiles) == Load(uploads, ls)
  {
    hide Suffix;
    var acc: seq<Document> := [];
    warnings, tempFiles := [], 0;
    for i := 0 to |uploads|
      invariant Load(uploads[..i], ls) == LoadState(Success(acc), warnings, tempFiles)
    {
      var uf := uploads[i];
      var suffix := Suffix(uf.name);
      var tmp := TempFile(suffix, uf.data);
      tempFiles := tempFiles + 1;
      assert uploads[..i + 1][..i] == uploads[..i];
      if suffix == ".pdf" {
        var loaded := ls.pdf(tmp);
        if loaded.Failure? {
          LoadStopsAtFailure(uploads, ls, i + 1);
          return Failure(loaded.error), warnings, tempFiles;
        }
        assert FileOutput(uf, ls) == loaded && FileWarnings(uf) == [];
        acc := acc + loaded.value;
      } else if suffix == ".txt" || suffix == ".md" {
        var loaded := ls.text(tmp);
        if loaded.Failure? {
          LoadStopsAtFailure(uploads, ls, i + 1);
          return Failure(loaded.error), warnings, tempFiles;
        }
        assert FileOutput(uf, ls) == loaded && FileWarnings(uf) == [];
        acc := acc + loaded.value;
      } else {
        assert FileOutput(uf, ls) == Success([]);
        assert acc + [] == acc;
        warnings := warnings + [UnsupportedWarning(uf.name)];
      }
    }
    assert uploads[..|uploads|] == uploads;
    docs := Success(acc);
  }

  /** Once a loader has raised, later uploads change nothing. */
  lemma {:induction false} LoadStopsAtFailure(us: seq<Upload>, ls: Loaders, n: nat)
    requires n <= |us| && Load(us[..n], ls).docs.Failure?
    ensures Load(us, ls) == Load(us[..n], ls)
    decreases |us| - n
  {
    hide Suffix;
    if n < |us| {
      assert us[..|us| - 1][..n] == us[..n];
      LoadStopsAtFailure(us[..|us| - 1], ls, n);
    } else {
      assert us[..n] == us;
    }
  }

  function AllDocs(us: seq<Upload>, ls: Loaders): seq<seq<Document>> {
    seq(|us|, j requires 0 <= j < |us| => FileDocs(us[j], ls))
  }

  function AllWarnings(us: seq<Upload>): seq<seq<string>> {
    seq(|us|, j requires 0 <= j < |us| => FileWarnings(us[j]))
  }

  /** When every loader succeeds, the result is the in-order concatenation
      of what each upload contributes, the warnings are those of the
      unsupported uploads in order, and one temporary file is left per
      upload. */
  lemma {:induction false} LoadAllSucceed(us: seq<Upload>, ls: Loaders)
    requires forall j :: 0 <= j < |us| ==> FileOutput(us[j], ls).Success?
    ensures Load(us, ls) == LoadState(Success(Flatten(AllDocs(us, ls))), Flatten(AllWarnings(us)), |us|)
    decreases |us|
  {
    hide Suffix;
    if us != [] {
      var pre := us[..|us| - 1];
      var u := us[|us| - 1];
      LoadAllSucceed(pre, ls);
      assert AllDocs(us, ls) == AllDocs(pre, ls) + [FileDocs(u, ls)];
      assert AllWarnings(us) == AllWarnings(pre) + [FileWarnings(u)];
      FlattenSnoc(AllDocs(pre, ls), FileDocs(u, ls));
      FlattenSnoc(AllWarnings(pre), FileWarnings(u));
    }
  }

  /** When the loader of upload `k` raises and all before it succeeded, the
      whole load fails with that exception, after the warnings of the
      uploads before `k` and with `k + 1` temporary files left behind. */
  lemma LoadFailsAtFirstFailure(us: seq<Upload>, ls: Loaders, k: nat)
    requires k < |us| && FileOutput(us[k], ls).Failure?
    requires forall j :: 0 <= j < k ==> FileOutput(us[j], ls).Success?
    ensures Load(us, ls) == LoadState(Failure(FileOutput(us[k], ls).error), Flatten(AllWarnings(us[..k])), k + 1)
  {
    hide Suffix;
    var pre := us[..k];
    assert forall j :: 0 <= j < k ==> pre[j] == us[j];
    LoadAllSucceed(pre, ls);
    assert us[..k + 1][..k] == pre;
    assert FileWarnings(us[k]) == [];
    assert Load(us[..k + 1], ls).docs.Failure?;
    LoadStopsAtFailure(us, ls, k + 1);
  }

  /** The load succeeds exactly when every upload's loader succeeds. */
  lemma {:induction false} LoadSucceedsIff(us: seq<Upload>, ls: Loaders)
    ensures Load(us, ls).docs.Success? <==> forall j :: 0 <= j < |us| ==> FileOutput(us[j], ls).Success?
    decreases |us|
  {
    hide Suffix;
    if us != [] {
      var pre := us[..|us| - 1];
      LoadSucceedsIff(pre, ls);
      assert forall j :: 0 <= j < |pre| ==> pre[j] == us[j];
    }
  }

  // ---------------------------------------------------------------------
  // Classification by suffix
  // ---------------------------------------------------------------------

  /** A suffix spelled in lower-case letters after its dot. */
  predicate IsLowerExt(ext: string) {
    |ext| >= 2 && ext[0] == '.' && forall j :: 1 <= j < |ext| ==> 'a' <= ext[j] <= 'z'
  }

  /** `name` ends with `ext` in any letter case, and the final path
      component has a character other than '.' before that ending. */
  predicate EndsWithExt(name: string, ext: string) {
    && |ext| <= |name|
    && AsciiLower(name[|name| - |ext|..]) == ext
    && HasNonDot(Basename(name[..|name| - |ext|]))
  }

  /** The suffix is `ext` exactly when the name ends with `ext` (in any
      case) and something other than dots precedes it in the file name. */
  lemma SuffixIs(name: string, ext: string)
    requires IsLowerExt(ext)
    ensures Suffix(name) == ext <==> EndsWithExt(name, ext)
  {
    hide SplitExt;
    var dot := |name| - |ext|;
    if Suffix(name) == ext {
      SuffixFound(name, ext);
    }
    if EndsWithExt(name, ext) {
      SuffixFromEnding(name, ext);
    }
  }

  lemma SuffixFound(name: string, ext: string)
    requires IsLowerExt(ext) && Suffix(name) == ext
    ensures EndsWithExt(name, ext)
  {
    hide SplitExt;
    var e := SplitExt(name).1;
    assert |e| == |ext|;
    SplitExtNonEmpty(name);
  }

  lemma SuffixFromEnding(name: string, ext: string)
    requires IsLowerExt(ext) && EndsWithExt(name, ext)
    ensures Suffix(name) == ext
  {
    hide SplitExt;
    var dot := |name| - |ext|;
    var tail := name[dot..];
    assert LowerChar(name[dot]) == AsciiLower(tail)[0] == '.';
    forall j | dot < j < |name|
      ensures name[j] != '.' && name[j] != '/'
    {
      assert LowerChar(name[j]) == AsciiLower(tail)[j - dot] == ext[j - dot];
    }
    SplitExtAtDot(name, dot);
  }

  /** PDF files are recognised by a ".pdf" ending in any letter case. */
  lemma ClassifyPdf(name: string)
    ensures Classify(name) == Pdf <==> EndsWithExt(name, ".pdf")
  {
    hide SplitExt;
    SuffixIs(name, ".pdf");
  }

  /** Text files are recognised by a ".txt" or ".md" ending in any case. */
  lemma ClassifyText(name: string)
    ensures Classify(name) == Text <==> EndsWithExt(name, ".txt") || EndsWithExt(name, ".md")
  {
    hide SplitExt;
    SuffixIs(name, ".pdf");
    SuffixIs(name, ".txt");
    SuffixIs(name, ".md");
  }

  /** A dot-file such as ".md" has no suffix, so it is not loaded. */
  lemma HiddenFileUnsupported()
    ensures Classify(".md") == Unsupported
  {
    hide SplitExt;
    SuffixIs(".md", ".pdf");
    SuffixIs(".md", ".txt");
    SuffixIs(".md", ".md");
    assert Basename("") == "";
  }

  /** Upper-case suffixes are accepted. */
  lemma UpperCaseSuffix()
    ensures Classify("notes.MD") == Text
  {
    hide SplitExt;
    var name := "notes.MD";
    assert name[..5] == "notes" && name[5..] == ".MD";
    assert AsciiLower(".MD") == ".md" by {
      var l := AsciiLower(".MD");
      assert l[0] == '.' && l[1] == 'm' && l[2] == 'd';
    }
    BasenameOfPlainName("notes");
    assert HasNonDot("notes");
    assert EndsWithExt(name, ".md");
    SuffixIs(name, ".md");
  }
}
