# RAG chatbot session logic, modelled in Dafny

The application is a single Streamlit script, `app.py`. It lets a user upload PDF, TXT and Markdown files and build a FAISS vector index over local embeddings of them. The user can then ask questions, and the answer is the most similar passages, each with a citation. This project models three parts of that script:

- **Loading uploads** (`load_documents`). Each upload is classified by its lower-cased `os.path.splitext` suffix. It is then handed to the PDF loader or the UTF-8 text loader, or skipped with a warning. The documents are gathered in upload order, and the first loader exception ends the load. Module `Loader`: the loop is the method `LoadDocuments`, proved against the function `Load`.
- **Formatting the answer** (`simple_grounded_answer`). Module `Answer`: the method `SimpleGroundedAnswer` appends to a string in a loop and is proved against the function `GroundedAnswer`. The lemmas state the answer's shape: the "don't know" reply, the preamble, one numbered entry per passage in order, the page shown 1-based, and the basename citation.
- **The session** (the build and ask panels). Module `App`: the class `Session` holds `vectorstore`, as `st.session_state` does. `Build` and `Ask` are proved against the pure steps `BuildStep` and `AskStep`, and the lemmas state the all-or-nothing build and when retrieval is called.

The Python primitives these rely on are modelled in `PyText`: `str.strip()`, `str.lower()` on a suffix, and the POSIX `os.path.basename` and `os.path.splitext`. `str(int)` inside f-strings is modelled there too, together with a parser used to state round trips. `Wrappers` holds `Option`/`Result`, `Seqs` holds `Flatten`, and `Documents` holds the upload and document records.

The loaders, the splitter, index construction and similarity search are fields of the datatype `App.Backend`. They are functions that return either a value or the text of the exception they raised. The splitter receives the fixed configuration (chunk size 900, overlap 150, separators `"\n\n"`, `"\n"`, `". "`, `" "`, `""`). `k` has the subset type `TopK` (2 to 8), the slider's range. The slider's starting value 4 is part of the interface and plays no part in the model.

Two facts about the code shape the model:

- The temporary copies of uploads are created with `delete=False` and never removed, so `LoadDocuments` counts one file left behind per processed upload. No cleanup is modelled.
- The loaders open the temporary copy, not the upload. In the model a loader receives a `TempFile`: the lower-cased suffix the temporary name ends with, and the upload's bytes. The upload's own name does not reach it. A document's `source` is whatever the loader records, so citations show the temporary file's basename, not the uploaded name.

## Model

| member | source | states |
|---|---|---|
| Loader.LoadDocuments | app.py:16-30 | The loop's documents, warnings and temp-file count are exactly `Load(uploads)`: uploads are processed in order, and the first loader exception ends the load. |
| Loader.LoadStopsAtFailure | app.py:18-30 | Once a loader has raised, later uploads change nothing: no documents, no warnings, no temp files. |
| Loader.LoadAllSucceed | app.py:17-30 | When every loader succeeds, the documents are the in-order concatenation of each upload's documents, with nothing for an unsupported file. The warnings are those of the unsupported files in order, and one temp file is left per upload. |
| Loader.LoadFailsAtFirstFailure | app.py:18-30 | When upload k is the first whose loader raises, the load fails with that exception. It has shown the warnings of the uploads before k and left k+1 temp files. |
| Loader.LoadSucceedsIff | app.py:24-28 | The load succeeds if and only if every upload's loader succeeds. |
| Loader.SuffixIs | app.py:19 | The lower-cased `splitext` suffix equals a lower-case extension if and only if the name ends with it in any case, with a non-dot character before it in the final path component. |
| Loader.SuffixFound | app.py:19 | One direction of `SuffixIs`: a suffix equal to the extension means the name ends with it. |
| Loader.SuffixFromEnding | app.py:19 | The other direction of `SuffixIs`: a name ending with the extension has it as its suffix. |
| Loader.ClassifyPdf | app.py:19-25 | A file goes to the PDF loader if and only if its name ends with ".pdf" in any letter case, as `splitext` reads it. |
| Loader.ClassifyText | app.py:19-27 | A file goes to the text loader if and only if its name ends with ".txt" or ".md" in any letter case. |
| Loader.HiddenFileUnsupported | app.py:19-29 | A file named ".md" has no suffix, because leading dots are not a suffix, so it is unsupported. |
| Loader.UpperCaseSuffix | app.py:19-27 | "notes.MD" goes to the text loader. |
| Answer.SimpleGroundedAnswer | app.py:52-67 | The loop's answer equals `GroundedAnswer(retrieved)`, whatever the question. |
| Answer.AppendEntry | app.py:62-66 | One loop turn appends exactly entry `i` to the answer: citation, newline, stripped text, blank line. |
| Answer.EntriesSnoc | app.py:61-66 | Adding one passage adds exactly one entry, numbered by its 1-based position, at the end. |
| Answer.NotFoundIffEmpty | app.py:57-58 | The answer is the "don't know" message if and only if nothing was retrieved. |
| Answer.StartsWithPreamble | app.py:60 | A non-empty retrieval gives an answer that begins with the preamble. |
| Answer.EntriesInOrder | app.py:61-66 | The entries are the in-order concatenation of one entry per passage, the j-th (from 0) labelled j+1. |
| Answer.AnswerShape | app.py:57-67 | For a non-empty retrieval, the answer is the preamble followed by exactly \|docs\| entries in retrieval order. |
| Answer.LabelReadsBack | app.py:61-64 | Every entry begins with a "[i] " label that parses back to its position i. |
| Answer.PageSuffixReadsBack | app.py:63-64 | The page suffix is absent if and only if there is no integer page. When present, it shows page+1, which reads back to the stored page. |
| Answer.FirstPageShownAsOne | app.py:64 | A stored page 0 is shown as " (page 1)". |
| Answer.CitedNameIsLastComponent | app.py:62-64 | A source "dir/f" is cited as "f", the text after the last '/'. |
| Answer.CitedNameDefault | app.py:62-64 | A document without a source is cited as "uploaded_doc". |
| PyText.StripSplits | app.py:65 | `strip()` is a slice of the input with only whitespace outside it, and the slice neither starts nor ends with whitespace. |
| PyText.StripUnique | app.py:65 | Whitespace, then a trimmed text, then whitespace: `strip()` gives exactly that text. |
| PyText.StripEmptyIffBlank | app.py:109 | `strip()` is empty if and only if every character is whitespace. |
| PyText.StripIdempotent | app.py:65 | Stripping twice equals stripping once. |
| PyText.BasenameAfterLastSlash | app.py:64 | `basename` is the text after the last '/', as `rfind` locates it. |
| PyText.BasenameOfJoin | app.py:64 | `basename(dir + "/" + f)` is `f` when `f` has no '/'. |
| PyText.BasenameOfPlainName | app.py:62-64 | A name without '/' is its own basename, e.g. "uploaded_doc". |
| PyText.SplitExtParts | app.py:19 | `splitext` splits the path into root + ext. The ext is empty or starts with '.', and has no other '.' or '/'. |
| PyText.SplitExtNonEmpty | app.py:19 | A non-empty ext starts at the last '.', which lies in the final component after at least one non-dot character. |
| PyText.SplitExtAtDot | app.py:19 | Conversely, such a last dot starts the ext. |
| PyText.IntToStringRoundTrip | app.py:64 | The decimal text of an integer parses back to it. |
| PyText.NatToStringRoundTrip | app.py:64 | The decimal text of a natural is digits, with no leading zero unless it is 0, and its value is the number. |
| PyText.PositiveIsDigits | app.py:61-64 | A positive label prints as digits that do not start with '0'. |
| App.Session.constructor | app.py:79-80 | A new session has no vector store. |
| App.Session.Build | app.py:82-99 | The new store, report and warnings are exactly `BuildStep(old store, uploads)`: no uploads is an error, and load, split and index run in order. The first exception keeps the old store, and only a complete run stores the new index. |
| App.Session.Ask | app.py:102-116 | The outcome is exactly `AskStep(store, question, k)`: not ready without a store, rejected for a blank question, otherwise retrieval with the slider's k and the grounded answer. |
| App.BuildWithoutUploads | app.py:84-85 | With no uploads, the store is unchanged and the report is "Upload at least one file first.". |
| App.StoreKeptUnlessBuilt | app.py:82-99 | Unless the build reports success, the store keeps its prior value, and a success always stores an index. The "Build failed" message is shown if and only if the build failed. |
| App.BuiltIff | app.py:86-96 | A build succeeds if and only if there are uploads, every loader succeeds, splitting all documents in upload order succeeds, and indexing the chunks succeeds. On success the store is that index, the report counts the chunks, and the warnings name the unsupported files in order. |
| App.RebuildForgetsPrior | app.py:94 | A successful rebuild gives the same result whatever was stored before. |
| App.RetrievalOnlyWhenReady | app.py:102-113 | No store gives NotReady, and a store with a blank question gives EmptyQuestion, both if and only if. Retrieval happens only with a store and a non-blank question, and it receives the stored index, the question and k. |
| App.AnsweredWithSliderK | app.py:106-116 | An answered question used the slider's k, which lies in [2, 8]. Its answer is "don't know" if and only if nothing was retrieved, and otherwise it is the preamble plus one entry per retrieved passage. |
| App.StoreKeptWhenNoneBuilt | app.py:82-99 | After any sequence of build presses none of which succeeded, the store is what it was before them. |
| App.NotReadyUntilBuilt | app.py:79-103 | Starting from no store, after any sequence of build presses none of which succeeded, the store is still empty and every question gets NotReady. |

## Left out

- The Streamlit interface is left out: title, sidebar widgets, spinners, `st.write`, and the debug expander that repeats the retrieved texts. `BuildReport` and `QueryOutcome` stand for what the panels show. `ReportMessage` gives the sidebar texts.
- Writing each upload to a temporary file is file-system I/O and is not modelled. Only the count of files left behind is kept.
- `PyPDFLoader`, `TextLoader`, `RecursiveCharacterTextSplitter`, `HuggingFaceEmbeddings`, its caching, `FAISS.from_documents` and `similarity_search` are library code. They are abstract, possibly failing functions in `App.Backend` and `Loader.Loaders`. How text is chunked, embedded and ranked is the libraries' promise, not this script's.
- `SplitDocuments`, `BuildVectorstore` and `Retrieve` are single library calls with no contract of their own. Their effect is stated through `BuildStep` and `AskStep`.
- Document metadata is modelled as an optional string `source` and an optional integer `page`. Python's `isinstance(page, int)` also accepts `bool`, and that quirk is not reproduced. A `source` that is not a string is not modelled.
- `str.lower()` is modelled on ASCII letters only. For the comparison with ".pdf", ".txt" and ".md" this is exact, because no other character lowers to one of those letters.
- An exception raised while answering a question is not caught by the script. It is modelled as `RetrievalFailed`, with the store unchanged. Exceptions from the formatter itself cannot occur in the model.
- `basename` and `splitext` are modelled as POSIX `posixpath` computes them, splitting at '/' only. On Windows, `ntpath` also splits at '\\' and after a drive colon; that variant is not modelled.
- Streamlit reruns the script on every interaction. The model keeps only `vectorstore` between the calls of `Build` and `Ask`, and the uploads and question are parameters of each call.
