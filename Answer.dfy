/** `simple_grounded_answer`: the retrieved passages, numbered from 1 in
    retrieval order, each with a citation of its file (and page), become
    the answer; no retrieved passage gives a fixed "don't know" reply. */
module Answer {
  import opened Wrappers
  import opened Seqs
  import opened PyText
  import opened Documents

  // (Long literals are written in two pieces so that the verifier can see
  // their characters.)
  const NotFound := "I don\U{2019}t know based on " + "the provided documents."
  const Preamble := "Here are the most relevant " + "passages I found:\n\n"
  const DefaultSource := "uploaded_doc"

  /** The file a citation names: the basename of the `source` metadata, or
      "uploaded_doc" when there is none. */
  function CitedName(d: Document): string {
    Basename(d.source.GetOr(DefaultSource))
  }

  /** The stored page is 0-based; it is shown 1-based, and only when the
      metadata holds an integer page. */
  function PageSuffix(page: Option<int>): string {
    match page
    case Some(p) => " (page " + IntToString(p + 1) + ")"
    case None => ""
  }

  function Citation(i: int, d: Document): string {
    "[" + IntToString(i) + "] " + CitedName(d) + PageSuffix(d.page)
  }

  /** The text appended for the `i`-th passage. */
  function Entry(i: int, d: Document): string {
    Citation(i, d) + "\n" + Strip(d.content) + "\n\n"
  }

  /** The entries of `docs`, numbered from 1 in order. */
  function Entries(docs: seq<Document>): string
    decreases |docs|
  {
    if docs == [] then ""
    else Entries(docs[..|docs| - 1]) + Entry(|docs|, docs[|docs| - 1])
  }

  function GroundedAnswer(docs: seq<Document>): string {
    if docs == [] then NotFound else Preamble + Entries(docs)
  }

  /** The loop of `simple_grounded_answer`; the question takes no part in
      the answer. */
  method SimpleGroundedAnswer(question: string, retrieved: seq<Document>) returns (answer: string)
    ensures answer == GroundedAnswer(retrieved)
  {
    hide Entry;
    if retrieved == [] {
      return NotFound;
    }
    answer := Preamble;
    for i := 0 to |retrieved|
      invariant answer == Preamble + Entries(retrieved[..i])
    {
      EntriesSnoc(retrieved, i);
      answer := AppendEntry(answer, i + 1, retrieved[i]);
    }
    assert retrieved[..|retrieved|] == retrieved;
  }

  /** One turn of that loop: the citation and the stripped passage of the
      `i`-th document appended to the answer so far. */
  method AppendEntry(answer: string, i: int, d: Document) returns (extended: string)
    ensures extended == answer + Entry(i, d)
  {
    hide Strip, Basename, IntToString;
    var src := d.source.GetOr(DefaultSource);
    var page := d.page;
    var cite := "[" + IntToString(i) + "] " + Basename(src)
      + (if page.Some? then " (page " + IntToString(page.value + 1) + ")" else "");
    var snippet := Strip(d.content);
    extended := answer + (cite + "\n" + snippet + "\n\n");
  }

  lemma EntriesSnoc(docs: seq<Document>, i: nat)
    requires i < |docs|
    ensures Entries(docs[..i + 1]) == Entries(docs[..i]) + Entry(i + 1, docs[i])
  {
    hide Entry;
    assert docs[..i + 1][..i] == docs[..i];
  }

  // ---------------------------------------------------------------------
  // What the answer looks like
  // ---------------------------------------------------------------------

  /** The "don't know" reply is given exactly when nothing was retrieved. */
  lemma NotFoundIffEmpty(docs: seq<Document>)
    ensures GroundedAnswer(docs) == NotFound <==> docs == []
  {
    hide Entries;
    if docs != [] {
      assert Preamble[0] == 'H';
      assert NotFound[0] == 'I';
      assert GroundedAnswer(docs) == Preamble + Entries(docs);
      assert GroundedAnswer(docs)[0] == 'H';
    }
  }

  /** Any non-empty retrieval gives an answer that opens with the preamble. */
  lemma StartsWithPreamble(docs: seq<Document>)
    requires docs != []
    ensures |Preamble| <= |GroundedAnswer(docs)|
    ensures GroundedAnswer(docs)[..|Preamble|] == Preamble
  {
    hide Entries;
  }

  /** The entry list: the `j`-th retrieved passage (from 0) as entry `j + 1`. */
  function EntryList(docs: seq<Document>): seq<string> {
    seq(|docs|, j requires 0 <= j < |docs| => Entry(j + 1, docs[j]))
  }

  /** After the preamble come exactly one entry per passage, in retrieval
      order, the `j`-th (from 0) numbered `j + 1`. */
  lemma {:induction false} EntriesInOrder(docs: seq<Document>)
    ensures Entries(docs) == Flatten(EntryList(docs))
    decreases |docs|
  {
    hide Entry;
    if docs != [] {
      var pre := docs[..|docs| - 1];
      EntriesInOrder(pre);
      assert EntryList(docs) == EntryList(pre) + [Entry(|docs|, docs[|docs| - 1])];
      FlattenSnoc(EntryList(pre), Entry(|docs|, docs[|docs| - 1]));
    }
  }

  /** The whole answer for a non-empty retrieval. */
  lemma AnswerShape(docs: seq<Document>)
    requires docs != []
    ensures GroundedAnswer(docs) == Preamble + Flatten(EntryList(docs))
    ensures |EntryList(docs)| == |docs|
  {
    hide Entries;
    EntriesInOrder(docs);
  }

  // ---------------------------------------------------------------------
  // Reading a citation back
  // ---------------------------------------------------------------------

  /** The longest prefix of `s` made of decimal digits. */
  function LeadingDigits(s: string): (r: string)
    ensures |r| <= |s| && r == s[..|r|]
    decreases |s|
  {
    if s != [] && '0' <= s[0] <= '9' then [s[0]] + LeadingDigits(s[1..]) else []
  }

  /** The number in a leading "[n] " label, if there is one. */
  function ReadLabel(s: string): Option<int> {
    if s == [] || s[0] != '[' then None
    else
      var t := LeadingDigits(s[1..]);
      if |s| >= |t| + 3 && s[|t| + 1..|t| + 3] == "] " then ParseInt(t) else None
  }

  lemma {:induction false} LeadingDigitsOf(t: string, rest: string)
    requires forall j :: 0 <= j < |t| ==> '0' <= t[j] <= '9'
    requires rest == [] || !('0' <= rest[0] <= '9')
    ensures LeadingDigits(t + rest) == t
    decreases |t|
  {
    if t != [] {
      assert (t + rest)[1..] == t[1..] + rest;
      LeadingDigitsOf(t[1..], rest);
    } else {
      assert t + rest == rest;
    }
  }

  /** Every entry starts with its position as a "[n] " label that reads back
      to that position. */
  lemma LabelReadsBack(i: int, d: Document)
    requires i >= 1
    ensures ReadLabel(Entry(i, d)) == Some(i)
  {
    hide CitedName, PageSuffix, Strip, LeadingDigits;
    var t := IntToString(i);
    PositiveIsDigits(i);
    IntToStringRoundTrip(i);
    var rest := CitedName(d) + PageSuffix(d.page) + "\n" + Strip(d.content) + "\n\n";
    var s := Entry(i, d);
    assert s == "[" + (t + ("] " + rest));
    assert s[1..] == t + ("] " + rest);
    LeadingDigitsOf(t, "] " + rest);
    assert s[|t| + 1..|t| + 3] == "] ";
  }

  /** The page number a citation's page suffix shows, less one. */
  function ReadPage(suffix: string): Option<int> {
    var open := " (page ";
    if |suffix| > |open| && suffix[..|open|] == open && suffix[|suffix| - 1] == ')' then
      match ParseInt(suffix[|open|..|suffix| - 1])
      case Some(n) => Some(n - 1)
      case None => None
    else None
  }

  /** The page suffix is present exactly when the page is, and shows the
      page 1-based: reading it back and subtracting one gives the stored
      page. */
  lemma PageSuffixReadsBack(page: Option<int>)
    ensures ReadPage(PageSuffix(page)) == page
    ensures page == None <==> PageSuffix(page) == ""
  {
    if page.Some? {
      var t := IntToString(page.value + 1);
      IntToStringRoundTrip(page.value + 1);
      var s := PageSuffix(page);
      assert s == " (page " + t + ")";
      assert s[..7] == " (page ";
      assert s[7..|s| - 1] == t;
    }
  }

  /** A stored page 0 is shown as "page 1". */
  lemma FirstPageShownAsOne()
    ensures PageSuffix(Some(0)) == " (page 1)"
  {
    assert IntToString(1) == "1";
  }

  /** The citation names only the last component of the source path. */
  lemma CitedNameIsLastComponent(d: Document, dir: string, f: string)
    requires d.source == Some(dir + "/" + f) && '/' !in f
    ensures CitedName(d) == f
  {
    BasenameOfJoin(dir, f);
  }

  /** A document without a source is cited as "uploaded_doc". */
  lemma CitedNameDefault(d: Document)
    requires d.source == None
    ensures CitedName(d) == "uploaded_doc"
  {
    BasenameOfPlainName(DefaultSource);
  }
}
