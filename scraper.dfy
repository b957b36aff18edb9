/** The record the scraper writes for each question page, and the batch loop
    that turns the list of question addresses into the list of records. */
module Scraper {
  import opened Wrappers
  import opened Strings
  import opened Html
  import Sanitizer
  import Options
  import Consensus

  // ---------------------------------------------------------------------
  // Inputs and outputs

  /** One entry of the input list: the page address and, when the list
      carries them, its title and its question id. */
  datatype SourceRef = SourceRef(url: string, title: Option<string>, questionId: Option<string>)

  /** One output record. The stem is kept as the element tree that the
      scraper renders to HTML; `error` is set only on a failure record. */
  datatype QuestionRecord = QuestionRecord(
    id: string,
    url: string,
    title: string,
    stem: Node,
    options: seq<Options.Choice>,
    suggested: string,
    numAnswers: nat,
    error: Option<string>)

  /** What fetching and parsing one page gave: the document, or the message
      of the exception that interrupted it. */
  datatype PageOutcome = Fetched(page: Node) | Failed(message: string)

  const QuestionBody: Selector := Selector("div", Some("question-body"))
  const DiscussionBody: Selector := Selector("div", Some("discussion-question-body"))

  const NoTitle: string := "N/A"
  const FailedTitle: string := "ERRO NA EXTRAÇÃO"
  const FailurePrefix: string := "Erro ao extrair dados desta questão: "

  // ---------------------------------------------------------------------
  // The pieces of a record

  /** The part of the document the extraction looks at: the question body,
      else the discussion body, else the whole document. */
  function Container(page: Node): Node {
    match FindFirst(Kids(page), QuestionBody)
    case Some(body) => body
    case None =>
      match FindFirst(Kids(page), DiscussionBody)
      case Some(body) => body
      case None => page
  }

  /** The container is the first question body when there is one, else the
      first discussion body when there is one, else the document itself. */
  lemma ContainerSpec(page: Node)
    ensures var c := Container(page);
      && (FindFirst(Kids(page), QuestionBody).Some? ==> c == FindFirst(Kids(page), QuestionBody).value)
      && (FindFirst(Kids(page), QuestionBody).None? && FindFirst(Kids(page), DiscussionBody).Some? ==>
            c == FindFirst(Kids(page), DiscussionBody).value)
      && (FindFirst(Kids(page), QuestionBody).None? && FindFirst(Kids(page), DiscussionBody).None? ==> c == page)
      && (c == page || Matches(c, QuestionBody) || Matches(c, DiscussionBody))
  {
  }

  /** The record id: the input's question id, else the position in the list
      written in decimal. */
  function IdOf(ref: SourceRef, index: nat): string {
    ref.questionId.GetOr(NatToDecimal(index))
  }

  /** Without a question id, the id reads back as the position, and two
      positions never share an id. */
  lemma IdFallsBackToIndex(ref: SourceRef, index: nat)
    ensures ref.questionId.Some? ==> IdOf(ref, index) == ref.questionId.value
    ensures ref.questionId.None? ==>
      var id := IdOf(ref, index);
      id != [] && AllDigits(id) && ParseDecimal(id) == index
  {
    DecimalRoundTrip(index);
  }

  lemma FallbackIdsDiffer(a: SourceRef, i: nat, b: SourceRef, j: nat)
    requires a.questionId.None? && b.questionId.None? && i != j
    ensures IdOf(a, i) != IdOf(b, j)
  {
    if NatToDecimal(i) == NatToDecimal(j) {
      DecimalInjective(i, j);
    }
  }

  /** How many letters the user must pick. The zero test on a non-empty
      suggestion cannot succeed; it is kept as written. */
  function AnswerCount(suggested: string, optionCount: nat): nat {
    if suggested != "" then
      if |suggested| == 0 then 1 else |suggested|
    else if optionCount == 5 then 2
    else if optionCount == 6 then 3
    else 1
  }

  /** The count is the length of the suggestion when there is one; without
      one it is 2 for five options, 3 for six and 1 otherwise; never 0. */
  lemma AnswerCountRule(suggested: string, optionCount: nat)
    ensures AnswerCount(suggested, optionCount) >= 1
    ensures suggested != "" ==> AnswerCount(suggested, optionCount) == |suggested|
    ensures suggested == "" && optionCount == 5 ==> AnswerCount(suggested, optionCount) == 2
    ensures suggested == "" && optionCount == 6 ==> AnswerCount(suggested, optionCount) == 3
    ensures suggested == "" && optionCount != 5 && optionCount != 6 ==> AnswerCount(suggested, optionCount) == 1
  {
  }

  /** With a suggestion, the count is the number of distinct letters voted
      for. */
  lemma AnswerCountIsDistinctLetters(bars: seq<Consensus.Bar>, optionCount: nat)
    requires Consensus.Suggestion(bars) != ""
    ensures AnswerCount(Consensus.Suggestion(bars), optionCount) == |Chars(Consensus.Suggestion(bars))|
  {
    Consensus.SuggestionIsSortedLetters(bars);
    IncreasingCountsDistinct(Consensus.Suggestion(bars));
  }

  // ---------------------------------------------------------------------
  // A whole page

  /** The record of a page that was fetched and parsed. */
  function RecordOf(page: Node, ref: SourceRef, index: nat): QuestionRecord {
    var c := Container(page);
    var opts := Options.ChoicesOf(Options.ItemsOf(c));
    var suggested := Consensus.SuggestedAnswer(c);
    QuestionRecord(IdOf(ref, index), ref.url, ref.title.GetOr(NoTitle), Sanitizer.StemOf(c),
      opts, suggested, AnswerCount(suggested, |opts|), None)
  }

  /** The record of a page whose processing raised `message`. */
  function FailureRecord(ref: SourceRef, index: nat, message: string): QuestionRecord {
    QuestionRecord(IdOf(ref, index), ref.url, ref.title.GetOr(FailedTitle),
      Element("p", [], map[], [Text(FailurePrefix + message)]),
      [], "", 1, Some(message))
  }

  /** What a successful record promises: it is identified and titled by its
      source, its stem, options and suggestion are those read from the page's
      question container, every option is well formed, the suggestion is
      sorted distinct capital letters, the count is at least one (the
      suggestion's length when there is one, else the fallback for the number
      of options), and there is no error. */
  lemma RecordOfSpec(page: Node, ref: SourceRef, index: nat)
    ensures var r := RecordOf(page, ref, index);
      var c := Container(page);
      && r.error.None?
      && r.id == IdOf(ref, index)
      && r.url == ref.url
      && r.title == ref.title.GetOr(NoTitle)
      && r.stem == Sanitizer.StemOf(c)
      && r.options == Options.ChoicesOf(Options.ItemsOf(c))
      && r.suggested == Consensus.SuggestedAnswer(c)
      && (forall o :: o in r.options ==> Options.WellFormed(o))
      && StrictlyIncreasing(r.suggested)
      && (forall ch :: ch in r.suggested ==> IsUpper(ch))
      && r.numAnswers >= 1
      && (r.suggested != "" ==> r.numAnswers == |r.suggested|)
      && (r.suggested == "" ==> r.numAnswers == AnswerCount("", |r.options|))
  {
    var c := Container(page);
    Options.ChoicesWellFormed(Options.ItemsOf(c));
    match Consensus.LocateWidget(c)
    case None =>
    case Some(w) =>
      Consensus.SuggestionIsSortedLetters(Consensus.BarsOf(w));
  }

  /** A failure record keeps the reference's id, url and title (or the
      failure title), has no options, no suggestion, one answer to pick, and
      its stem is a paragraph that carries the message, both as its error and as the end of its stem's text. */
  lemma FailureRecordSpec(ref: SourceRef, index: nat, message: string)
    ensures var r := FailureRecord(ref, index, message);
      && r.error == Some(message)
      && r.options == [] && r.suggested == "" && r.numAnswers == 1
      && r.id == IdOf(ref, index) && r.url == ref.url
      && r.title == ref.title.GetOr(FailedTitle)
      && r.stem.Element? && r.stem.name == "p"
      && Kids(r.stem) == [Text(FailurePrefix + message)]
      && OccursAt(FailurePrefix + message, message, |FailurePrefix|)
  {
    assert (FailurePrefix + message)[|FailurePrefix|..] == message;
  }

  /** Extracting one fetched page. */
  method ExtractQuestionData(page: Node, ref: SourceRef, index: nat) returns (rec: QuestionRecord)
    ensures rec == RecordOf(page, ref, index)
  {
    var c := Container(page);
    var stem := Sanitizer.StemOf(c);
    var opts := Options.ExtractChoices(Options.ItemsOf(c));
    var suggested := "";
    match Consensus.LocateWidget(c) {
      case Some(w) =>
        suggested := Consensus.ResolveSuggestion(Consensus.BarsOf(w));
      case None =>
    }
    var count := AnswerCount(suggested, |opts|);
    rec := QuestionRecord(IdOf(ref, index), ref.url, ref.title.GetOr(NoTitle), stem, opts, suggested, count, None);
  }

  // ---------------------------------------------------------------------
  // The batch

  function Outcome(ref: SourceRef, index: nat, page: PageOutcome): QuestionRecord {
    match page
    case Fetched(doc) => RecordOf(doc, ref, index)
    case Failed(message) => FailureRecord(ref, index, message)
  }

  /** One turn of the loop: extract the page, or build the failure record
      for the exception that interrupted it. */
  method ProcessPage(ref: SourceRef, index: nat, page: PageOutcome) returns (rec: QuestionRecord)
    ensures rec == Outcome(ref, index, page)
  {
    match page {
      case Fetched(doc) =>
        rec := ExtractQuestionData(doc, ref, index);
      case Failed(message) =>
        rec := FailureRecord(ref, index, message);
    }
  }

  /** The records of a whole list, one per entry and in order. */
  function Batch(refs: seq<SourceRef>, pages: seq<PageOutcome>): (r: seq<QuestionRecord>)
    requires |pages| == |refs|
    ensures |r| == |refs|
  {
    seq(|refs|, i requires 0 <= i < |refs| => Outcome(refs[i], i, pages[i]))
  }

  lemma BatchAt(refs: seq<SourceRef>, pages: seq<PageOutcome>, i: nat)
    requires |pages| == |refs| && i < |refs|
    ensures Batch(refs, pages)[i] == Outcome(refs[i], i, pages[i])
  {
  }

  /** The loop over the input list: one record per entry, in order; a page
      that fails yields its failure record and the loop goes on. An empty
      list produces nothing at all. */
  method ScrapeAll(refs: seq<SourceRef>, pages: seq<PageOutcome>) returns (out: Option<seq<QuestionRecord>>)
    requires |pages| == |refs|
    ensures refs == [] <==> out.None?
    ensures out.Some? ==> out.value == Batch(refs, pages)
  {
    if refs == [] {
      return None;
    }
    ghost var all := Batch(refs, pages);
    var records: seq<QuestionRecord> := [];
    var i := 0;
    while i < |refs|
      invariant 0 <= i <= |refs|
      invariant records == all[..i]
    {
      var rec := ProcessPage(refs[i], i, pages[i]);
      BatchAt(refs, pages, i);
      records := records + [rec];
      assert all[..i + 1] == all[..i] + [all[i]];
      i := i + 1;
    }
    return Some(records);
  }

  /** In the written list, the records without an error are exactly those of
      the pages that were fetched, each keeps its entry's address and id, and
      each of them asks for at least one letter. */
  lemma BatchErrorsMarkFailures(refs: seq<SourceRef>, pages: seq<PageOutcome>)
    requires |pages| == |refs|
    ensures var records := Batch(refs, pages);
      forall i :: 0 <= i < |refs| ==>
        && (records[i].error.None? <==> pages[i].Fetched?)
        && records[i].url == refs[i].url
        && records[i].id == IdOf(refs[i], i)
        && records[i].numAnswers >= 1
  {
    var records := Batch(refs, pages);
    forall i | 0 <= i < |refs|
      ensures records[i].error.None? <==> pages[i].Fetched?
      ensures records[i].url == refs[i].url && records[i].id == IdOf(refs[i], i)
      ensures records[i].numAnswers >= 1
    {
      BatchAt(refs, pages, i);
      if pages[i].Fetched? {
        RecordOfSpec(pages[i].page, refs[i], i);
      }
    }
  }
}
