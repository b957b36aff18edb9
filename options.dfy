/** The answer options of a question page: one per list item of the choices
    list, labelled by its letter span, with the item's remaining text as the
    option text once the letter and the vote decorations are removed. */
module Options {
  import opened Wrappers
  import opened Strings
  import opened Html

  const ChoicesBox: Selector := Selector("div", Some("question-choices-container"))
  const ChoicesList: Selector := Selector("ul", None)
  const ChoiceItem: Selector := Selector("li", Some("multi-choice-item"))
  const LetterSpan: Selector := Selector("span", Some("multi-choice-letter"))

  /** The decorations removed from an item before its text is read, in the
      order they are removed. */
  const Decorations: seq<Selector> := [
    Selector("span", Some("most-voted-answer-badge")),
    Selector("span", Some("badge")),
    Selector("span", Some("discussion-link-title")),
    Selector("span", Some("vote-count")),
    Selector("div", Some("voting-bar")),
    Selector("div", Some("progress")),
    Selector("a", Some("btn")),
    Selector("a", Some("reveal-solution"))
  ]

  /** One option: the letter as printed, the letter cleaned, and the text. */
  datatype Choice = Choice(rawLetter: string, letter: string, text: string)

  /** The list items of a question container: every choice item below the
      first list of the first choices box, in document order, and none when
      either is missing. */
  function ItemsOf(container: Node): (r: seq<Node>)
    ensures forall li :: li in r ==> Matches(li, ChoiceItem)
    ensures match FindFirst(Kids(container), ChoicesBox)
      case None => r == []
      case Some(box) =>
        match FindFirst(Kids(box), ChoicesList)
        case None => r == []
        case Some(list) => r == Filter(Preorder(Kids(list)), ChoiceItem)
  {
    match FindFirst(Kids(container), ChoicesBox)
    case None => []
    case Some(box) =>
      match FindFirst(Kids(box), ChoicesList)
      case None => []
      case Some(list) =>
        FindAllInDocumentOrder(Kids(list), ChoiceItem);
        FindAll(Kids(list), ChoiceItem)
  }

  /** The letter as printed: the text of the first letter span, or "". */
  function RawLetter(li: Node): string {
    match FindFirst(Kids(li), LetterSpan)
    case None => ""
    case Some(span) => GetText(span)
  }

  /** The letter with its dots removed and white space stripped. */
  function CleanLetter(raw: string): (r: string)
    ensures '.' !in r
    ensures forall c :: c in r ==> c in raw
    ensures r == [] || (r[0] !in Whitespace && r[|r| - 1] !in Whitespace)
  {
    var noDots := Remove(raw, '.');
    StripShape(noDots);
    StripKeepsChars(noDots);
    Strip(noDots)
  }

  /** What is left of the item once its letter span and decorations are gone. */
  function Residual(li: Node): seq<Node> {
    var rest := if FindFirst(Kids(li), LetterSpan).Some? then RemoveFirst(Kids(li), LetterSpan) else Kids(li);
    PruneEach(rest, Decorations)
  }

  /** `get_text(strip=True)` of the item once the letter and decorations are gone. */
  function OptionText(li: Node): string {
    JoinStripped(Texts(Residual(li)))
  }

  predicate WellFormed(c: Choice) {
    && c.letter != "" && c.text != ""
    && '.' !in c.letter
    && c.letter[0] !in Whitespace && c.letter[|c.letter| - 1] !in Whitespace
  }

  /** The option an item yields: none unless both its cleaned letter and its
      text are non-empty. */
  function ChoiceOf(li: Node): Option<Choice> {
    var raw := RawLetter(li);
    var letter := CleanLetter(raw);
    var text := OptionText(li);
    if letter != "" && text != "" then Some(Choice(raw, letter, text)) else None
  }

  /** An item yields an option exactly when it has a letter span whose
      cleaned letter is non-empty and its remaining text is non-empty; the
      option then carries that letter and that text. */
  lemma ChoiceOfSpec(li: Node)
    ensures FindFirst(Kids(li), LetterSpan).None? ==> ChoiceOf(li).None?
    ensures ChoiceOf(li).Some? <==> CleanLetter(RawLetter(li)) != "" && OptionText(li) != ""
    ensures ChoiceOf(li).Some? ==>
      var c := ChoiceOf(li).value;
      WellFormed(c) && c.rawLetter == RawLetter(li) && c.letter == CleanLetter(c.rawLetter) && c.text == OptionText(li)
  {
    if FindFirst(Kids(li), LetterSpan).None? {
      NoLetterNoChoice(li);
    }
  }

  lemma NoLetterNoChoice(li: Node)
    requires FindFirst(Kids(li), LetterSpan).None?
    ensures CleanLetter(RawLetter(li)) == ""
  {
    assert RawLetter(li) == "";
    assert Remove("", '.') == "";
  }

  /** An item's option text holds none of the decorations: every one of them
      is gone from the residual the text is read from. */
  lemma ResidualHasNoDecoration(li: Node, d: Selector)
    requires d in Decorations
    ensures FindAll(Residual(li), d) == []
  {
    var rest := if FindFirst(Kids(li), LetterSpan).Some? then RemoveFirst(Kids(li), LetterSpan) else Kids(li);
    PruneEachRemovesAll(rest, Decorations, d);
  }

  /** Where an item has a letter span, its letter's text is cut out of the
      item's text stream before the option text is read. */
  lemma LetterIsNotText(li: Node, span: Node)
    requires FindFirst(Kids(li), LetterSpan) == Some(span)
    ensures var rest, k := Texts(RemoveFirst(Kids(li), LetterSpan)), TextsBefore(Kids(li), LetterSpan);
      k <= |rest| && Texts(Kids(li)) == rest[..k] + Texts(Kids(span)) + rest[k..] &&
      RawLetter(li) == JoinStripped(Texts(Kids(span)))
  {
    RemoveFirstCutsItsText(Kids(li), LetterSpan, span);
  }

  // ---------------------------------------------------------------------
  // The list of options

  /** What each item yields. */
  function Outcomes(items: seq<Node>): (r: seq<Option<Choice>>)
    ensures |r| == |items|
  {
    seq(|items|, i requires 0 <= i < |items| => ChoiceOf(items[i]))
  }

  /** The options of a list of items, in item order. */
  function ChoicesOf(items: seq<Node>): seq<Choice> {
    Present(Outcomes(items))
  }

  /** Which item each option came from. */
  function Sources(items: seq<Node>): seq<nat> {
    PresentAt(Outcomes(items))
  }

  /** The options are exactly the items that yield one, each once and in the
      order of the items. */
  lemma ChoicesComeFromItems(items: seq<Node>)
    ensures var src, opts := Sources(items), ChoicesOf(items);
      && |src| == |opts|
      && (forall j :: 0 <= j < |src| ==> src[j] < |items| && ChoiceOf(items[src[j]]) == Some(opts[j]))
      && (forall i, j :: 0 <= i < j < |src| ==> src[i] < src[j])
      && (forall i :: 0 <= i < |items| && ChoiceOf(items[i]).Some? ==> i in src)
  {
    PresentComesFrom(Outcomes(items));
  }

  /** Every option the list yields is well formed. */
  lemma {:induction false} ChoicesWellFormed(items: seq<Node>)
    ensures forall c :: c in ChoicesOf(items) ==> WellFormed(c)
  {
    ChoicesComeFromItems(items);
    var src, opts := Sources(items), ChoicesOf(items);
    forall c | c in opts ensures WellFormed(c) {
      var j :| 0 <= j < |opts| && opts[j] == c;
      ChoiceOfSpec(items[src[j]]);
    }
  }

  /** The loop over the list items, appending each item's option. */
  method ExtractChoices(items: seq<Node>) returns (opts: seq<Choice>)
    ensures opts == ChoicesOf(items)
  {
    ghost var os := Outcomes(items);
    opts := [];
    var i := 0;
    while i < |items|
      invariant 0 <= i <= |items|
      invariant opts == Present(os[..i])
    {
      var c := ChoiceOf(items[i]);
      assert os[i] == c;
      PresentSnoc(os, i);
      if c.Some? {
        opts := opts + [c.value];
      }
      i := i + 1;
    }
    assert os[..i] == os;
  }
}
