/** The community-vote reading of a question page: where the vote widget is,
    how each bar's text is matched, and how the bars resolve to a suggested
    answer (letters sorted, each once). */
module Consensus {
  import opened Wrappers
  import opened Strings
  import opened Html
  import Sanitizer
  import Options

  const Widget: Selector := Selector("div", Some("vote-distribution-bar"))
  const VoteBar: Selector := Selector("div", Some("vote-bar"))

  // ---------------------------------------------------------------------
  // Locating the widget

  /** The four places tried in turn: anywhere in the container; the next
      sibling of the stem paragraph; the next sibling of the choices box;
      anywhere inside the choices box. */
  function LocateWidget(container: Node): Option<Node> {
    var ns := Kids(container);
    var anywhere := FindFirst(ns, Widget);
    if anywhere.Some? then anywhere
    else
      var afterStem :=
        if FindFirst(ns, Sanitizer.StemParagraph).Some? then FindNextSibling(ns, Sanitizer.StemParagraph, Widget) else None;
      if afterStem.Some? then afterStem
      else
        match FindFirst(ns, Options.ChoicesBox)
        case None => None
        case Some(box) =>
          var afterBox := FindNextSibling(ns, Options.ChoicesBox, Widget);
          if afterBox.Some? then afterBox else FindFirst(Kids(box), Widget)
  }

  /** The three fallbacks only search inside the container, so they find
      nothing the first search missed: the widget is the first one anywhere
      in the container. */
  lemma LocateWidgetIsFirst(container: Node)
    ensures LocateWidget(container) == FindFirst(Kids(container), Widget)
  {
    var ns := Kids(container);
    if FindFirst(ns, Widget).None? {
      NoMatchNoSibling(ns, Sanitizer.StemParagraph, Widget);
      NoMatchNoSibling(ns, Options.ChoicesBox, Widget);
      var box := FindFirst(ns, Options.ChoicesBox);
      if box.Some? {
        assert box.value in FindAll(ns, Options.ChoicesBox);
        NoMatchBelowFound(ns, Options.ChoicesBox, Widget, box.value);
      }
    }
  }

  /** One vote bar: its stripped text and its `style` attribute, if any. */
  datatype Bar = Bar(text: string, style: Option<string>)

  function BarOf(n: Node): Bar {
    Bar(GetText(n), if n.Element? && "style" in n.attrs then Some(n.attrs["style"]) else None)
  }

  /** The vote bars of a widget, one per bar element below it, in document
      order. */
  function BarsOf(widget: Node): (r: seq<Bar>)
    ensures var ns := Filter(Preorder(Kids(widget)), VoteBar);
      |r| == |ns| && forall i :: 0 <= i < |r| ==> r[i] == BarOf(ns[i])
  {
    FindAllInDocumentOrder(Kids(widget), VoteBar);
    var ns := FindAll(Kids(widget), VoteBar);
    seq(|ns|, i requires 0 <= i < |ns| => BarOf(ns[i]))
  }

  // ---------------------------------------------------------------------
  // The three patterns

  /** The character classes the patterns use (`[A-Z]`, `\s`, `\d`). */
  datatype CharClass = Upper | Space | Digit

  predicate In(c: char, k: CharClass) {
    match k
    case Upper => IsUpper(c)
    case Space => c in Whitespace
    case Digit => IsDigit(c)
  }

  /** Every character of `s[lo..hi]` is in class `k`. */
  predicate AllIn(s: string, lo: int, hi: int, k: CharClass) {
    0 <= lo <= hi <= |s| && forall i :: lo <= i < hi ==> In(s[i], k)
  }

  /** The length of the greedy run of class `k` starting at `i`. */
  function Run(s: string, i: nat, k: CharClass): (n: nat)
    requires i <= |s|
    ensures i + n <= |s|
    decreases |s| - i
  {
    if i < |s| && In(s[i], k) then 1 + Run(s, i + 1, k) else 0
  }

  /** The greedy run is all of class `k` and stops at the end of the string
      or at a character outside the class. */
  lemma {:induction false} RunSpec(s: string, i: nat, k: CharClass)
    requires i <= |s|
    ensures AllIn(s, i, i + Run(s, i, k), k)
    ensures i + Run(s, i, k) == |s| || !In(s[i + Run(s, i, k)], k)
    decreases |s| - i
  {
    if i < |s| && In(s[i], k) {
      RunSpec(s, i + 1, k);
    }
  }

  /** A run that ends at `end`, where the string ends or a character outside
      its class follows, is the greedy run. */
  lemma {:induction false} RunIsMaximal(s: string, i: nat, k: CharClass, end: nat)
    requires AllIn(s, i, end, k) && (end == |s| || !In(s[end], k))
    ensures i + Run(s, i, k) == end
    decreases end - i
  {
    if i < end {
      RunIsMaximal(s, i + 1, k, end);
    }
  }

  /** A vote read from one bar: the letters and the percentage. */
  datatype Vote = Vote(letters: string, percent: nat)

  /** The percentage part `\s*\((\d+)%\)` matched at `j`. */
  function PercentAt(s: string, j: nat): Option<nat>
    requires j <= |s|
  {
    var k := j + Run(s, j, Space);
    if k < |s| && s[k] == '(' then
      var e := k + 1 + Run(s, k + 1, Digit);
      if e > k + 1 && e + 1 < |s| && s[e] == '%' && s[e + 1] == ')'
      then RunSpec(s, k + 1, Digit); Some(ParseDecimal(s[k + 1..e]))
      else None
    else None
  }

  /** White space from `j` up to `k`, `(` at `k`, digits up to `e`, then `%)`:
      one way the percentage part can match at `j`. */
  predicate TailShape(s: string, j: nat, k: nat, e: nat) {
    && j <= k && k + 1 < e && e + 1 < |s|
    && AllIn(s, j, k, Space) && s[k] == '('
    && AllIn(s, k + 1, e, Digit)
    && s[e] == '%' && s[e + 1] == ')'
  }

  /** Whenever the percentage part can match, `PercentAt` finds it, and the
      percentage is the number between the parentheses. */
  lemma PercentAtComplete(s: string, j: nat, k: nat, e: nat)
    requires TailShape(s, j, k, e)
    ensures PercentAt(s, j) == Some(ParseDecimal(s[k + 1..e]))
  {
    RunIsMaximal(s, j, Space, k);
    RunIsMaximal(s, k + 1, Digit, e);
  }

  /** `PercentAt` only reports a percentage where the part does match. */
  lemma PercentAtSound(s: string, j: nat)
    requires j <= |s| && PercentAt(s, j).Some?
    ensures exists k: nat, e: nat :: TailShape(s, j, k, e) && PercentAt(s, j) == Some(ParseDecimal(s[k + 1..e]))
  {
    var k := j + Run(s, j, Space);
    RunSpec(s, j, Space);
    var e := k + 1 + Run(s, k + 1, Digit);
    RunSpec(s, k + 1, Digit);
    assert TailShape(s, j, k, e);
  }

  /** `([A-Z]{2,})\s*\((\d+)%\)` matched at `i`. Backtracking cannot help:
      a shorter letter run is followed by a letter, which neither white space
      nor `(` matches, and a shorter digit run by a digit rather than `%`. */
  function MultiAt(s: string, i: nat): Option<Vote>
    requires i <= |s|
  {
    var u := Run(s, i, Upper);
    if u >= 2 then
      match PercentAt(s, i + u)
      case Some(p) => Some(Vote(s[i..i + u], p))
      case None => None
    else None
  }

  /** A multi-letter vote has at least two letters, all capitals. */
  lemma MultiAtLetters(s: string, i: nat)
    requires i <= |s| && MultiAt(s, i).Some?
    ensures |MultiAt(s, i).value.letters| >= 2
    ensures forall c :: c in MultiAt(s, i).value.letters ==> IsUpper(c)
  {
    var u := Run(s, i, Upper);
    RunSpec(s, i, Upper);
    assert MultiAt(s, i).value.letters == s[i..i + u];
    forall c | c in s[i..i + u] ensures IsUpper(c) {
      var x :| i <= x < i + u && s[x] == c;
      assert In(s[x], Upper);
    }
  }

  /** Capital letters from `i` up to `j` (at least two), then the percentage
      part: one way the pattern can match at `i`. */
  predicate MultiShape(s: string, i: nat, j: nat, k: nat, e: nat) {
    i + 2 <= j && AllIn(s, i, j, Upper) && TailShape(s, j, k, e)
  }

  /** Every way the pattern can match at `i` gives the vote `MultiAt` reports. */
  lemma MultiAtComplete(s: string, i: nat, j: nat, k: nat, e: nat)
    requires MultiShape(s, i, j, k, e)
    ensures MultiAt(s, i) == Some(Vote(s[i..j], ParseDecimal(s[k + 1..e])))
  {
    LetterRunEnds(s, j, k, e);
    RunIsMaximal(s, i, Upper, j);
    MultiAtUnfold(s, i, j);
    PercentAtComplete(s, j, k, e);
  }

  lemma MultiAtUnfold(s: string, i: nat, j: nat)
    requires i <= j <= |s| && i + Run(s, i, Upper) == j && i + 2 <= j
    ensures MultiAt(s, i) == if PercentAt(s, j).Some? then Some(Vote(s[i..j], PercentAt(s, j).value)) else None
  {
  }

  /** The percentage part starts with white space or `(`, never a letter. */
  lemma LetterRunEnds(s: string, j: nat, k: nat, e: nat)
    requires TailShape(s, j, k, e)
    ensures !In(s[j], Upper)
  {
    assert j < k ==> In(s[j], Space);
  }

  /** `re.search`: the leftmost position, from `i` on, where the pattern matches. */
  function FirstMultiFrom(s: string, i: nat): (r: Option<nat>)
    requires i <= |s|
    ensures r.Some? ==> i <= r.value <= |s|
    decreases |s| - i
  {
    if MultiAt(s, i).Some? then Some(i)
    else if i == |s| then None
    else FirstMultiFrom(s, i + 1)
  }

  lemma {:induction false} FirstMultiFromSpec(s: string, i: nat)
    requires i <= |s|
    ensures var r := FirstMultiFrom(s, i);
      && (r.Some? ==> i <= r.value <= |s| && MultiAt(s, r.value).Some?)
      && (r.Some? ==> forall k :: i <= k < r.value ==> MultiAt(s, k).None?)
      && (r.None? ==> forall k :: i <= k <= |s| ==> MultiAt(s, k).None?)
    decreases |s| - i
  {
    if MultiAt(s, i).None? && i < |s| {
      FirstMultiFromSpec(s, i + 1);
      var r := FirstMultiFrom(s, i + 1);
      assert FirstMultiFrom(s, i) == r;
      assert forall k :: i <= k <= i ==> MultiAt(s, k).None?;
    }
  }

  function SearchMulti(s: string): Option<Vote> {
    match FirstMultiFrom(s, 0)
    case None => None
    case Some(k) => MultiAt(s, k)
  }

  /** The search finds nothing exactly when the pattern matches nowhere, and
      otherwise returns the match at the leftmost position. */
  lemma SearchMultiSpec(s: string)
    ensures SearchMulti(s).None? <==> forall k :: 0 <= k <= |s| ==> MultiAt(s, k).None?
    ensures SearchMulti(s).Some? ==>
      exists k :: 0 <= k <= |s| && MultiAt(s, k) == SearchMulti(s) && forall j :: 0 <= j < k ==> MultiAt(s, j).None?
  {
    FirstMultiFromSpec(s, 0);
  }

  /** `^([A-Z])\s*\((\d+)%\)`: one letter at the very start, then the percentage. */
  function SingleAt(s: string): (r: Option<Vote>)
    ensures r.Some? ==> |s| >= 1 && IsUpper(s[0]) && r.value.letters == [s[0]]
  {
    if |s| >= 1 && IsUpper(s[0]) then
      match PercentAt(s, 1)
      case Some(p) => Some(Vote([s[0]], p))
      case None => None
    else None
  }

  lemma SingleAtComplete(s: string, k: nat, e: nat)
    requires |s| >= 1 && IsUpper(s[0]) && TailShape(s, 1, k, e)
    ensures SingleAt(s) == Some(Vote([s[0]], ParseDecimal(s[k + 1..e])))
  {
    PercentAtComplete(s, 1, k, e);
  }

  /** `^\s*([A-Z])\s*$`: a lone letter with only white space around it. */
  function VisibleLetter(s: string): (r: Option<char>)
    ensures r.Some? ==> IsUpper(r.value)
  {
    var w := Run(s, 0, Space);
    if w < |s| && IsUpper(s[w]) && w + 1 + Run(s, w + 1, Space) == |s| then Some(s[w]) else None
  }

  /** `VisibleLetter` reports exactly the strings the pattern matches in full. */
  lemma VisibleLetterExact(s: string, w: nat)
    requires w < |s| && AllIn(s, 0, w, Space) && IsUpper(s[w]) && AllIn(s, w + 1, |s|, Space)
    ensures VisibleLetter(s) == Some(s[w])
  {
    RunIsMaximal(s, 0, Space, w);
    RunIsMaximal(s, w + 1, Space, |s|);
  }

  // ---------------------------------------------------------------------
  // The visible-bar fallback

  /** The bar's inline style shows it, spaces ignored. The second test looks
      for a space in a string whose spaces were just removed. */
  predicate FlexStyled(b: Bar) {
    b.style.Some? &&
    (Contains(Remove(b.style.value, ' '), "display:flex") || Contains(Remove(b.style.value, ' '), "display: flex"))
  }

  lemma SecondFlexTestIsDead(style: string)
    ensures !Contains(Remove(style, ' '), "display: flex")
  {
    assert "display: flex"[8] == ' ';
    NoOccurrenceOfForeignChar(Remove(style, ' '), "display: flex", ' ');
  }

  // ---------------------------------------------------------------------
  // Resolution

  /** What each bar yields to each tier. */
  function Multis(bars: seq<Bar>): (r: seq<Option<Vote>>)
    ensures |r| == |bars|
  {
    seq(|bars|, i requires 0 <= i < |bars| => SearchMulti(bars[i].text))
  }

  function Singles(bars: seq<Bar>): (r: seq<Option<Vote>>)
    ensures |r| == |bars|
  {
    seq(|bars|, i requires 0 <= i < |bars| => SingleAt(bars[i].text))
  }

  /** A bar offers a visible letter only when the single pattern fails on it. */
  function Visibles(bars: seq<Bar>): (r: seq<Option<char>>)
    ensures |r| == |bars|
  {
    seq(|bars|, i requires 0 <= i < |bars| =>
      if SingleAt(bars[i].text).None? && FlexStyled(bars[i]) then VisibleLetter(bars[i].text) else None)
  }

  /** The vote kept by a scan that replaces its best only on a strictly
      higher percentage. */
  function BestOf(vs: seq<Option<Vote>>): Option<Vote>
    decreases |vs|
  {
    if vs == [] then None
    else
      var prev := BestOf(vs[..|vs| - 1]);
      var last := vs[|vs| - 1];
      if last.Some? && (prev.None? || last.value.percent > prev.value.percent) then last else prev
  }

  /** Position `k` holds the highest percentage, and every earlier vote is
      strictly lower. */
  predicate FirstMaximum(vs: seq<Option<Vote>>, k: int) {
    && 0 <= k < |vs| && vs[k].Some?
    && (forall i :: 0 <= i < |vs| && vs[i].Some? ==> vs[i].value.percent <= vs[k].value.percent)
    && (forall i :: 0 <= i < k && vs[i].Some? ==> vs[i].value.percent < vs[k].value.percent)
  }

  /** The scan keeps the first of the votes with the highest percentage, and
      keeps nothing only when there is no vote at all. */
  lemma {:induction false} BestOfIsFirstMaximum(vs: seq<Option<Vote>>)
    ensures BestOf(vs).None? <==> forall i :: 0 <= i < |vs| ==> vs[i].None?
    ensures BestOf(vs).Some? ==> exists k :: FirstMaximum(vs, k) && vs[k] == BestOf(vs)
    decreases |vs|
  {
    if vs != [] {
      var n := |vs| - 1;
      var init := vs[..n];
      BestOfIsFirstMaximum(init);
      assert forall i :: 0 <= i < n ==> init[i] == vs[i];
      var prev := BestOf(init);
      if vs[n].Some? && (prev.None? || vs[n].value.percent > prev.value.percent) {
        assert FirstMaximum(vs, n) by {
          if prev.Some? {
            var k :| FirstMaximum(init, k) && init[k] == prev;
          }
        }
      } else if prev.Some? {
        var k :| FirstMaximum(init, k) && init[k] == prev;
        assert FirstMaximum(vs, k);
      }
    }
  }

  lemma BestOfSnoc(vs: seq<Option<Vote>>, i: nat)
    requires i < |vs|
    ensures var prev := BestOf(vs[..i]);
      BestOf(vs[..i + 1]) ==
        if vs[i].Some? && (prev.None? || vs[i].value.percent > prev.value.percent) then vs[i] else prev
  {
    assert vs[..i + 1][..i] == vs[..i];
  }

  /** The letters before sorting: the best multi-letter vote; failing that,
      the best single-letter vote; failing that, the first visible letter. */
  function RawSuggestion(bars: seq<Bar>): string {
    var multi := BestOf(Multis(bars));
    if multi.Some? then multi.value.letters
    else
      var single := BestOf(Singles(bars));
      if single.Some? then single.value.letters
      else
        match FirstPresent(Visibles(bars))
        case Some(c) => [c]
        case None => []
  }

  /** The suggested answer: the raw letters, sorted, each once. */
  function Suggestion(bars: seq<Bar>): string {
    SortedUnique(RawSuggestion(bars))
  }

  /** The suggested answer of a question container ("" without a widget). */
  function SuggestedAnswer(container: Node): string {
    match LocateWidget(container)
    case None => ""
    case Some(w) => Suggestion(BarsOf(w))
  }

  /** The suggestion is a strictly increasing string of capital letters. */
  lemma SuggestionIsSortedLetters(bars: seq<Bar>)
    ensures StrictlyIncreasing(Suggestion(bars))
    ensures forall c :: c in Suggestion(bars) ==> IsUpper(c)
  {
    var ms, ss, vs := Multis(bars), Singles(bars), Visibles(bars);
    var raw := RawSuggestion(bars);
    assert forall c :: c in raw ==> IsUpper(c) by {
      BestOfIsFirstMaximum(ms);
      if BestOf(ms).Some? {
        var k :| FirstMaximum(ms, k) && ms[k] == BestOf(ms);
        var t := bars[k].text;
        var at := FirstMultiFrom(t, 0);
        MultiAtLetters(t, at.value);
      } else {
        BestOfIsFirstMaximum(ss);
        if BestOf(ss).None? {
          FirstPresentIsFirst(vs);
        }
      }
    }
  }

  /** No answer is suggested exactly when no bar carries a vote any tier
      recognises. */
  lemma SuggestionEmptyIffNoVote(bars: seq<Bar>)
    ensures Suggestion(bars) == [] <==>
      forall i :: 0 <= i < |bars| ==> Multis(bars)[i].None? && Singles(bars)[i].None? && Visibles(bars)[i].None?
  {
    RawEmptyIffNoVote(bars);
    var raw := RawSuggestion(bars);
    assert raw != [] ==> raw[0] in Suggestion(bars);
  }

  lemma RawEmptyIffNoVote(bars: seq<Bar>)
    ensures RawSuggestion(bars) == [] <==>
      forall i :: 0 <= i < |bars| ==> Multis(bars)[i].None? && Singles(bars)[i].None? && Visibles(bars)[i].None?
  {
    BestMultiHasLetters(bars);
    BestSingleHasLetter(bars);
    BestOfIsFirstMaximum(Multis(bars));
    BestOfIsFirstMaximum(Singles(bars));
    FirstPresentIsFirst(Visibles(bars));
  }

  /** A single-letter vote has exactly one letter. */
  lemma BestSingleHasLetter(bars: seq<Bar>)
    ensures BestOf(Singles(bars)).Some? ==> |BestOf(Singles(bars)).value.letters| == 1
  {
    var ss := Singles(bars);
    BestOfIsFirstMaximum(ss);
    if BestOf(ss).Some? {
      var k :| FirstMaximum(ss, k) && ss[k] == BestOf(ss);
      assert ss[k] == SingleAt(bars[k].text);
    }
  }

  // ---------------------------------------------------------------------
  // The loops

  /** The two scans over the bars, with the source's own state variables
      (`-1` for "no percentage yet", "" for "no letters yet"). */
  method ResolveSuggestion(bars: seq<Bar>) returns (answer: string)
    ensures answer == Suggestion(bars)
  {
    var bestLetters, bestPercent := ScanMultis(bars);
    BestMultiHasLetters(bars);
    var raw: string;
    if bestLetters != "" {
      raw := bestLetters;
    } else {
      raw := ScanSingles(bars);
    }
    answer := SortedUnique(raw);
  }

  /** A multi-letter vote always has at least two letters. */
  lemma BestMultiHasLetters(bars: seq<Bar>)
    ensures BestOf(Multis(bars)).Some? ==> |BestOf(Multis(bars)).value.letters| >= 2
  {
    var ms := Multis(bars);
    BestOfIsFirstMaximum(ms);
    if BestOf(ms).Some? {
      var k :| FirstMaximum(ms, k) && ms[k] == BestOf(ms);
      var t := bars[k].text;
      assert ms[k] == SearchMulti(t);
      MultiAtLetters(t, FirstMultiFrom(t, 0).value);
    }
  }

  /** The first scan: the multi-letter vote with the highest percentage. */
  method ScanMultis(bars: seq<Bar>) returns (bestLetters: string, bestPercent: int)
    ensures var b := BestOf(Multis(bars));
      if b.None? then bestLetters == "" && bestPercent == -1
      else bestLetters == b.value.letters && bestPercent == b.value.percent
  {
    ghost var ms := Multis(bars);
    bestLetters, bestPercent := "", -1;
    var i := 0;
    while i < |bars|
      invariant 0 <= i <= |bars|
      invariant var b := BestOf(ms[..i]);
        if b.None? then bestLetters == "" && bestPercent == -1
        else bestLetters == b.value.letters && bestPercent == b.value.percent
    {
      var m := SearchMulti(bars[i].text);
      BestOfSnoc(ms, i);
      if m.Some? && m.value.percent > bestPercent {
        bestLetters := m.value.letters;
        bestPercent := m.value.percent;
      }
      i := i + 1;
    }
    assert ms[..i] == ms;
  }

  /** The second scan: the best single-letter vote and, as a fallback, the
      first visible bar's lone letter. */
  method ScanSingles(bars: seq<Bar>) returns (raw: string)
    requires BestOf(Multis(bars)).None?
    ensures raw == RawSuggestion(bars)
  {
    ghost var ss, vs := Singles(bars), Visibles(bars);
    var singleBest: Option<char> := None;
    var maxPercent: int := -1;
    var visible: Option<char> := None;
    var i := 0;
    while i < |bars|
      invariant 0 <= i <= |bars|
      invariant var b := BestOf(ss[..i]);
        if b.None? then singleBest.None? && maxPercent == -1
        else singleBest.Some? && b.value.letters == [singleBest.value] && maxPercent == b.value.percent
      invariant visible == FirstPresent(vs[..i])
    {
      var text := bars[i].text;
      BestOfSnoc(ss, i);
      FirstPresentSnoc(vs, i);
      var single := SingleAt(text);
      if single.Some? {
        if single.value.percent > maxPercent {
          maxPercent := single.value.percent;
          singleBest := Some(text[0]);
        }
      } else if FlexStyled(bars[i]) {
        var letter := VisibleLetter(text);
        if letter.Some? && visible.None? {
          visible := letter;
        }
      }
      i := i + 1;
    }
    assert ss[..i] == ss && vs[..i] == vs;
    if singleBest.Some? {
      raw := [singleBest.value];
    } else if visible.Some? {
      raw := [visible.value];
    } else {
      raw := [];
    }
  }
}
