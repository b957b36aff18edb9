/** The question page of the browser client: the letters the user has
    picked, the feedback shown, and what a submission sends to the API. */
module QuestionView {
  import opened Wrappers
  import opened Strings
  import Scraper

  type Question = Scraper.QuestionRecord

  // ---------------------------------------------------------------------
  // The selection

  /** `xs.indexOf(x)`: the first position of `x`, or -1. */
  function IndexOf(xs: seq<string>, x: string): (i: int)
    ensures -1 <= i < |xs|
    ensures i == -1 <==> x !in xs
    ensures i >= 0 ==> xs[i] == x && x !in xs[..i]
  {
    if xs == [] then -1
    else if xs[0] == x then 0
    else
      var j := IndexOf(xs[1..], x);
      if j == -1 then -1
      else
        assert xs[..j + 1] == [xs[0]] + xs[1..][..j];
        j + 1
  }

  /** `shift()`: drops the oldest letter; nothing happens on an empty list. */
  function Shift(xs: seq<string>): seq<string> {
    if xs == [] then [] else xs[1..]
  }

  /** The selection after clicking `letter`, where `limit` is the number of
      letters the shown question asks for, or `None` while none is shown. A
      picked letter is removed; a new one is appended while there is room,
      and replaces the oldest once the limit is reached; without a question
      a new letter is ignored. */
  function Toggled(sel: seq<string>, letter: string, limit: Option<nat>): seq<string> {
    var i := IndexOf(sel, letter);
    if i == -1 then
      match limit
      case None => sel
      case Some(n) => if |sel| < n then sel + [letter] else Shift(sel) + [letter]
    else sel[..i] + sel[i + 1..]
  }

  /** How many letters the selection can hold: the limit, and at least one,
      since a new letter is appended even when the limit is zero. */
  function Room(n: nat): nat {
    if n >= 1 then n else 1
  }

  /** Clicking never creates a duplicate. */
  lemma ToggleKeepsDistinct(sel: seq<string>, letter: string, limit: Option<nat>)
    requires Distinct(sel)
    ensures Distinct(Toggled(sel, letter, limit))
  {
    var i := IndexOf(sel, letter);
    if i == -1 {
      if limit.Some? {
        if |sel| < limit.value {
          AppendKeepsDistinct(sel, letter);
        } else {
          ShiftKeepsDistinct(sel);
          AppendKeepsDistinct(Shift(sel), letter);
        }
      }
    } else {
      RemoveKeepsDistinct(sel, i);
    }
  }

  lemma AppendKeepsDistinct(xs: seq<string>, x: string)
    requires Distinct(xs) && x !in xs
    ensures Distinct(xs + [x])
  {
    var r := xs + [x];
    forall a, b | 0 <= a < b < |r| ensures r[a] != r[b] {
      assert r[a] == xs[a];
      if b == |xs| {
        assert xs[a] in xs;
      }
    }
  }

  lemma ShiftKeepsDistinct(xs: seq<string>)
    requires Distinct(xs)
    ensures Distinct(Shift(xs)) && forall y :: y in Shift(xs) ==> y in xs
  {
    if xs != [] {
      var r := xs[1..];
      forall a, b | 0 <= a < b < |r| ensures r[a] != r[b] {
        assert r[a] == xs[a + 1] && r[b] == xs[b + 1];
      }
    }
  }

  /** Removing the entry at `i` keeps the others, in order. */
  lemma RemoveKeepsDistinct(xs: seq<string>, i: nat)
    requires Distinct(xs) && i < |xs|
    ensures Distinct(xs[..i] + xs[i + 1..])
    ensures xs[i] !in xs[..i] + xs[i + 1..]
  {
    var r := xs[..i] + xs[i + 1..];
    forall a | 0 <= a < |r| ensures r[a] == xs[if a < i then a else a + 1] {
    }
    forall a, b | 0 <= a < b < |r| ensures r[a] != r[b] {
      var a' := if a < i then a else a + 1;
      var b' := if b < i then b else b + 1;
      assert r[a] == xs[a'] && r[b] == xs[b'];
    }
    forall a | 0 <= a < |r| ensures r[a] != xs[i] {
      var a' := if a < i then a else a + 1;
      assert r[a] == xs[a'];
    }
  }

  /** With a question shown, the selection never holds more letters than it
      has room for. */
  lemma ToggleWithinRoom(sel: seq<string>, letter: string, n: nat)
    requires |sel| <= Room(n)
    ensures |Toggled(sel, letter, Some(n))| <= Room(n)
  {
  }

  /** With a question shown, clicking a letter picks it exactly when it was
      not picked. */
  lemma ToggleFlips(sel: seq<string>, letter: string, n: nat)
    requires Distinct(sel)
    ensures letter in Toggled(sel, letter, Some(n)) <==> letter !in sel
  {
    var i := IndexOf(sel, letter);
    if i != -1 {
      RemoveKeepsDistinct(sel, i);
    }
  }

  /** Clicking a picked letter removes it and keeps the other letters in
      their order. */
  lemma ToggleRemoves(sel: seq<string>, letter: string, limit: Option<nat>)
    requires letter in sel
    ensures var i := IndexOf(sel, letter); var r := Toggled(sel, letter, limit);
      && |r| == |sel| - 1
      && (forall k :: 0 <= k < i ==> r[k] == sel[k])
      && (forall k :: i <= k < |r| ==> r[k] == sel[k + 1])
  {
  }

  /** Clicking a new letter appends it; below the limit nothing else
      changes, at the limit the oldest letter is dropped. */
  lemma ToggleAppends(sel: seq<string>, letter: string, n: nat)
    requires letter !in sel
    ensures var r := Toggled(sel, letter, Some(n));
      && r != [] && r[|r| - 1] == letter
      && (|sel| < n ==> r[..|r| - 1] == sel)
      && (|sel| >= n ==> r[..|r| - 1] == Shift(sel))
  {
    var r := Toggled(sel, letter, Some(n));
    if |sel| < n {
      assert r[..|r| - 1] == sel;
    } else {
      assert r[..|r| - 1] == Shift(sel);
    }
  }

  /** Below the limit, clicking a new letter twice restores the selection. */
  lemma ToggleTwiceRestores(sel: seq<string>, letter: string, n: nat)
    requires letter !in sel && |sel| < n
    ensures Toggled(Toggled(sel, letter, Some(n)), letter, Some(n)) == sel
  {
    var once := sel + [letter];
    assert IndexOf(once, letter) == |sel| by {
      assert once[..|sel|] == sel;
    }
    assert once[..|sel|] == sel;
  }

  /** Without a question, a click can only remove a letter. */
  lemma ToggleWithoutQuestion(sel: seq<string>, letter: string)
    ensures |Toggled(sel, letter, None)| <= |sel|
    ensures forall x :: x in Toggled(sel, letter, None) ==> x in sel
  {
    var i := IndexOf(sel, letter);
    if i != -1 {
      var r := Toggled(sel, letter, None);
      forall x | x in r ensures x in sel {
        var k :| 0 <= k < |r| && r[k] == x;
        var k' := if k < i then k else k + 1;
        assert sel[k'] == x;
      }
    }
  }

  // ---------------------------------------------------------------------
  // Replies and messages

  /** What the API answered to a submission: the verdict, the 409 reply with
      what was stored before (its list may be absent), or any other error. */
  datatype Reply =
    | Accepted(isCorrect: bool, key: string)
    | Conflict(wasCorrect: bool, key: string, previous: Option<seq<string>>)
    | Failed

  /** What the client posts: the question's id, the picked letters, the
      exam. */
  datatype Request = Request(questionId: string, letters: seq<string>, exam: string)

  const CorrectMessage: string := "Resposta correta!"
  const WrongMessage: string := "Resposta incorreta."
  const ConflictMessage: string := "Esta questão já foi respondida anteriormente."
  const ErrorMessage: string := "Erro ao enviar resposta. Tente novamente."

  function CountMessage(n: nat): string {
    "Você deve selecionar " + NatToDecimal(n) + " opção(ões)."
  }

  /** The count message names the number of letters asked for. */
  lemma CountMessageNamesCount(n: nat)
    ensures OccursAt(CountMessage(n), NatToDecimal(n), |"Você deve selecionar "|)
    ensures CountMessage(n) !in {CorrectMessage, WrongMessage, ConflictMessage, ErrorMessage}
  {
    var m := CountMessage(n);
    var p := "Você deve selecionar ";
    assert m[|p|..|p| + |NatToDecimal(n)|] == NatToDecimal(n);
    assert m[0] == 'V' && m[1] == 'o';
  }

  // ---------------------------------------------------------------------
  // The component

  class Component {
    var question: Option<Question>
    var questionIndex: int
    var selected: seq<string>
    var feedback: string
    var isCorrect: Option<bool>
    var isAnswered: bool
    var correctAnswer: string
    const exam: string

    /** The letter limit of the shown question. */
    function Limit(): Option<nat>
      reads this
    {
      if question.Some? then Some(question.value.numAnswers) else None
    }

    /** Nothing is picked or answered before a question is shown, and until
        the question is answered its selection has no duplicates and fits
        its room. */
    predicate Valid()
      reads this
    {
      && (question.None? ==> selected == [] && !isAnswered)
      && (!isAnswered && question.Some? ==> Distinct(selected) && |selected| <= Room(question.value.numAnswers))
    }

    constructor(exam: string, index: int)
      ensures Valid()
      ensures this.exam == exam && questionIndex == index
      ensures question.None? && selected == [] && feedback == "" && isCorrect.None? && !isAnswered && correctAnswer == ""
    {
      this.exam := exam;
      questionIndex := index;
      question := None;
      selected := [];
      feedback := "";
      isCorrect := None;
      isAnswered := false;
      correctAnswer := "";
    }

    /** `loadQuestion`: on success the question is shown afresh; on error
        the state is left as it was. */
    method LoadQuestion(loaded: Option<Question>)
      requires Valid()
      modifies this`question, this`selected, this`isAnswered, this`isCorrect, this`feedback
      ensures Valid()
      ensures loaded.Some? ==>
        question == loaded && selected == [] && !isAnswered && isCorrect.None? && feedback == ""
      ensures loaded.None? ==>
        question == old(question) && selected == old(selected) && isAnswered == old(isAnswered)
        && isCorrect == old(isCorrect) && feedback == old(feedback)
    {
      if loaded.Some? {
        question := loaded;
        selected := [];
        isAnswered := false;
        isCorrect := None;
        feedback := "";
      }
    }

    /** `toggleOption`: once answered, nothing changes. */
    method ToggleOption(letter: string)
      requires Valid()
      modifies this`selected
      ensures Valid()
      ensures isAnswered ==> selected == old(selected)
      ensures !isAnswered ==> selected == Toggled(old(selected), letter, Limit())
    {
      if isAnswered {
        return;
      }
      if question.Some? {
        ToggleKeepsDistinct(selected, letter, Limit());
      } else {
        ToggleWithoutQuestion(selected, letter);
      }
      var index := IndexOf(selected, letter);
      if index == -1 {
        if question.Some? && |selected| < question.value.numAnswers {
          selected := selected + [letter];
        } else if question.Some? && |selected| >= question.value.numAnswers {
          selected := Shift(selected);
          selected := selected + [letter];
        }
      } else {
        selected := selected[..index] + selected[index + 1..];
      }
    }

    /** `isSelected`. */
    function IsSelected(letter: string): (r: bool)
      reads this
      ensures r <==> exists k :: 0 <= k < |selected| && selected[k] == letter
    {
      letter in selected
    }

    /** `submitAnswer`: without a question, or once answered, nothing
        happens; with the wrong number of letters only the count message is
        shown; otherwise the letters are posted and `reply` is handled. */
    method SubmitAnswer(reply: Reply) returns (sent: Option<Request>)
      requires Valid()
      modifies this`selected, this`isAnswered, this`isCorrect, this`correctAnswer, this`feedback
      ensures Valid()
      ensures old(question).None? || old(isAnswered) ==>
        sent.None? && selected == old(selected) && isAnswered == old(isAnswered)
        && isCorrect == old(isCorrect) && correctAnswer == old(correctAnswer) && feedback == old(feedback)
      ensures question.Some? && !old(isAnswered) && question.value.numAnswers != |old(selected)| ==>
        sent.None? && feedback == CountMessage(question.value.numAnswers)
        && selected == old(selected) && isAnswered == old(isAnswered) && isCorrect == old(isCorrect)
        && correctAnswer == old(correctAnswer)
      ensures question.Some? && !old(isAnswered) && question.value.numAnswers == |old(selected)| ==>
        && sent == Some(Request(question.value.id, old(selected), exam))
        && (reply.Accepted? ==>
              isAnswered && isCorrect == Some(reply.isCorrect) && correctAnswer == reply.key
              && selected == old(selected)
              && feedback == (if reply.isCorrect then CorrectMessage else WrongMessage))
        && (reply.Conflict? ==>
              isAnswered && isCorrect == Some(reply.wasCorrect) && correctAnswer == reply.key
              && selected == reply.previous.GetOr([]) && feedback == ConflictMessage)
        && (reply.Failed? ==>
              !isAnswered && selected == old(selected) && isCorrect == old(isCorrect)
              && correctAnswer == old(correctAnswer) && feedback == ErrorMessage)
    {
      if question.None? || isAnswered {
        return None;
      }
      var q := question.value;
      if q.numAnswers != |selected| {
        feedback := CountMessage(q.numAnswers);
        return None;
      }
      sent := Some(Request(q.id, selected, exam));
      match reply {
        case Accepted(ok, key) =>
          isAnswered := true;
          isCorrect := Some(ok);
          correctAnswer := key;
          feedback := if ok then CorrectMessage else WrongMessage;
        case Conflict(ok, key, previous) =>
          isAnswered := true;
          isCorrect := Some(ok);
          correctAnswer := key;
          selected := previous.GetOr([]);
          feedback := ConflictMessage;
        case Failed =>
          feedback := ErrorMessage;
      }
    }

    /** `nextQuestion`: the index navigated to. */
    method NextQuestion() returns (target: int)
      ensures target == questionIndex + 1
    {
      target := questionIndex + 1;
    }

    /** `previousQuestion`: navigates one back, and never below 0. */
    method PreviousQuestion() returns (target: Option<int>)
      ensures target.Some? <==> questionIndex > 0
      ensures target.Some? ==> target.value == questionIndex - 1 && target.value >= 0
    {
      if questionIndex > 0 {
        target := Some(questionIndex - 1);
      } else {
        target := None;
      }
    }
  }
}
