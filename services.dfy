/** The older single-choice variant of the site: one letter per question,
    answers stored without a session, and an accuracy over every answer ever
    stored. */
module Services {
  import opened Wrappers
  import opened Strings
  import Store
  import Scoring

  /** What this variant reads of a question record: its id and its answer
      key, each `None` when the record lacks it (a key that is not a string
      counts as missing). */
  datatype Question = Question(id: Option<string>, key: Option<string>)

  /** One stored answer: the question's id, the letter sent, the verdict. */
  datatype Answer = Answer(questionId: string, letter: string, correct: bool)

  /** The `question_index` field as it arrives: a JSON number or a string. */
  datatype IndexField = Number(n: int) | Text(s: string)

  /** The body of a submission; `None` fields are absent. */
  datatype Submission = Submission(index: Option<IndexField>, letter: Option<string>)

  datatype Reply = Rejected(status: nat) | Recorded(isCorrect: bool, key: string)

  /** A question page: not found, or the question with the newest stored
      answer to it. */
  datatype Page = NotFound | Shown(question: Question, index: nat, total: nat, previous: Option<Answer>)

  // ---------------------------------------------------------------------
  // `int(...)`

  /** `int(s)` on a string: white space around is allowed, and what is
      left must be an integer literal. */
  function ParseInt(s: string): Option<int> {
    ParseSigned(Strip(s))
  }

  /** An optional sign and a non-empty run of digits; anything else raises. */
  function ParseSigned(t: string): Option<int> {
    if t != [] && (t[0] == '-' || t[0] == '+') then
      var ds := t[1..];
      if ds != [] && AllDigits(ds) then
        var n: int := ParseDecimal(ds);
        Some(if t[0] == '-' then -n else n)
      else None
    else if t != [] && AllDigits(t) then Some(ParseDecimal(t))
    else None
  }

  /** `int(x)` on the field: a number is taken as is. */
  function IndexOf(f: IndexField): Option<int> {
    match f
    case Number(n) => Some(n)
    case Text(s) => ParseInt(s)
  }

  /** An index sent as the decimal text of a number reads back as that
      number. */
  lemma ParseIntRoundTrip(i: int)
    ensures ParseInt(IntToDecimal(i)) == Some(i)
  {
    NumeralIsStripped(i);
    SignedRoundTrip(i);
  }

  lemma SignedRoundTrip(i: int)
    ensures ParseSigned(IntToDecimal(i)) == Some(i)
  {
    var s := IntToDecimal(i);
    if i < 0 {
      var ds := NatToDecimal(-i);
      DecimalRoundTrip(-i);
      assert s[0] == '-' && s[1..] == ds;
    } else {
      DecimalRoundTrip(i);
      assert IsDigit(s[0]);
    }
  }

  /** A rendered number has no white space at either end. */
  lemma NumeralIsStripped(i: int)
    ensures Strip(IntToDecimal(i)) == IntToDecimal(i)
  {
    var s := IntToDecimal(i);
    var ds := NatToDecimal(if i < 0 then -i else i);
    assert IsDigit(ds[0]) && IsDigit(ds[|ds| - 1]);
    assert s[|s| - 1] == ds[|ds| - 1];
    Scoring.StripUnchanged(s);
  }

  /** Text without a single digit is never an integer. */
  lemma ParseIntNeedsDigits(s: string)
    requires forall c :: c in s ==> !IsDigit(c)
    ensures ParseInt(s).None?
  {
    var t := Strip(s);
    if t != [] {
      StripKeepsChars(s);
      var last := t[|t| - 1];
      assert last in t;
      assert !IsDigit(last);
      assert !AllDigits(t);
      if |t| > 1 {
        assert t[1..][|t| - 2] == last;
        assert !AllDigits(t[1..]);
      }
    }
  }

  // ---------------------------------------------------------------------
  // `submit_answer`

  /** The id the answer is stored under: the record's id, else `idx_` and
      the position. */
  function StoredId(q: Question, idx: nat): string {
    q.id.GetOr("idx_" + NatToDecimal(idx))
  }

  /** Records without an id are stored under distinct ids, which never
      collide with each other. */
  lemma StoredIdsDiffer(p: Question, i: nat, q: Question, j: nat)
    requires p.id.None? && q.id.None? && i != j
    ensures StoredId(p, i) != StoredId(q, j)
  {
    var a := "idx_" + NatToDecimal(i);
    var b := "idx_" + NatToDecimal(j);
    if a == b {
      assert a[4..] == NatToDecimal(i) && b[4..] == NatToDecimal(j);
      DecimalInjective(i, j);
    }
  }

  /** The reply to a submission and the answers after it. */
  function Submit(qs: seq<Question>, as_: seq<Answer>, data: Option<Submission>): (Reply, seq<Answer>) {
    if data.None? || data.value.index.None? || data.value.letter.None? then (Rejected(400), as_)
    else match IndexOf(data.value.index.value)
      case None => (Rejected(400), as_)
      case Some(idx) =>
        if !(0 <= idx < |qs|) then (Rejected(400), as_)
        else
          var q := qs[idx];
          var ok := Scoring.LegacyVerdict(q.key, data.value.letter.value);
          (Recorded(ok, Scoring.AnswerShown(q.key)), as_ + [Answer(StoredId(q, idx), data.value.letter.value, ok)])
  }

  /** A submission is refused exactly when the body, the index or the letter
      is missing, the index is not an integer, or it is out of range; a
      refused submission stores nothing. An accepted one stores one answer,
      under the question's id, judged by the single-choice rule, and the
      reply reports the key only when it is a non-blank string. */
  lemma SubmitSpec(qs: seq<Question>, as_: seq<Answer>, data: Option<Submission>)
    ensures var (reply, as') := Submit(qs, as_, data);
      && (reply.Rejected? <==>
            data.None? || data.value.index.None? || data.value.letter.None?
            || IndexOf(data.value.index.value).None?
            || !(0 <= IndexOf(data.value.index.value).value < |qs|))
      && (reply.Rejected? ==> reply.status == 400 && as' == as_)
      && (reply.Recorded? ==>
            var idx := IndexOf(data.value.index.value).value;
            var letter := data.value.letter.value;
            && 0 <= idx < |qs|
            && as' == as_ + [Answer(StoredId(qs[idx], idx), letter, reply.isCorrect)]
            && (reply.isCorrect <==> Scoring.LegacyVerdict(qs[idx].key, letter))
            && (reply.isCorrect ==> reply.key == letter)
            && (reply.key == "" || (qs[idx].key == Some(reply.key) && Strip(reply.key) != "")))
  {
    if data.Some? && data.value.index.Some? && data.value.letter.Some? {
      var idx := IndexOf(data.value.index.value);
      if idx.Some? && 0 <= idx.value < |qs| {
        var q := qs[idx.value];
        if Scoring.LegacyVerdict(q.key, data.value.letter.value) {
          Scoring.LegacyCorrectShowsChoice(q.key, data.value.letter.value);
        }
      }
    }
  }

  // ---------------------------------------------------------------------
  // `show_question` and `index`

  /** The newest stored answer to question `qid`. */
  function LatestAnswer(as_: seq<Answer>, qid: string): Option<Answer> {
    if as_ == [] then None
    else if as_[|as_| - 1].questionId == qid then Some(as_[|as_| - 1])
    else LatestAnswer(as_[..|as_| - 1], qid)
  }

  /** It finds an answer exactly when one was stored for the question, and
      no answer to that question was stored after the one it finds. */
  lemma {:induction false} LatestAnswerSpec(as_: seq<Answer>, qid: string)
    ensures LatestAnswer(as_, qid).None? <==> forall i :: 0 <= i < |as_| ==> as_[i].questionId != qid
    ensures LatestAnswer(as_, qid).Some? ==>
      exists k :: 0 <= k < |as_| && as_[k] == LatestAnswer(as_, qid).value && as_[k].questionId == qid &&
        forall i :: k < i < |as_| ==> as_[i].questionId != qid
  {
    if as_ != [] && as_[|as_| - 1].questionId != qid {
      var init := as_[..|as_| - 1];
      LatestAnswerSpec(init, qid);
      assert forall i :: 0 <= i < |init| ==> as_[i] == init[i];
      if LatestAnswer(init, qid).Some? {
        var k :| 0 <= k < |init| && init[k] == LatestAnswer(init, qid).value && init[k].questionId == qid &&
          forall i :: k < i < |init| ==> init[i].questionId != qid;
        assert as_[k] == init[k];
      }
    }
  }

  /** Answering a question makes that answer the one shown with it. */
  lemma AnswerIsShownNext(as_: seq<Answer>, a: Answer)
    ensures LatestAnswer(as_ + [a], a.questionId) == Some(a)
  {
  }

  /** How many stored answers are correct. */
  function CorrectCount(as_: seq<Answer>): nat {
    if as_ == [] then 0 else CorrectCount(as_[..|as_| - 1]) + (if as_[|as_| - 1].correct then 1 else 0)
  }

  /** There are never more correct answers than answers, so the accuracy is
      a percentage. */
  lemma {:induction false} AccuracyBounds(as_: seq<Answer>)
    ensures CorrectCount(as_) <= |as_|
    ensures 0.0 <= Store.Score(CorrectCount(as_), |as_|) <= 100.0
  {
    if as_ != [] {
      AccuracyBounds(as_[..|as_| - 1]);
    }
    Store.ScoreBounds(CorrectCount(as_), |as_|);
  }

  // ---------------------------------------------------------------------
  // The server

  class App {
    /** The questions loaded at start-up. */
    const questions: seq<Question>
    var answers: seq<Answer>

    constructor(questions: seq<Question>)
      ensures this.questions == questions && answers == []
    {
      this.questions := questions;
      answers := [];
    }

    /** `submit_answer`: the checks in order, then the stored answer. */
    method SubmitAnswer(data: Option<Submission>) returns (r: Reply)
      modifies this`answers
      ensures (r, answers) == Submit(questions, old(answers), data)
    {
      if data.None? {
        return Rejected(400);
      }
      var d := data.value;
      if d.index.None? || d.letter.None? {
        return Rejected(400);
      }
      var parsed := IndexOf(d.index.value);
      if parsed.None? {
        return Rejected(400);
      }
      var idx := parsed.value;
      if !(0 <= idx < |questions|) {
        return Rejected(400);
      }
      var q := questions[idx];
      var id := StoredId(q, idx);
      var ok := false;
      if q.key.Some? && q.key.value != "" && Strip(q.key.value) != "" {
        ok := d.letter.value == q.key.value;
      }
      answers := answers + [Answer(id, d.letter.value, ok)];
      r := Recorded(ok, Scoring.AnswerShown(q.key));
    }

    /** `show_question`: without questions or out of range, not found;
        otherwise the question and, when it has an id, the newest answer
        stored for it. */
    method ShowQuestion(idx: int) returns (p: Page)
      ensures !(0 <= idx < |questions|) <==> p == NotFound
      ensures 0 <= idx < |questions| ==>
        var q := questions[idx];
        p == Shown(q, idx, |questions|, if q.id.Some? then LatestAnswer(answers, q.id.value) else None)
    {
      if questions == [] {
        return NotFound;
      }
      if !(0 <= idx < |questions|) {
        return NotFound;
      }
      var q := questions[idx];
      var previous := None;
      if q.id.Some? {
        previous := LatestAnswer(answers, q.id.value);
      }
      p := Shown(q, idx, |questions|, previous);
    }

    /** `index`: the number of questions, of answers stored, and the
        accuracy over them. */
    method Index() returns (numQuestions: nat, total: nat, accuracy: real)
      ensures numQuestions == |questions| && total == |answers|
      ensures accuracy == Store.Score(CorrectCount(answers), total)
      ensures 0.0 <= accuracy <= 100.0
      ensures accuracy == 0.0 <==> CorrectCount(answers) == 0
    {
      numQuestions := |questions|;
      total := |answers|;
      var correct := CorrectCount(answers);
      AccuracyBounds(answers);
      Store.ScoreBounds(correct, total);
      accuracy := 0.0;
      if total > 0 {
        accuracy := (correct as real / total as real) * 100.0;
      }
    }
  }
}
