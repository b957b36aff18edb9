/** The two tables both study servers keep: study sessions and the answers
    given in them. The database is a pair of sequences in insertion order; a
    session's id is its position, and a later position stands for a later
    creation time. */
module Store {
  import opened Wrappers

  datatype Status = InProgress | Completed | Abandoned

  /** A study session. `exam` is the exam it belongs to on the multi-exam
      server and `None` on the single-exam site; `total`, `correct` and
      `score` are filled in when the session is finalised. */
  datatype Session = Session(
    id: nat,
    status: Status,
    lastViewed: int,
    exam: Option<string>,
    total: Option<nat>,
    correct: Option<nat>,
    score: Option<real>)

  /** One stored answer: the session, the question's id, the picked letters
      as stored, and the verdict. */
  datatype Response = Response(sessionId: nat, questionId: string, answers: seq<string>, correct: bool)

  /** A session as it is created: in progress, nothing counted yet. */
  function NewSession(id: nat, lastViewed: int, exam: Option<string>): (s: Session)
    ensures s.id == id && s.status == InProgress && s.lastViewed == lastViewed && s.exam == exam
    ensures s.total.None? && s.correct.None? && s.score.None?
  {
    Session(id, InProgress, lastViewed, exam, None, None, None)
  }

  // ---------------------------------------------------------------------
  // Counting a session's answers

  /** How many answers session `sid` has. */
  function Answered(rs: seq<Response>, sid: nat): nat {
    if rs == [] then 0
    else Answered(rs[..|rs| - 1], sid) + (if rs[|rs| - 1].sessionId == sid then 1 else 0)
  }

  /** How many of them were judged correct. */
  function Right(rs: seq<Response>, sid: nat): nat {
    if rs == [] then 0
    else Right(rs[..|rs| - 1], sid) + (if rs[|rs| - 1].sessionId == sid && rs[|rs| - 1].correct then 1 else 0)
  }

  /** A session never has more correct answers than answers. */
  lemma {:induction false} RightAtMostAnswered(rs: seq<Response>, sid: nat)
    ensures Right(rs, sid) <= Answered(rs, sid)
  {
    if rs != [] {
      RightAtMostAnswered(rs[..|rs| - 1], sid);
    }
  }

  /** A session has answers exactly when some stored answer belongs to it. */
  lemma {:induction false} AnsweredPositive(rs: seq<Response>, sid: nat)
    ensures Answered(rs, sid) > 0 <==> exists i :: 0 <= i < |rs| && rs[i].sessionId == sid
  {
    if rs != [] {
      var init := rs[..|rs| - 1];
      AnsweredPositive(init, sid);
      if exists i :: 0 <= i < |init| && init[i].sessionId == sid {
        var i :| 0 <= i < |init| && init[i].sessionId == sid;
        assert rs[i] == init[i];
      }
      if exists i :: 0 <= i < |rs| && rs[i].sessionId == sid {
        var i :| 0 <= i < |rs| && rs[i].sessionId == sid;
        if i < |init| {
          assert init[i] == rs[i];
        }
      }
    }
  }

  /** Storing one more answer counts it for its own session only. */
  lemma CountsAppend(rs: seq<Response>, r: Response, sid: nat)
    ensures Answered(rs + [r], sid) == Answered(rs, sid) + (if r.sessionId == sid then 1 else 0)
    ensures Right(rs + [r], sid) == Right(rs, sid) + (if r.sessionId == sid && r.correct then 1 else 0)
  {
    assert (rs + [r])[..|rs|] == rs;
  }

  /** `correct / total * 100`, and 0 for a session without answers. The
      rounding to two decimals is not modelled. */
  function Score(correct: nat, total: nat): real {
    if total > 0 then (correct as real / total as real) * 100.0 else 0.0
  }

  /** The score is a percentage: 0 exactly when nothing was right, 100
      exactly when everything answered was right. */
  lemma ScoreBounds(correct: nat, total: nat)
    requires correct <= total
    ensures 0.0 <= Score(correct, total) <= 100.0
    ensures Score(correct, total) == 0.0 <==> correct == 0
    ensures Score(correct, total) == 100.0 <==> total > 0 && correct == total
  {
    if total > 0 {
      Ratio(correct as real, total as real);
    }
  }

  /** A share of a positive whole lies between 0 and 1, and hits either end
      only when the part is nothing or everything. */
  lemma Ratio(c: real, t: real)
    requires 0.0 <= c <= t && t > 0.0
    ensures 0.0 <= c / t <= 1.0
    ensures c / t == 0.0 <==> c == 0.0
    ensures c / t == 1.0 <==> c == t
  {
    var q := c / t;
    assert q * t == c;
    assert (1.0 - q) * t == t - c;
  }

  /** Finalising: the session is completed and records its answer count,
      its correct count and its score, all recomputed from the stored
      answers. */
  function Finalized(s: Session, rs: seq<Response>): Session {
    var n := Answered(rs, s.id);
    var c := Right(rs, s.id);
    s.(status := Completed, total := Some(n), correct := Some(c), score := Some(Score(c, n)))
  }

  /** A finalised session is completed, its counts are those of its stored
      answers, and its score is a percentage. */
  lemma FinalizedSpec(s: Session, rs: seq<Response>)
    ensures var f := Finalized(s, rs);
      && f.status == Completed && f.id == s.id && f.exam == s.exam && f.lastViewed == s.lastViewed
      && f.total == Some(Answered(rs, s.id)) && f.correct == Some(Right(rs, s.id))
      && f.correct.value <= f.total.value
      && f.score == Some(Score(Right(rs, s.id), Answered(rs, s.id)))
      && 0.0 <= f.score.value <= 100.0
  {
    RightAtMostAnswered(rs, s.id);
    ScoreBounds(Right(rs, s.id), Answered(rs, s.id));
  }

  // ---------------------------------------------------------------------
  // Looking answers up

  /** The first stored answer of session `sid` to question `qid`. */
  function FindResponse(rs: seq<Response>, sid: nat, qid: string): Option<Response> {
    if rs == [] then None
    else if rs[0].sessionId == sid && rs[0].questionId == qid then Some(rs[0])
    else FindResponse(rs[1..], sid, qid)
  }

  /** The lookup finds an answer exactly when the session has answered the
      question, and what it finds is one of those answers. */
  lemma {:induction false} FindResponseSpec(rs: seq<Response>, sid: nat, qid: string)
    ensures FindResponse(rs, sid, qid).None? <==>
      forall i :: 0 <= i < |rs| ==> !(rs[i].sessionId == sid && rs[i].questionId == qid)
    ensures FindResponse(rs, sid, qid).Some? ==>
      var r := FindResponse(rs, sid, qid).value;
      r in rs && r.sessionId == sid && r.questionId == qid
  {
    if rs != [] && !(rs[0].sessionId == sid && rs[0].questionId == qid) {
      FindResponseSpec(rs[1..], sid, qid);
      assert forall i :: 1 <= i < |rs| ==> rs[i] == rs[1..][i - 1];
    }
  }

  /** After storing `r`, the lookup still finds the earlier answer if there
      was one, and otherwise finds `r` when it is the sought one. */
  lemma {:induction false} FindResponseAppend(rs: seq<Response>, r: Response, sid: nat, qid: string)
    ensures FindResponse(rs + [r], sid, qid) ==
      if FindResponse(rs, sid, qid).Some? then FindResponse(rs, sid, qid)
      else if r.sessionId == sid && r.questionId == qid then Some(r)
      else None
  {
    if rs != [] {
      assert (rs + [r])[1..] == rs[1..] + [r];
      FindResponseAppend(rs[1..], r, sid, qid);
    }
  }

  /** At most one answer per session and question. */
  predicate OneAnswerEach(rs: seq<Response>) {
    forall i, j :: 0 <= i < j < |rs| ==>
      !(rs[i].sessionId == rs[j].sessionId && rs[i].questionId == rs[j].questionId)
  }

  /** Storing an answer to a question the session has not answered keeps at
      most one answer per session and question. */
  lemma StoreKeepsOneAnswerEach(rs: seq<Response>, r: Response)
    requires OneAnswerEach(rs)
    requires FindResponse(rs, r.sessionId, r.questionId).None?
    ensures OneAnswerEach(rs + [r])
  {
    FindResponseSpec(rs, r.sessionId, r.questionId);
    var rs' := rs + [r];
    forall i, j | 0 <= i < j < |rs'|
      ensures !(rs'[i].sessionId == rs'[j].sessionId && rs'[i].questionId == rs'[j].questionId)
    {
      assert rs'[i] == rs[i];
      if j < |rs| {
        assert rs'[j] == rs[j];
      }
    }
  }

  // ---------------------------------------------------------------------
  // Looking sessions up

  /** A session in progress, of exam `exam` when one is given. */
  predicate OpenIn(s: Session, exam: Option<string>) {
    s.status == InProgress && (exam.None? || s.exam == exam)
  }

  /** The newest session in progress (`order_by(timestamp desc).first()`). */
  function LatestOpen(ss: seq<Session>, exam: Option<string>): (r: Option<nat>)
    ensures r.Some? ==> r.value < |ss|
  {
    if ss == [] then None
    else if OpenIn(ss[|ss| - 1], exam) then Some(|ss| - 1)
    else LatestOpen(ss[..|ss| - 1], exam)
  }

  /** It finds a session exactly when one is in progress, and the one it
      finds is in progress and newer than every other. */
  lemma {:induction false} LatestOpenSpec(ss: seq<Session>, exam: Option<string>)
    ensures LatestOpen(ss, exam).None? <==> forall i :: 0 <= i < |ss| ==> !OpenIn(ss[i], exam)
    ensures LatestOpen(ss, exam).Some? ==>
      var k := LatestOpen(ss, exam).value;
      OpenIn(ss[k], exam) && forall i :: k < i < |ss| ==> !OpenIn(ss[i], exam)
  {
    if ss != [] && !OpenIn(ss[|ss| - 1], exam) {
      var init := ss[..|ss| - 1];
      LatestOpenSpec(init, exam);
      assert forall i :: 0 <= i < |init| ==> ss[i] == init[i];
    }
  }

  /** The first session in progress in storage order (an unordered
      `.first()`, taken to be the oldest). */
  function FirstOpen(ss: seq<Session>, exam: Option<string>): (r: Option<nat>)
    ensures r.Some? ==> r.value < |ss|
  {
    if ss == [] then None
    else if OpenIn(ss[0], exam) then Some(0)
    else match FirstOpen(ss[1..], exam)
      case None => None
      case Some(k) => Some(k + 1)
  }

  lemma {:induction false} FirstOpenSpec(ss: seq<Session>, exam: Option<string>)
    ensures FirstOpen(ss, exam).None? <==> forall i :: 0 <= i < |ss| ==> !OpenIn(ss[i], exam)
    ensures FirstOpen(ss, exam).Some? ==>
      var k := FirstOpen(ss, exam).value;
      OpenIn(ss[k], exam) && forall i :: 0 <= i < k ==> !OpenIn(ss[i], exam)
  {
    if ss != [] && !OpenIn(ss[0], exam) {
      FirstOpenSpec(ss[1..], exam);
      assert forall i :: 1 <= i < |ss| ==> ss[i] == ss[1..][i - 1];
    }
  }

  /** At most one session in progress per exam. */
  predicate OneOpenEach(ss: seq<Session>) {
    forall i, j ::
      (0 <= i < |ss| && 0 <= j < |ss| &&
       ss[i].status == InProgress && ss[j].status == InProgress && ss[i].exam == ss[j].exam) ==> i == j
  }

  /** With at most one session in progress per exam, the newest and the
      oldest one in progress are the same session, so the unordered lookup
      agrees with the ordered one. */
  lemma OneOpenLookupsAgree(ss: seq<Session>, exam: string)
    requires OneOpenEach(ss)
    ensures FirstOpen(ss, Some(exam)) == LatestOpen(ss, Some(exam))
  {
    FirstOpenSpec(ss, Some(exam));
    LatestOpenSpec(ss, Some(exam));
    if FirstOpen(ss, Some(exam)).Some? {
      var i := FirstOpen(ss, Some(exam)).value;
      var j := LatestOpen(ss, Some(exam)).value;
      assert ss[i].exam == ss[j].exam;
    }
  }
}
