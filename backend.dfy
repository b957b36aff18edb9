/** The multi-exam JSON API: it serves the questions of the exam files,
    keeps one study session in progress per exam, records and judges
    answers, and starts new sessions. The database is the pair of sequences
    of the Store module; the exam files are a map from exam id to the
    records the file holds, and the in-memory caches are maps the methods
    update. */
module Backend {
  import opened Wrappers
  import opened Strings
  import opened Store
  import Scoring
  import Scraper

  type Question = Scraper.QuestionRecord

  // ---------------------------------------------------------------------
  // Exam files

  /** A record the server keeps: no `error` key and at least one option. */
  predicate Servable(q: Question) {
    q.error.None? && |q.options| > 0
  }

  /** The records of a file that the server keeps, in file order. */
  function Usable(rs: seq<Question>): (r: seq<Question>)
    ensures |r| <= |rs|
  {
    if rs == [] then []
    else (if Servable(rs[0]) then [rs[0]] else []) + Usable(rs[1..])
  }

  /** Exactly the servable records of the file are kept. */
  lemma {:induction false} UsableSpec(rs: seq<Question>)
    ensures forall q :: q in Usable(rs) <==> q in rs && Servable(q)
  {
    if rs != [] {
      UsableSpec(rs[1..]);
      assert rs == [rs[0]] + rs[1..];
    }
  }

  /** The questions of `exam`: the kept records of its file when the exam is
      known and its file could be read and parsed, else none. */
  function ExamQuestions(available: set<string>, files: map<string, seq<Question>>, exam: string): seq<Question> {
    if exam in available && exam in files then Usable(files[exam]) else []
  }

  /** Every question served has no error and has options; an unknown exam,
      or a known one whose file is missing or unreadable, has no questions. */
  lemma ExamQuestionsSpec(available: set<string>, files: map<string, seq<Question>>, exam: string)
    ensures forall q :: q in ExamQuestions(available, files, exam) ==> Servable(q)
    ensures exam !in available ==> ExamQuestions(available, files, exam) == []
    ensures exam !in files ==> ExamQuestions(available, files, exam) == []
    ensures exam in available && exam in files ==>
      forall q :: q in ExamQuestions(available, files, exam) <==> q in files[exam] && Servable(q)
  {
    if exam in available && exam in files {
      UsableSpec(files[exam]);
    }
  }

  /** The question cache after a load: the exam's questions are added when
      they came from its file, and nothing else changes. */
  function CacheAfterLoad(cache: map<string, seq<Question>>, available: set<string>,
                          files: map<string, seq<Question>>, exam: string): map<string, seq<Question>> {
    if exam !in cache && exam in available && exam in files then cache[exam := Usable(files[exam])] else cache
  }

  /** `next(q for q in questions if str(q['id_original_json']) == id)`. */
  function FindQuestion(qs: seq<Question>, id: string): Option<Question> {
    if qs == [] then None
    else if qs[0].id == id then Some(qs[0])
    else FindQuestion(qs[1..], id)
  }

  lemma {:induction false} FindQuestionSpec(qs: seq<Question>, id: string)
    ensures FindQuestion(qs, id).None? <==> forall i :: 0 <= i < |qs| ==> qs[i].id != id
    ensures FindQuestion(qs, id).Some? ==>
      exists k :: 0 <= k < |qs| && qs[k] == FindQuestion(qs, id).value && qs[k].id == id &&
        forall i :: 0 <= i < k ==> qs[i].id != id
  {
    if qs != [] && qs[0].id != id {
      FindQuestionSpec(qs[1..], id);
      assert forall i :: 1 <= i < |qs| ==> qs[i] == qs[1..][i - 1];
      if FindQuestion(qs, id).Some? {
        var k :| 0 <= k < |qs[1..]| && qs[1..][k] == FindQuestion(qs, id).value && qs[1..][k].id == id &&
          forall i :: 0 <= i < k ==> qs[1..][i].id != id;
        assert qs[k + 1] == qs[1..][k];
      }
    }
  }

  // ---------------------------------------------------------------------
  // Requests and replies

  /** A reply: a value, or an HTTP error status. */
  datatype Reply<T> = Ok(value: T) | Fail(status: nat)

  /** The body of an answer submission; an absent key is `None`. A body
      that `if not data` rejects (missing, `null` or the empty object `{}`)
      is no `Submission` at all: the request then carries `None`. */
  datatype Submission = Submission(questionId: Option<string>, chosen: Option<seq<string>>, exam: Option<string>)

  /** The reply to a submission: an error status; the 409 reply for a
      question already answered in the session, with the verdict and letters
      stored then; or the verdict of a newly stored answer. Both of the last
      two carry the question's answer key. */
  datatype SubmitReply =
    | Rejected(status: nat)
    | AlreadyAnswered(wasCorrect: bool, key: string, previous: seq<string>)
    | Recorded(isCorrect: bool, key: string)

  /** The body of a request to start a new session. */
  datatype StartRequest = StartRequest(startIndex: Option<int>, exam: Option<string>)

  /** The `exam_type` parameter is present and not empty. */
  predicate Supplied(exam: Option<string>) {
    exam.Some? && exam.value != ""
  }

  // ---------------------------------------------------------------------
  // The database invariant

  /** What the API keeps true of its tables: ids are positions; every
      session belongs to an exam; every answer belongs to an existing
      session; a session answers a question at most once; at most one session
      per exam is in progress; a completed session's counts and score are
      those of its stored answers; an abandoned session has none. */
  predicate Consistent(ss: seq<Session>, rs: seq<Response>) {
    && (forall i :: 0 <= i < |ss| ==> ss[i].id == i && ss[i].exam.Some?)
    && (forall r :: r in rs ==> r.sessionId < |ss|)
    && OneAnswerEach(rs)
    && OneOpenEach(ss)
    && (forall i :: 0 <= i < |ss| && ss[i].status == Completed ==> ss[i] == Finalized(ss[i], rs))
    && (forall i :: 0 <= i < |ss| && ss[i].status == Abandoned ==> Answered(rs, i) == 0)
  }

  /** `get_or_create_current_test_session`: the sessions after it, and the
      id it returns. */
  function WithOpen(ss: seq<Session>, exam: string): seq<Session> {
    if LatestOpen(ss, Some(exam)).Some? then ss else ss + [NewSession(|ss|, 0, Some(exam))]
  }

  function OpenId(ss: seq<Session>, exam: string): nat {
    match LatestOpen(ss, Some(exam))
    case Some(k) => k
    case None => |ss|
  }

  /** The session returned is in progress and belongs to the exam; it is
      the one already in progress when there is one, else a new session
      appended with nothing viewed and no answers. Existing sessions are
      untouched and the invariant is kept. */
  lemma WithOpenSpec(ss: seq<Session>, rs: seq<Response>, exam: string)
    requires Consistent(ss, rs)
    ensures var ss' := WithOpen(ss, exam); var k := OpenId(ss, exam);
      && Consistent(ss', rs)
      && k < |ss'| && ss'[k].status == InProgress && ss'[k].exam == Some(exam)
      && ss <= ss' && |ss'| <= |ss| + 1
      && (LatestOpen(ss, Some(exam)).None? ==> ss'[k].lastViewed == 0 && Answered(rs, k) == 0)
  {
    LatestOpenSpec(ss, Some(exam));
    if LatestOpen(ss, Some(exam)).None? {
      OpenKeepsConsistent(ss, rs, exam, 0);
      AnsweredPositive(rs, |ss|);
    }
  }

  /** `finalize_session` on an existing session keeps the invariant. */
  lemma FinalizeKeepsConsistent(ss: seq<Session>, rs: seq<Response>, k: nat)
    requires Consistent(ss, rs) && k < |ss|
    ensures Consistent(ss[k := Finalized(ss[k], rs)], rs)
  {
  }

  /** Abandoning a session without answers keeps the invariant. */
  lemma AbandonKeepsConsistent(ss: seq<Session>, rs: seq<Response>, k: nat)
    requires Consistent(ss, rs) && k < |ss| && Answered(rs, k) == 0
    ensures Consistent(ss[k := ss[k].(status := Abandoned)], rs)
  {
  }

  /** Recording the question viewed keeps the invariant. */
  lemma ViewKeepsConsistent(ss: seq<Session>, rs: seq<Response>, k: nat, idx: int)
    requires Consistent(ss, rs) && k < |ss|
    ensures Consistent(ss[k := ss[k].(lastViewed := idx)], rs)
  {
  }

  /** Storing a first answer of a session in progress keeps the invariant:
      completed and abandoned sessions never receive answers, so their
      counts stay what they were. */
  lemma AnswerKeepsConsistent(ss: seq<Session>, rs: seq<Response>, r: Response)
    requires Consistent(ss, rs)
    requires r.sessionId < |ss| && ss[r.sessionId].status == InProgress
    requires FindResponse(rs, r.sessionId, r.questionId).None?
    ensures Consistent(ss, rs + [r])
  {
    StoreKeepsOneAnswerEach(rs, r);
    forall i | 0 <= i < |ss| && ss[i].status != InProgress
      ensures Answered(rs + [r], i) == Answered(rs, i) && Right(rs + [r], i) == Right(rs, i)
    {
      CountsAppend(rs, r, i);
    }
    assert forall x :: x in rs + [r] ==> x in rs || x == r;
  }

  // ---------------------------------------------------------------------
  // Answer submission, after the session and the questions are known

  /** The decision part of `submit_answer` once the session `sid` is open and
      the exam's questions `qs` are loaded: the reply and the answers table
      after it. */
  function Submit(qs: seq<Question>, rs: seq<Response>, sid: nat, d: Submission): (SubmitReply, seq<Response>) {
    if d.questionId.None? || d.questionId.value == "" || d.chosen.None? || d.chosen.value == [] then
      (Rejected(400), rs)
    else match FindQuestion(qs, d.questionId.value)
      case None => (Rejected(404), rs)
      case Some(q) =>
        var chosen := d.chosen.value;
        if |chosen| != q.numAnswers then (Rejected(400), rs)
        else match FindResponse(rs, sid, q.id)
          case Some(prev) => (AlreadyAnswered(prev.correct, q.suggested, prev.answers), rs)
          case None =>
            var ok := Scoring.IsCorrect(q.suggested, chosen, q.numAnswers);
            (Recorded(ok, q.suggested), rs + [Response(sid, q.id, SortStrings(chosen), ok)])
  }

  /** Only a recorded answer changes the table, and it adds exactly one
      answer: for the session, for the question named, with the submitted
      letters sorted, judged by the multi-choice rule against the question's
      key and count, and only when as many letters as the question asks for
      were sent and the session had not answered it. */
  lemma SubmitSpec(qs: seq<Question>, rs: seq<Response>, sid: nat, d: Submission)
    ensures var (reply, rs') := Submit(qs, rs, sid, d);
      && (!reply.Recorded? ==> rs' == rs)
      && (reply.Recorded? ==>
            exists q :: q in qs && q.id == d.questionId.value
              && d.chosen.Some? && |d.chosen.value| == q.numAnswers
              && FindResponse(rs, sid, q.id).None?
              && reply == Recorded(Scoring.IsCorrect(q.suggested, d.chosen.value, q.numAnswers), q.suggested)
              && |rs'| == |rs| + 1 && rs'[..|rs|] == rs
              && rs'[|rs|].sessionId == sid && rs'[|rs|].questionId == q.id
              && rs'[|rs|].correct == reply.isCorrect
              && SortedStrings(rs'[|rs|].answers)
              && multiset(rs'[|rs|].answers) == multiset(d.chosen.value))
  {
    if d.questionId.Some? && d.questionId.value != "" && d.chosen.Some? && d.chosen.value != [] {
      FindQuestionSpec(qs, d.questionId.value);
      var (reply, rs') := Submit(qs, rs, sid, d);
      if reply.Recorded? {
        var q := FindQuestion(qs, d.questionId.value).value;
        assert rs'[..|rs|] == rs;
        assert q in qs;
      }
    }
  }

  /** A question is answered once per session: after an answer was
      recorded, sending the same question again with any letters of the
      right count is refused with 409, reports the verdict and the letters
      stored the first time, and stores nothing. */
  lemma SecondSubmissionRefused(qs: seq<Question>, rs: seq<Response>, sid: nat, d: Submission, again: seq<string>)
    requires Submit(qs, rs, sid, d).0.Recorded?
    requires |again| == |d.chosen.value|
    ensures var (first, rs1) := Submit(qs, rs, sid, d);
      var d2 := d.(chosen := Some(again));
      Submit(qs, rs1, sid, d2) ==
        (AlreadyAnswered(first.isCorrect, first.key, SortStrings(d.chosen.value)), rs1)
  {
    var q := FindQuestion(qs, d.questionId.value).value;
    var ok := Scoring.IsCorrect(q.suggested, d.chosen.value, q.numAnswers);
    var r := Response(sid, q.id, SortStrings(d.chosen.value), ok);
    FindResponseAppend(rs, r, sid, q.id);
  }

  // ---------------------------------------------------------------------
  // Starting a new session

  /** `start_new_study` after the checks: the session of the exam in progress
      (the first one found) is finalised when it has answers and abandoned
      otherwise, then a new session starts at `start`. */
  function Restarted(ss: seq<Session>, rs: seq<Response>, exam: string, start: int): seq<Session> {
    var closed := Closed(ss, rs, exam);
    closed + [NewSession(|closed|, start, Some(exam))]
  }

  /** The sessions once the exam's session in progress, if any, is closed. */
  function Closed(ss: seq<Session>, rs: seq<Response>, exam: string): seq<Session> {
    match FirstOpen(ss, Some(exam))
    case None => ss
    case Some(k) => if Answered(rs, k) > 0 then ss[k := Finalized(ss[k], rs)] else ss[k := ss[k].(status := Abandoned)]
  }

  /** Closing keeps the invariant and every session's id, exam and view, and
      leaves the exam without a session in progress. */
  lemma ClosedSpec(ss: seq<Session>, rs: seq<Response>, exam: string)
    requires Consistent(ss, rs)
    ensures var closed := Closed(ss, rs, exam);
      && Consistent(closed, rs)
      && |closed| == |ss|
      && (forall i :: 0 <= i < |ss| ==> closed[i].id == ss[i].id && closed[i].exam == ss[i].exam && closed[i].lastViewed == ss[i].lastViewed)
      && (forall i :: 0 <= i < |ss| && FirstOpen(ss, Some(exam)) != Some(i) ==> closed[i] == ss[i])
      && (FirstOpen(ss, Some(exam)).Some? ==>
            var k := FirstOpen(ss, Some(exam)).value;
            && (Answered(rs, k) > 0 ==> closed[k] == Finalized(ss[k], rs))
            && (Answered(rs, k) == 0 ==> closed[k] == ss[k].(status := Abandoned)))
      && LatestOpen(closed, Some(exam)).None?
  {
    FirstOpenSpec(ss, Some(exam));
    var closed := Closed(ss, rs, exam);
    match FirstOpen(ss, Some(exam)) {
      case None =>
      case Some(k) =>
        if Answered(rs, k) > 0 {
          FinalizeKeepsConsistent(ss, rs, k);
        } else {
          AbandonKeepsConsistent(ss, rs, k);
        }
    }
    forall i | 0 <= i < |closed| ensures !OpenIn(closed[i], Some(exam)) {
      if FirstOpen(ss, Some(exam)).Some? {
        var k := FirstOpen(ss, Some(exam)).value;
        if i != k {
          assert closed[i] == ss[i];
          assert ss[k].exam == ss[i].exam ==> !(ss[i].status == InProgress);
        }
      }
    }
    LatestOpenSpec(closed, Some(exam));
  }

  /** Adding a session in progress for an exam that has none keeps the
      invariant. */
  lemma OpenKeepsConsistent(ss: seq<Session>, rs: seq<Response>, exam: string, start: int)
    requires Consistent(ss, rs) && LatestOpen(ss, Some(exam)).None?
    ensures Consistent(ss + [NewSession(|ss|, start, Some(exam))], rs)
  {
    LatestOpenSpec(ss, Some(exam));
    var ss' := ss + [NewSession(|ss|, start, Some(exam))];
    AnsweredPositive(rs, |ss|);
    assert forall i :: 0 <= i < |ss| ==> ss'[i] == ss[i];
    forall i | 0 <= i < |ss'| && ss'[i].status == Abandoned ensures Answered(rs, i) == 0 {
      assert i < |ss|;
    }
    forall i | 0 <= i < |ss'| && ss'[i].status == Completed ensures ss'[i] == Finalized(ss'[i], rs) {
      assert i < |ss|;
    }
    forall i, j | 0 <= i < |ss'| && 0 <= j < |ss'| && ss'[i].status == InProgress &&
      ss'[j].status == InProgress && ss'[i].exam == ss'[j].exam
      ensures i == j
    {
      if i < |ss| {
        assert OpenIn(ss[i], Some(exam)) ==> false;
      }
      if j < |ss| {
        assert OpenIn(ss[j], Some(exam)) ==> false;
      }
    }
  }

  /** After a restart the new session is the exam's only session in progress,
      it starts at the requested question, the earlier sessions keep their
      ids, exams and views, and the invariant holds. */
  lemma RestartedSpec(ss: seq<Session>, rs: seq<Response>, exam: string, start: int)
    requires Consistent(ss, rs)
    ensures var ss' := Restarted(ss, rs, exam, start);
      && Consistent(ss', rs)
      && |ss'| == |ss| + 1
      && ss'[|ss|] == NewSession(|ss|, start, Some(exam))
      && LatestOpen(ss', Some(exam)) == Some(|ss|)
      && FirstOpen(ss', Some(exam)) == Some(|ss|)
      && ss'[..|ss|] == Closed(ss, rs, exam)
      && (forall i :: 0 <= i < |ss| ==> ss'[i].id == ss[i].id && ss'[i].exam == ss[i].exam && ss'[i].lastViewed == ss[i].lastViewed)
      && (forall i :: 0 <= i < |ss| && FirstOpen(ss, Some(exam)) != Some(i) ==> ss'[i] == ss[i])
  {
    var closed := Closed(ss, rs, exam);
    ClosedSpec(ss, rs, exam);
    OpenKeepsConsistent(closed, rs, exam, start);
    var ss' := closed + [NewSession(|closed|, start, Some(exam))];
    LatestOpenSpec(closed, Some(exam));
    FirstOpenSpec(ss', Some(exam));
    assert forall i :: 0 <= i < |closed| ==> ss'[i] == closed[i];
    assert ss'[..|ss|] == closed;
  }

  // ---------------------------------------------------------------------
  // The server

  class Api {
    /** The exams the server knows (`AVAILABLE_EXAMS`). */
    const available: set<string>
    /** The parsed content of each exam's file; an exam whose file is
        missing or not valid JSON has no entry. */
    const files: map<string, seq<Question>>
    /** `QUESTIONS_CACHE` and `QUESTION_COUNT_CACHE`. */
    var cache: map<string, seq<Question>>
    var countCache: map<string, nat>
    /** The `test_session` and `user_response` tables. */
    var sessions: seq<Session>
    var responses: seq<Response>

    /** The caches only ever hold what loading the file gives, and the
        tables are consistent. */
    predicate Valid()
      reads this
    {
      && (forall e :: e in cache ==> e in available && e in files && cache[e] == Usable(files[e]))
      && (forall e :: e in countCache ==> countCache[e] == |ExamQuestions(available, files, e)|)
      && Consistent(sessions, responses)
    }

    constructor(available: set<string>, files: map<string, seq<Question>>)
      ensures this.available == available && this.files == files
      ensures cache == map[] && countCache == map[] && sessions == [] && responses == []
      ensures Valid()
    {
      this.available := available;
      this.files := files;
      cache := map[];
      countCache := map[];
      sessions := [];
      responses := [];
    }

    /** `load_questions_for_exam`: the answer never depends on the cache. */
    method LoadQuestions(exam: string) returns (qs: seq<Question>)
      requires Valid()
      modifies this`cache
      ensures Valid()
      ensures qs == ExamQuestions(available, files, exam)
      ensures cache == CacheAfterLoad(old(cache), available, files, exam)
    {
      if exam in cache {
        return cache[exam];
      }
      if exam !in available {
        return [];
      }
      if exam !in files {
        return [];
      }
      qs := Usable(files[exam]);
      cache := cache[exam := qs];
    }

    /** `get_or_create_current_test_session`. */
    method GetOrCreateSession(exam: string) returns (sid: nat)
      requires Valid()
      modifies this`sessions
      ensures Valid()
      ensures sessions == WithOpen(old(sessions), exam) && sid == OpenId(old(sessions), exam)
    {
      WithOpenSpec(sessions, responses, exam);
      match LatestOpen(sessions, Some(exam)) {
        case Some(k) =>
          sid := k;
        case None =>
          sid := |sessions|;
          sessions := sessions + [NewSession(sid, 0, Some(exam))];
      }
    }

    /** `finalize_session`: `None` for an unknown id. */
    method FinalizeSession(sid: nat) returns (r: Option<Session>)
      requires Valid()
      modifies this`sessions
      ensures Valid()
      ensures sid < |old(sessions)| ==>
        sessions == old(sessions)[sid := Finalized(old(sessions)[sid], responses)] && r == Some(sessions[sid])
      ensures sid >= |old(sessions)| ==> sessions == old(sessions) && r == None
    {
      if sid < |sessions| {
        FinalizeKeepsConsistent(sessions, responses, sid);
        sessions := sessions[sid := Finalized(sessions[sid], responses)];
        r := Some(sessions[sid]);
      } else {
        r := None;
      }
    }

    /** `get_questions_count`: with the files fixed, the cached count is the
        current one. */
    method GetQuestionsCount(exam: Option<string>) returns (r: Reply<nat>)
      requires Valid()
      modifies this`cache, this`countCache
      ensures Valid()
      ensures !Supplied(exam) ==> r == Fail(400) && cache == old(cache) && countCache == old(countCache)
      ensures Supplied(exam) ==>
        && r == Ok(|ExamQuestions(available, files, exam.value)|)
        && countCache == old(countCache)[exam.value := r.value]
        && (exam.value in old(countCache) ==> cache == old(cache))
        && (exam.value !in old(countCache) ==> cache == CacheAfterLoad(old(cache), available, files, exam.value))
    {
      if !Supplied(exam) {
        return Fail(400);
      }
      var e := exam.value;
      if e in countCache {
        return Ok(countCache[e]);
      }
      var qs := LoadQuestions(e);
      countCache := countCache[e := |qs|];
      r := Ok(|qs|);
    }

    /** `get_question`: an out-of-range index is refused before the session
        is touched; otherwise the session in progress records the index. */
    method GetQuestion(idx: int, exam: Option<string>) returns (r: Reply<Question>)
      requires Valid()
      modifies this`cache, this`sessions
      ensures Valid()
      ensures !Supplied(exam) ==> r == Fail(400) && cache == old(cache) && sessions == old(sessions)
      ensures Supplied(exam) ==>
        var qs := ExamQuestions(available, files, exam.value);
        && cache == CacheAfterLoad(old(cache), available, files, exam.value)
        && (!(0 <= idx < |qs|) ==> r == Fail(404) && sessions == old(sessions))
        && (0 <= idx < |qs| ==>
              var ss1 := WithOpen(old(sessions), exam.value);
              var k := OpenId(old(sessions), exam.value);
              r == Ok(qs[idx]) && k < |ss1| && sessions == ss1[k := ss1[k].(lastViewed := idx)])
    {
      if !Supplied(exam) {
        return Fail(400);
      }
      var e := exam.value;
      var qs := LoadQuestions(e);
      if !(0 <= idx < |qs|) {
        return Fail(404);
      }
      var sid := GetOrCreateSession(e);
      WithOpenSpec(old(sessions), responses, e);
      ViewKeepsConsistent(sessions, responses, sid, idx);
      sessions := sessions[sid := sessions[sid].(lastViewed := idx)];
      r := Ok(qs[idx]);
    }

    /** `submit_answer`. `data` is `None` for any falsy body, `{}` included,
        which is refused before anything else. The session in progress is
        fetched or created before the rest of the body is validated, so even
        a refused submission may create it. */
    method SubmitAnswer(data: Option<Submission>) returns (r: SubmitReply)
      requires Valid()
      modifies this`cache, this`sessions, this`responses
      ensures Valid()
      ensures data.None? || !Supplied(data.value.exam) ==>
        r == Rejected(400) && cache == old(cache) && sessions == old(sessions) && responses == old(responses)
      ensures data.Some? && Supplied(data.value.exam) ==>
        var e := data.value.exam.value;
        && cache == CacheAfterLoad(old(cache), available, files, e)
        && sessions == WithOpen(old(sessions), e)
        && (r, responses) == Submit(ExamQuestions(available, files, e), old(responses), OpenId(old(sessions), e), data.value)
    {
      if data.None? {
        return Rejected(400);
      }
      var d := data.value;
      if !Supplied(d.exam) {
        return Rejected(400);
      }
      var e := d.exam.value;
      var sid := GetOrCreateSession(e);
      WithOpenSpec(old(sessions), responses, e);
      var qs := LoadQuestions(e);
      if d.questionId.None? || d.questionId.value == "" || d.chosen.None? || d.chosen.value == [] {
        return Rejected(400);
      }
      var found := FindQuestion(qs, d.questionId.value);
      if found.None? {
        return Rejected(404);
      }
      var q := found.value;
      var chosen := d.chosen.value;
      if |chosen| != q.numAnswers {
        return Rejected(400);
      }
      var previous := FindResponse(responses, sid, q.id);
      if previous.Some? {
        return AlreadyAnswered(previous.value.correct, q.suggested, previous.value.answers);
      }
      var ok := Scoring.IsCorrect(q.suggested, chosen, q.numAnswers);
      var stored := Response(sid, q.id, SortStrings(chosen), ok);
      AnswerKeepsConsistent(sessions, responses, stored);
      responses := responses + [stored];
      r := Recorded(ok, q.suggested);
    }

    /** `get_current_session`: the session in progress is reported once it
        has an answer or has moved past the first question. */
    method CurrentSession(exam: Option<string>) returns (r: Reply<Option<Session>>)
      requires Valid()
      modifies this`sessions
      ensures Valid()
      ensures !Supplied(exam) ==> r == Fail(400) && sessions == old(sessions)
      ensures Supplied(exam) ==>
        var k := OpenId(old(sessions), exam.value);
        && sessions == WithOpen(old(sessions), exam.value)
        && k < |sessions|
        && r == Ok(if Answered(responses, k) > 0 || sessions[k].lastViewed > 0 then Some(sessions[k]) else None)
    {
      if !Supplied(exam) {
        return Fail(400);
      }
      var sid := GetOrCreateSession(exam.value);
      WithOpenSpec(old(sessions), responses, exam.value);
      if Answered(responses, sid) > 0 || sessions[sid].lastViewed > 0 {
        r := Ok(Some(sessions[sid]));
      } else {
        r := Ok(None);
      }
    }

    /** `start_new_study`. */
    method StartNewStudy(data: Option<StartRequest>) returns (r: Reply<Session>)
      requires Valid()
      modifies this`cache, this`sessions
      ensures Valid()
      ensures var exam := if data.Some? then data.value.exam else None;
        var start := if data.Some? then data.value.startIndex.GetOr(0) else 0;
        && (!Supplied(exam) ==> r == Fail(400) && cache == old(cache) && sessions == old(sessions))
        && (Supplied(exam) ==>
              var qs := ExamQuestions(available, files, exam.value);
              && cache == CacheAfterLoad(old(cache), available, files, exam.value)
              && (!(0 <= start < |qs|) ==> r == Fail(400) && sessions == old(sessions))
              && (0 <= start < |qs| ==>
                    sessions == Restarted(old(sessions), responses, exam.value, start)
                    && r == Ok(sessions[|sessions| - 1])))
    {
      var start := if data.Some? then data.value.startIndex.GetOr(0) else 0;
      var exam := if data.Some? then data.value.exam else None;
      if !Supplied(exam) {
        return Fail(400);
      }
      var e := exam.value;
      var qs := LoadQuestions(e);
      if !(0 <= start < |qs|) {
        return Fail(400);
      }
      RestartedSpec(sessions, responses, e, start);
      match FirstOpen(sessions, Some(e)) {
        case Some(k) =>
          if Answered(responses, k) > 0 {
            var _ := FinalizeSession(k);
          } else {
            sessions := sessions[k := sessions[k].(status := Abandoned)];
          }
        case None =>
      }
      var created := NewSession(|sessions|, start, Some(e));
      sessions := sessions + [created];
      r := Ok(created);
    }
  }
}
