/** The server-rendered single-exam site. It keeps the id of the session in
    progress in the browser's cookie session, next to a tracker listing the
    questions answered in it, and uses the same tables as the API. */
module Routes {
  import opened Wrappers
  import opened Strings
  import opened Store
  import Scoring
  import Backend

  type Question = Backend.Question

  /** One entry of the cookie's tracker: the question's id and its verdict. */
  datatype Tracked = Tracked(id: string, correct: bool)

  /** The tracker rebuilt from the stored answers of session `sid`, in the
      order they were stored. */
  function TrackerOf(rs: seq<Response>, sid: nat): seq<Tracked> {
    if rs == [] then []
    else
      var last := rs[|rs| - 1];
      TrackerOf(rs[..|rs| - 1], sid) + (if last.sessionId == sid then [Tracked(last.questionId, last.correct)] else [])
  }

  /** How many tracker entries are marked correct. */
  function CorrectEntries(ts: seq<Tracked>): nat {
    if ts == [] then 0 else CorrectEntries(ts[..|ts| - 1]) + (if ts[|ts| - 1].correct then 1 else 0)
  }

  lemma CorrectEntriesAppend(ts: seq<Tracked>, t: Tracked)
    ensures CorrectEntries(ts + [t]) == CorrectEntries(ts) + (if t.correct then 1 else 0)
  {
    assert (ts + [t])[..|ts|] == ts;
  }

  /** The tracker counts what finalising the session counts: one entry per
      stored answer, and as many correct entries as correct answers. */
  lemma {:induction false} TrackerCounts(rs: seq<Response>, sid: nat)
    ensures |TrackerOf(rs, sid)| == Answered(rs, sid)
    ensures CorrectEntries(TrackerOf(rs, sid)) == Right(rs, sid)
  {
    if rs != [] {
      var last := rs[|rs| - 1];
      var init := rs[..|rs| - 1];
      TrackerCounts(init, sid);
      if last.sessionId == sid {
        CorrectEntriesAppend(TrackerOf(init, sid), Tracked(last.questionId, last.correct));
      } else {
        assert TrackerOf(init, sid) + [] == TrackerOf(init, sid);
      }
    }
  }

  lemma TrackerAppend(rs: seq<Response>, r: Response, sid: nat)
    ensures TrackerOf(rs + [r], sid) ==
      TrackerOf(rs, sid) + (if r.sessionId == sid then [Tracked(r.questionId, r.correct)] else [])
  {
    assert (rs + [r])[..|rs|] == rs;
  }

  // ---------------------------------------------------------------------
  // Replies

  /** The body of an answer submission on the site; an absent key is
      `None`. A falsy body (missing, `null` or `{}`) is no `SiteSubmission`:
      the request then carries `None`. */
  datatype SiteSubmission = SiteSubmission(questionId: Option<string>, chosen: Option<seq<string>>)

  /** Where a page request ends: the index page, the end-of-study page, a
      question page, or a rendered question with the stored answer of this
      session to it, if any. */
  datatype Page =
    | ToIndex
    | ToFinish
    | ToQuestion(index: nat)
    | Shown(question: Question, index: nat, total: nat, previous: Option<Response>, sessionId: nat)

  // ---------------------------------------------------------------------
  // Closing a session

  /** Abandoning a session on the site also zeroes its score and counts. */
  function Abandon(s: Session): Session {
    s.(status := Abandoned, score := Some(0.0), total := Some(0), correct := Some(0))
  }

  /** Abandoning a session without answers records exactly what finalising
      it would, except for the status. */
  lemma AbandonIsEmptyFinalize(s: Session, rs: seq<Response>)
    requires Answered(rs, s.id) == 0
    ensures Abandon(s) == Finalized(s, rs).(status := Abandoned)
  {
    RightAtMostAnswered(rs, s.id);
  }

  // ---------------------------------------------------------------------
  // The decision part of a submission

  /** `submit_answer` once the session `sid` is known: the reply and the
      answers table after it, with the site's own verdict. */
  function SiteSubmit(qs: seq<Question>, rs: seq<Response>, sid: nat, d: SiteSubmission): (Backend.SubmitReply, seq<Response>) {
    if d.questionId.None? || d.questionId.value == "" || d.chosen.None? || d.chosen.value == [] then
      (Backend.Rejected(400), rs)
    else match Backend.FindQuestion(qs, d.questionId.value)
      case None => (Backend.Rejected(404), rs)
      case Some(q) =>
        var chosen := d.chosen.value;
        if |chosen| != q.numAnswers then (Backend.Rejected(400), rs)
        else match FindResponse(rs, sid, q.id)
          case Some(prev) => (Backend.AlreadyAnswered(prev.correct, q.suggested, prev.answers), rs)
          case None =>
            var ok := Scoring.SiteVerdict(q.suggested, chosen, q.numAnswers);
            (Backend.Recorded(ok, q.suggested), rs + [Response(sid, q.id, SortStrings(chosen), ok)])
  }

  /** The site and the API decide every submission alike: same reply, same
      stored answer. */
  lemma SiteSubmitIsApiSubmit(qs: seq<Question>, rs: seq<Response>, sid: nat, d: SiteSubmission, exam: Option<string>)
    ensures SiteSubmit(qs, rs, sid, d) == Backend.Submit(qs, rs, sid, Backend.Submission(d.questionId, d.chosen, exam))
  {
    if d.questionId.Some? && d.chosen.Some? {
      match Backend.FindQuestion(qs, d.questionId.value) {
        case None =>
        case Some(q) =>
          Scoring.SiteAgreesWithApi(q.suggested, d.chosen.value, q.numAnswers);
      }
    }
  }

  // ---------------------------------------------------------------------
  // The invariant

  /** Ids are positions, answers belong to existing sessions, a session
      answers a question once, completed sessions carry the counts of their
      answers, and abandoned sessions have none and carry zeros. */
  predicate Consistent(ss: seq<Session>, rs: seq<Response>) {
    && (forall i :: 0 <= i < |ss| ==> ss[i].id == i)
    && (forall r :: r in rs ==> r.sessionId < |ss|)
    && OneAnswerEach(rs)
    && (forall i :: 0 <= i < |ss| && ss[i].status == Completed ==> ss[i] == Finalized(ss[i], rs))
    && (forall i :: 0 <= i < |ss| && ss[i].status == Abandoned ==> Answered(rs, i) == 0 && ss[i] == Abandon(ss[i]))
  }

  /** The cookie's session, when it names a session in progress. */
  function CookieSession(ss: seq<Session>, cookie: Option<nat>): Option<nat> {
    if cookie.Some? && cookie.value < |ss| && ss[cookie.value].status == InProgress then cookie else None
  }

  /** The session `get_or_create_current_test_session` settles on: the
      cookie's, else the newest in progress, else a new one. */
  function ActiveId(ss: seq<Session>, cookie: Option<nat>): nat {
    match CookieSession(ss, cookie)
    case Some(k) => k
    case None =>
      match LatestOpen(ss, None)
      case Some(k) => k
      case None => |ss|
  }

  /** The sessions after it: one more exactly when no session is in
      progress. */
  function WithActive(ss: seq<Session>, cookie: Option<nat>): seq<Session> {
    if CookieSession(ss, cookie).None? && LatestOpen(ss, None).None? then ss + [NewSession(|ss|, 0, None)] else ss
  }

  /** The session settled on is in progress; it is the cookie's when that
      one is in progress; existing sessions are untouched; the invariant is
      kept; and a new session has no answers. */
  lemma WithActiveSpec(ss: seq<Session>, rs: seq<Response>, cookie: Option<nat>)
    requires Consistent(ss, rs)
    ensures var ss' := WithActive(ss, cookie); var k := ActiveId(ss, cookie);
      && Consistent(ss', rs)
      && k < |ss'| && ss'[k].status == InProgress
      && (CookieSession(ss, cookie).Some? ==> k == cookie.value)
      && ss <= ss' && |ss'| <= |ss| + 1
      && (k == |ss| ==> TrackerOf(rs, k) == [])
  {
    LatestOpenSpec(ss, None);
    NoAnswersBeyond(ss, rs);
    var ss' := WithActive(ss, cookie);
    if |ss'| > |ss| {
      assert forall i :: 0 <= i < |ss| ==> ss'[i] == ss[i];
      forall i | 0 <= i < |ss'| && ss'[i].status != InProgress
        ensures (ss'[i].status == Completed ==> ss'[i] == Finalized(ss'[i], rs))
        ensures (ss'[i].status == Abandoned ==> Answered(rs, i) == 0 && ss'[i] == Abandon(ss'[i]))
      {
        assert i < |ss|;
      }
    }
  }

  /** A session id past the end of the table has no answers. */
  lemma NoAnswersBeyond(ss: seq<Session>, rs: seq<Response>)
    requires forall r :: r in rs ==> r.sessionId < |ss|
    ensures TrackerOf(rs, |ss|) == [] && Answered(rs, |ss|) == 0
  {
    TrackerCounts(rs, |ss|);
    AnsweredPositive(rs, |ss|);
    assert forall i :: 0 <= i < |rs| ==> rs[i] in rs;
  }

  /** Storing a first answer of a session in progress keeps the invariant. */
  lemma AnswerKeepsConsistent(ss: seq<Session>, rs: seq<Response>, r: Response)
    requires Consistent(ss, rs)
    requires r.sessionId < |ss| && ss[r.sessionId].status == InProgress
    requires FindResponse(rs, r.sessionId, r.questionId).None?
    ensures Consistent(ss, rs + [r])
  {
    StoreKeepsOneAnswerEach(rs, r);
    forall i | 0 <= i < |ss| && ss[i].status != InProgress
      ensures Answered(rs + [r], i) == Answered(rs, i) && Right(rs + [r], i) == Right(rs, i)
    {
      CountsAppend(rs, r, i);
    }
    assert forall x :: x in rs + [r] ==> x in rs || x == r;
  }

  /** `start_new_study`: the sessions once the cookie's session, when it is
      in progress, is finalised (with answers) or abandoned (without). */
  function ClosedCookie(ss: seq<Session>, rs: seq<Response>, cookie: Option<nat>): seq<Session> {
    match CookieSession(ss, cookie)
    case None => ss
    case Some(k) => if Answered(rs, k) > 0 then ss[k := Finalized(ss[k], rs)] else ss[k := Abandon(ss[k])]
  }

  /** Closing keeps the invariant, the table's length and every session's
      id and view; only the cookie's session changes, and it is no longer in
      progress. */
  lemma ClosedCookieSpec(ss: seq<Session>, rs: seq<Response>, cookie: Option<nat>)
    requires Consistent(ss, rs)
    ensures var closed := ClosedCookie(ss, rs, cookie);
      && Consistent(closed, rs)
      && |closed| == |ss|
      && (forall i :: 0 <= i < |ss| ==> closed[i].id == ss[i].id && closed[i].lastViewed == ss[i].lastViewed)
      && (forall i :: 0 <= i < |ss| && CookieSession(ss, cookie) != Some(i) ==> closed[i] == ss[i])
      && (CookieSession(ss, cookie).Some? ==>
            var k := cookie.value;
            && closed[k].status != InProgress
            && (Answered(rs, k) > 0 ==> closed[k] == Finalized(ss[k], rs))
            && (Answered(rs, k) == 0 ==> closed[k] == Abandon(ss[k])))
  {
  }

  /** While the cookie names a session in progress, the tracker lists that
      session's stored answers. */
  predicate Tracks(ss: seq<Session>, rs: seq<Response>, cookie: Option<nat>, tracker: Option<seq<Tracked>>) {
    CookieSession(ss, cookie).Some? ==> tracker == Some(TrackerOf(rs, cookie.value))
  }

  /** Appending the stored answer of the cookie's session to the tracker
      keeps the tracker in step with the table. */
  lemma TrackAnswer(ss: seq<Session>, rs: seq<Response>, cookie: Option<nat>, tracker: Option<seq<Tracked>>, r: Response)
    requires Tracks(ss, rs, cookie, tracker)
    requires CookieSession(ss, cookie) == Some(r.sessionId)
    ensures Tracks(ss, rs + [r], cookie, Some(tracker.GetOr([]) + [Tracked(r.questionId, r.correct)]))
  {
    TrackerAppend(rs, r, r.sessionId);
  }

  // ---------------------------------------------------------------------
  // The server

  class App {
    /** The questions loaded at start-up, unfiltered. */
    const questions: seq<Question>
    var sessions: seq<Session>
    var responses: seq<Response>
    /** The cookie's `current_test_session_id` and
        `questions_in_current_session`. */
    var cookie: Option<nat>
    var tracker: Option<seq<Tracked>>

    /** The tables are consistent and, while the cookie names a session in
        progress, the tracker lists that session's stored answers. */
    predicate Valid()
      reads this
    {
      Consistent(sessions, responses) && Tracks(sessions, responses, cookie, tracker)
    }

    constructor(questions: seq<Question>)
      ensures this.questions == questions
      ensures sessions == [] && responses == [] && cookie == None && tracker == None
      ensures Valid()
    {
      this.questions := questions;
      sessions := [];
      responses := [];
      cookie := None;
      tracker := None;
    }

    /** `get_or_create_current_test_session`: afterwards the cookie names
        the session returned, which is in progress, and the tracker lists
        its stored answers. */
    method GetOrCreateSession() returns (sid: nat)
      requires Valid()
      modifies this`sessions, this`cookie, this`tracker
      ensures Valid()
      ensures sid == ActiveId(old(sessions), old(cookie))
      ensures sessions == WithActive(old(sessions), old(cookie))
      ensures sid < |sessions| && sessions[sid].status == InProgress
      ensures cookie == Some(sid) && tracker == Some(TrackerOf(responses, sid))
      ensures CookieSession(old(sessions), old(cookie)).Some? ==> tracker == old(tracker)
    {
      WithActiveSpec(sessions, responses, cookie);
      if cookie.Some? {
        var k := cookie.value;
        if !(k < |sessions| && sessions[k].status == InProgress) {
          cookie := None;
          tracker := None;
        }
      }
      if cookie.None? {
        match LatestOpen(sessions, None) {
          case Some(k) =>
            cookie := Some(k);
            tracker := Some(TrackerOf(responses, k));
          case None =>
            var created := NewSession(|sessions|, 0, None);
            sessions := sessions + [created];
            cookie := Some(created.id);
            tracker := Some([]);
        }
      }
      sid := cookie.value;
    }

    /** `index`: the number of questions, and the session settled on when
        it is worth resuming, that is, when it has answers or has been moved
        past the first question. */
    method Index() returns (total: nat, resume: Option<Session>)
      requires Valid()
      modifies this`sessions, this`cookie, this`tracker
      ensures Valid()
      ensures total == |questions|
      ensures var k := ActiveId(old(sessions), old(cookie));
        && sessions == WithActive(old(sessions), old(cookie))
        && cookie == Some(k) && k < |sessions| && sessions[k].status == InProgress
        && (resume.Some? <==> Answered(responses, k) > 0 || sessions[k].lastViewed > 0)
        && (resume.Some? ==> resume.value == sessions[k])
    {
      total := |questions|;
      var sid := GetOrCreateSession();
      if Answered(responses, sid) > 0 || sessions[sid].lastViewed > 0 {
        resume := Some(sessions[sid]);
      } else {
        resume := None;
      }
    }

    /** `start_new_study`: closes the cookie's session, clears the cookie,
        and, when there are questions, starts a new session at the first
        question. */
    method StartNewStudy() returns (p: Page)
      requires Valid()
      modifies this`sessions, this`cookie, this`tracker
      ensures Valid()
      ensures var closed := ClosedCookie(old(sessions), responses, old(cookie));
        && (questions == [] ==> p == ToIndex && sessions == closed && cookie == None && tracker == None)
        && (questions != [] ==>
              && p == ToQuestion(0)
              && sessions == closed + [NewSession(|closed|, 0, None)]
              && cookie == Some(|closed|) && tracker == Some([]))
    {
      ClosedCookieSpec(sessions, responses, cookie);
      if cookie.Some? {
        var k := cookie.value;
        if k < |sessions| && sessions[k].status == InProgress {
          if Answered(responses, k) > 0 {
            var _ := FinalizeSession(k);
          } else {
            sessions := sessions[k := Abandon(sessions[k])];
          }
        }
      }
      cookie := None;
      tracker := None;
      if questions == [] {
        return ToIndex;
      }
      NoAnswersBeyond(sessions, responses);
      var created := NewSession(|sessions|, 0, None);
      NewKeepsConsistent(sessions, responses);
      sessions := sessions + [created];
      cookie := Some(created.id);
      tracker := Some([]);
      p := ToQuestion(0);
    }

    /** `show_question`: without questions, back to the index; an index out
        of range ends the study (after the session was fetched or created);
        otherwise the session records the index viewed, and the page shows
        the question with this session's stored answer to it. */
    method ShowQuestion(idx: int) returns (p: Page)
      requires Valid()
      modifies this`sessions, this`cookie, this`tracker
      ensures Valid()
      ensures questions == [] ==>
        p == ToIndex && sessions == old(sessions) && cookie == old(cookie) && tracker == old(tracker)
      ensures questions != [] ==>
        var k := ActiveId(old(sessions), old(cookie));
        var ss1 := WithActive(old(sessions), old(cookie));
        && k < |ss1| && cookie == Some(k)
        && (!(0 <= idx < |questions|) ==> p == ToFinish && sessions == ss1)
        && (0 <= idx < |questions| ==>
              && sessions == ss1[k := ss1[k].(lastViewed := idx)]
              && p == Shown(questions[idx], idx, |questions|, FindResponse(responses, k, questions[idx].id), k))
    {
      if questions == [] {
        return ToIndex;
      }
      var sid := GetOrCreateSession();
      if !(0 <= idx < |questions|) {
        return ToFinish;
      }
      ViewKeepsConsistent(sessions, responses, sid, idx);
      sessions := sessions[sid := sessions[sid].(lastViewed := idx)];
      var q := questions[idx];
      p := Shown(q, idx, |questions|, FindResponse(responses, sid, q.id), sid);
    }

    /** `submit_answer`: a body is required before anything else (`data` is
        `None` for any falsy body, `{}` included); then the
        session is fetched or created, and the submission is decided as on
        the API; a stored answer is also appended to the tracker. */
    method SubmitAnswer(data: Option<SiteSubmission>) returns (r: Backend.SubmitReply)
      requires Valid()
      modifies this`sessions, this`responses, this`cookie, this`tracker
      ensures Valid()
      ensures data.None? ==>
        r == Backend.Rejected(400) && sessions == old(sessions) && responses == old(responses)
        && cookie == old(cookie) && tracker == old(tracker)
      ensures data.Some? ==>
        var k := ActiveId(old(sessions), old(cookie));
        && sessions == WithActive(old(sessions), old(cookie))
        && cookie == Some(k)
        && (r, responses) == SiteSubmit(questions, old(responses), k, data.value)
        && tracker == Some(TrackerOf(responses, k))
    {
      if data.None? {
        return Backend.Rejected(400);
      }
      var sid := GetOrCreateSession();
      r := RecordAnswer(sid, data.value);
    }

    /** The part of `submit_answer` after the session is settled: the
        checks, the verdict, the stored answer and the tracker entry. */
    method RecordAnswer(sid: nat, d: SiteSubmission) returns (r: Backend.SubmitReply)
      requires Valid() && CookieSession(sessions, cookie) == Some(sid)
      modifies this`responses, this`tracker
      ensures Valid()
      ensures (r, responses) == SiteSubmit(questions, old(responses), sid, d)
      ensures tracker == Some(TrackerOf(responses, sid))
    {
      if d.questionId.None? || d.questionId.value == "" || d.chosen.None? || d.chosen.value == [] {
        return Backend.Rejected(400);
      }
      var found := Backend.FindQuestion(questions, d.questionId.value);
      if found.None? {
        return Backend.Rejected(404);
      }
      var q := found.value;
      var chosen := d.chosen.value;
      if |chosen| != q.numAnswers {
        return Backend.Rejected(400);
      }
      var previous := FindResponse(responses, sid, q.id);
      if previous.Some? {
        return Backend.AlreadyAnswered(previous.value.correct, q.suggested, previous.value.answers);
      }
      r := StoreAnswer(sid, q, chosen);
    }

    /** The end of `submit_answer`: the verdict, the stored answer with the
        letters sorted, and the tracker entry. */
    method StoreAnswer(sid: nat, q: Question, chosen: seq<string>) returns (r: Backend.SubmitReply)
      requires Valid() && CookieSession(sessions, cookie) == Some(sid)
      requires FindResponse(responses, sid, q.id).None?
      modifies this`responses, this`tracker
      ensures Valid()
      ensures var ok := Scoring.SiteVerdict(q.suggested, chosen, q.numAnswers);
        && r == Backend.Recorded(ok, q.suggested)
        && responses == old(responses) + [Response(sid, q.id, SortStrings(chosen), ok)]
      ensures tracker == Some(TrackerOf(responses, sid))
    {
      var ok := Scoring.SiteVerdict(q.suggested, chosen, q.numAnswers);
      var answer := Response(sid, q.id, SortStrings(chosen), ok);
      var stored := responses + [answer];
      var tracked := Some(tracker.GetOr([]) + [Tracked(q.id, ok)]);
      AnswerKeepsConsistent(sessions, responses, answer);
      TrackAnswer(sessions, responses, cookie, tracker, answer);
      assert Consistent(sessions, stored) && Tracks(sessions, stored, cookie, tracked);
      responses, tracker := stored, tracked;
      r := Backend.Recorded(ok, q.suggested);
    }

    /** `finalize_session`: `None` for an unknown id. */
    method FinalizeSession(sid: nat) returns (r: Option<Session>)
      requires Valid()
      modifies this`sessions
      ensures Valid()
      ensures sid < |old(sessions)| ==>
        sessions == old(sessions)[sid := Finalized(old(sessions)[sid], responses)] && r == Some(sessions[sid])
      ensures sid >= |old(sessions)| ==> sessions == old(sessions) && r == None
    {
      if sid < |sessions| {
        sessions := sessions[sid := Finalized(sessions[sid], responses)];
        r := Some(sessions[sid]);
      } else {
        r := None;
      }
    }
  }

  /** Recording the question viewed keeps the invariant. */
  lemma ViewKeepsConsistent(ss: seq<Session>, rs: seq<Response>, k: nat, idx: int)
    requires Consistent(ss, rs) && k < |ss|
    ensures Consistent(ss[k := ss[k].(lastViewed := idx)], rs)
  {
  }

  /** Appending a new session keeps the invariant. */
  lemma NewKeepsConsistent(ss: seq<Session>, rs: seq<Response>)
    requires Consistent(ss, rs)
    ensures Consistent(ss + [NewSession(|ss|, 0, None)], rs)
  {
    var ss' := ss + [NewSession(|ss|, 0, None)];
    assert forall i :: 0 <= i < |ss| ==> ss'[i] == ss[i];
  }
}
