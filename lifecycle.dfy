/**
 * The session lifecycle of the check-or-create route: the read-only query
 * that reports a classroom's newest session, the search for its active
 * session, and what the two POST branches do to "at most one active session
 * per classroom".
 */
module Lifecycle {
  import opened Records

  const NO_SESSION_MSG := "No session found for this class."
  const ACTIVE_MSG := "Session is already active."
  const INACTIVE_MSG := "Session exists but is not active."
  const DEACTIVATED_MSG := "Existing active session has been deactivated"
  const CREATED_MSG := "Session created successfully"

  /** Row i is a session of the classroom created no earlier than any other of its sessions. */
  predicate IsLatest(ss: seq<Session>, classId: Id, i: int)
  {
    && 0 <= i < |ss|
    && ss[i].classId == classId
    && forall j :: 0 <= j < |ss| && ss[j].classId == classId ==> ss[j].createdAt <= ss[i].createdAt
  }

  /** The classroom has no session at all. */
  predicate NoSessionFor(ss: seq<Session>, classId: Id)
  {
    forall j :: 0 <= j < |ss| ==> ss[j].classId != classId
  }

  /**
   * The classroom's sessions ordered by creation time, newest first, and the
   * first of them taken. Among sessions created at the same time the earliest
   * row of the table is taken.
   */
  function Latest(ss: seq<Session>, classId: Id): (r: Option<nat>)
    ensures r.None? <==> NoSessionFor(ss, classId)
    ensures r.Some? ==> IsLatest(ss, classId, r.value)
  {
    if ss == [] then None
    else
      var n := |ss| - 1;
      var earlier := Latest(ss[..n], classId);
      if ss[n].classId != classId then earlier
      else if earlier.Some? && ss[n].createdAt <= ss[earlier.value].createdAt then earlier
      else Some(n)
  }

  /** How a found session is reported: active ones with `status: true`, inactive ones without a status. */
  function Report(s: Session): (r: Body)
    ensures r.SessionRef? && r.sessionId == s.id
    ensures r.status == if s.status then Some(true) else None
    ensures r.text == (if s.status then ACTIVE_MSG else INACTIVE_MSG)
  {
    if s.status then SessionRef(ACTIVE_MSG, s.id, Some(true))
    else SessionRef(INACTIVE_MSG, s.id, None)
  }

  /** The GET branch of the check-or-create route: always 200, reading the table only. */
  function CheckSession(ss: seq<Session>, classId: Id): (r: Response)
    ensures r.code == 200
    ensures r.body == Message(NO_SESSION_MSG) <==> NoSessionFor(ss, classId)
    ensures r.body != Message(NO_SESSION_MSG) ==>
      exists i :: IsLatest(ss, classId, i) && r.body == Report(ss[i])
    ensures r.body.SessionRef? ==> (r.body.status == Some(true) <==> r.body.text == ACTIVE_MSG)
  {
    match Latest(ss, classId)
    case None => Response(200, Message(NO_SESSION_MSG))
    case Some(i) => Response(200, Report(ss[i]))
  }

  /** The session is the classroom's and is active. */
  predicate ActiveIn(s: Session, classId: Id)
  {
    s.classId == classId && s.status
  }

  predicate HasActive(ss: seq<Session>, classId: Id)
  {
    exists i :: 0 <= i < |ss| && ActiveIn(ss[i], classId)
  }

  /** The intended invariant: no classroom has two active sessions. */
  predicate AtMostOneActive(ss: seq<Session>)
  {
    forall i, j :: 0 <= i < j < |ss| && ss[i].status && ss[j].status ==> ss[i].classId != ss[j].classId
  }

  /** `filter_by(class_id=..., status=True).first()`: the first active session of the classroom. */
  function FirstActive(ss: seq<Session>, classId: Id): (r: Option<nat>)
    ensures r.None? <==> !HasActive(ss, classId)
    ensures r.Some? ==> r.value < |ss| && ActiveIn(ss[r.value], classId)
    ensures r.Some? ==> forall j :: 0 <= j < r.value ==> !ActiveIn(ss[j], classId)
  {
    if ss == [] then None
    else if ActiveIn(ss[0], classId) then Some(0)
    else match FirstActive(ss[1..], classId)
      case None => None
      case Some(k) => Some(k + 1)
  }

  /** A classroom's active session appended to a table where it had none is the one the next POST finds. */
  lemma FirstActiveAppended(ss: seq<Session>, s: Session)
    requires s.status && !HasActive(ss, s.classId)
    ensures FirstActive(ss + [s], s.classId) == Some(|ss|)
  {
    var after := ss + [s];
    assert ActiveIn(after[|ss|], s.classId);
    forall j | 0 <= j < |ss|
      ensures !ActiveIn(after[j], s.classId)
    {
      assert after[j] == ss[j];
    }
  }

  /** The table after the deactivation branch: row i's status becomes false, nothing else changes. */
  function Deactivated(ss: seq<Session>, i: nat): (r: seq<Session>)
    requires i < |ss|
    ensures |r| == |ss| && !r[i].status
    ensures r[i].(status := ss[i].status) == ss[i]
    ensures forall j :: 0 <= j < |ss| && j != i ==> r[j] == ss[j]
  {
    ss[i := ss[i].(status := false)]
  }

  /**
   * Deactivating the classroom's active session keeps the invariant, leaves
   * the classroom with no active session, and does not change whether any
   * other classroom has one.
   */
  lemma DeactivateToggles(ss: seq<Session>, classId: Id, i: nat)
    requires AtMostOneActive(ss)
    requires i < |ss| && ActiveIn(ss[i], classId)
    ensures AtMostOneActive(Deactivated(ss, i))
    ensures !HasActive(Deactivated(ss, i), classId)
    ensures forall c :: c != classId ==> (HasActive(Deactivated(ss, i), c) <==> HasActive(ss, c))
  {
    var after := Deactivated(ss, i);
    forall c | c != classId
      ensures HasActive(after, c) <==> HasActive(ss, c)
    {
      if HasActive(ss, c) {
        var j :| 0 <= j < |ss| && ActiveIn(ss[j], c);
        assert ActiveIn(after[j], c);
      }
      if HasActive(after, c) {
        var j :| 0 <= j < |after| && ActiveIn(after[j], c);
        assert ActiveIn(ss[j], c);
      }
    }
  }

  /**
   * Appending an active session for a classroom that has none keeps the
   * invariant, gives the classroom an active session, and does not change
   * whether any other classroom has one.
   */
  lemma AppendToggles(ss: seq<Session>, s: Session)
    requires AtMostOneActive(ss)
    requires s.status && !HasActive(ss, s.classId)
    ensures AtMostOneActive(ss + [s])
    ensures HasActive(ss + [s], s.classId)
    ensures forall c :: c != s.classId ==> (HasActive(ss + [s], c) <==> HasActive(ss, c))
  {
    var after := ss + [s];
    assert ActiveIn(after[|ss|], s.classId);
    forall c | c != s.classId
      ensures HasActive(after, c) <==> HasActive(ss, c)
    {
      if HasActive(ss, c) {
        var j :| 0 <= j < |ss| && ActiveIn(ss[j], c);
        assert ActiveIn(after[j], c);
      }
      if HasActive(after, c) {
        var j :| 0 <= j < |after| && ActiveIn(after[j], c);
        assert j < |ss| && ActiveIn(ss[j], c);
      }
    }
  }

  /**
   * A session created later than every existing row is the one the GET query
   * reports afterwards, as active when it is active.
   */
  lemma NewestIsReported(ss: seq<Session>, s: Session)
    requires forall j :: 0 <= j < |ss| ==> ss[j].createdAt < s.createdAt
    ensures Latest(ss + [s], s.classId) == Some(|ss|)
    ensures CheckSession(ss + [s], s.classId) == Response(200, Report(s))
  {
    assert (ss + [s])[..|ss|] == ss;
    var earlier := Latest(ss, s.classId);
    assert earlier.Some? ==> ss[earlier.value].createdAt < s.createdAt;
  }
}
