/**
 * The session blueprint's state-changing handlers over an in-memory store of
 * the classroom, session and behaviour tables: the check-or-create route and
 * the detection recorder. Fresh UUIDs, the random file-name prefix and the
 * column defaults of a new session are parameters.
 */
module Routes {
  import opened Records
  import opened Lifecycle
  import opened Stats

  const SESSION_INACTIVE_MSG := "Session is not active"
  const NO_FILE_MSG := "No file provided"
  const SAVED_MSG := "Behaviour detected and saved successfully"

  /** The placeholder detection confidence every recorded row gets. */
  const PLACEHOLDER_CONFIDENCE: real := 0.5

  /** An upload counts as supplied when it is present and has a non-empty file name (an empty-named upload is falsy). */
  predicate Supplied(file: Option<Upload>)
  {
    file.Some? && file.value.filename != ""
  }

  /** The row a successful detection records: fixed box (10, 20, 10, 20), confidence 0.5, category hand-raising. */
  function DetectedRow(id: Id, sessionId: Id, image: string): (b: Behaviour)
    ensures b.id == id && b.sessionId == sessionId && b.image == image
    ensures (b.x, b.y, b.w, b.h) == (10, 20, 10, 20) && b.confidence == 0.5
    ensures b.behaviour == HAND_RAISING && CountOf([b], HAND_RAISING) == 1
    ensures SessionRows([b], sessionId) == [b]
  {
    Behaviour(id, sessionId, 10, 20, 10, 20, PLACEHOLDER_CONFIDENCE, image, HAND_RAISING)
  }

  /** The `analysis` object of a successful detection. */
  function EchoOf(b: Behaviour): Echo
  {
    Echo(b.id, b.behaviour, b.x, b.y, b.w, b.h, b.confidence, b.image)
  }

  /** The keys a new session row receives are not in use. */
  predicate FreshKeys(ss: seq<Session>, freshId: Id, freshSessionId: Id)
  {
    forall j :: 0 <= j < |ss| ==> ss[j].id != freshId && ss[j].sessionId != freshSessionId
  }

  /** Keys are unique and every behaviour row refers to an existing session. */
  ghost predicate Consistent(ss: seq<Session>, bs: seq<Behaviour>)
  {
    && UniqueIds(ss)
    && UniqueSessionIds(ss)
    && UniqueBehaviourIds(bs)
    && forall k :: 0 <= k < |bs| ==> SessionExists(ss, bs[k].sessionId)
  }

  /** Deactivating a session changes no key. */
  lemma DeactivateKeepsConsistent(ss: seq<Session>, bs: seq<Behaviour>, i: nat)
    requires Consistent(ss, bs) && i < |ss|
    ensures Consistent(Deactivated(ss, i), bs)
  {
    var after := Deactivated(ss, i);
    forall k | 0 <= k < |bs|
      ensures SessionExists(after, bs[k].sessionId)
    {
      var j :| 0 <= j < |ss| && ss[j].id == bs[k].sessionId;
      assert after[j].id == bs[k].sessionId;
    }
  }

  /** Appending a session with fresh keys keeps the keys unique and every reference resolved. */
  lemma AppendKeepsConsistent(ss: seq<Session>, bs: seq<Behaviour>, s: Session)
    requires Consistent(ss, bs) && FreshKeys(ss, s.id, s.sessionId)
    ensures Consistent(ss + [s], bs)
  {
    var after := ss + [s];
    forall k | 0 <= k < |bs|
      ensures SessionExists(after, bs[k].sessionId)
    {
      var j :| 0 <= j < |ss| && ss[j].id == bs[k].sessionId;
      assert after[j].id == bs[k].sessionId;
    }
  }

  /** The store. Each handler is one read-modify-write of it, run one at a time. */
  class Store {
    var classrooms: set<Id>
    var sessions: seq<Session>
    var behaviours: seq<Behaviour>

    /** An empty store over the given classrooms. */
    constructor (classrooms: set<Id>)
      ensures Valid()
      ensures this.classrooms == classrooms && sessions == [] && behaviours == []
    {
      this.classrooms := classrooms;
      sessions := [];
      behaviours := [];
    }

    /** Keys are unique and every behaviour row refers to an existing session. */
    ghost predicate Valid()
      reads this
    {
      Consistent(sessions, behaviours)
    }

    /**
     * The POST branch of the check-or-create route. A classroom with an active
     * session gets it deactivated (200, reporting the row's secondary key);
     * one without gets a new active session (201, reporting its primary key).
     */
    method ToggleSession(classId: Id, freshId: Id, freshSessionId: Id, now: Time, startedAt: Option<Time>)
      returns (resp: Response)
      requires Valid()
      requires !HasActive(sessions, classId) ==> FreshKeys(sessions, freshId, freshSessionId)
      modifies this`sessions
      ensures Valid()
      ensures HasActive(old(sessions), classId) ==>
        var i := FirstActive(old(sessions), classId).value;
        && sessions == Deactivated(old(sessions), i)
        && resp == Response(200, SessionRef(DEACTIVATED_MSG, old(sessions)[i].sessionId, None))
      ensures !HasActive(old(sessions), classId) ==>
        && sessions == old(sessions) + [Session(freshId, freshSessionId, classId, true, now, startedAt)]
        && resp == Response(201, SessionRef(CREATED_MSG, freshId, None))
      ensures AtMostOneActive(old(sessions)) ==>
        && AtMostOneActive(sessions)
        && (HasActive(sessions, classId) <==> !HasActive(old(sessions), classId))
        && forall c :: c != classId ==> (HasActive(sessions, c) <==> HasActive(old(sessions), c))
    {
      var found := FirstActive(sessions, classId);
      if found.Some? {
        var i := found.value;
        if AtMostOneActive(sessions) {
          DeactivateToggles(sessions, classId, i);
        }
        DeactivateKeepsConsistent(sessions, behaviours, i);
        var deactivated := sessions[i];
        sessions := Deactivated(sessions, i);
        resp := Response(200, SessionRef(DEACTIVATED_MSG, deactivated.sessionId, None));
      } else {
        var created := Session(freshId, freshSessionId, classId, true, now, startedAt);
        if AtMostOneActive(sessions) {
          AppendToggles(sessions, created);
        }
        AppendKeepsConsistent(sessions, behaviours, created);
        sessions := sessions + [created];
        resp := Response(201, SessionRef(CREATED_MSG, freshId, None));
      }
    }

    /**
     * The check-or-create route: GET reports the classroom's newest session
     * and changes nothing; POST toggles the classroom's active session. Either
     * way a store with at most one active session per classroom keeps that.
     */
    method CreateOrCheckSession(verb: Verb, classId: Id, freshId: Id, freshSessionId: Id, now: Time, startedAt: Option<Time>)
      returns (resp: Response)
      requires Valid()
      requires verb == Post && !HasActive(sessions, classId) ==> FreshKeys(sessions, freshId, freshSessionId)
      modifies this`sessions
      ensures Valid()
      ensures verb == Get ==> sessions == old(sessions) && resp == CheckSession(sessions, classId)
      ensures verb == Post && HasActive(old(sessions), classId) ==>
        var i := FirstActive(old(sessions), classId).value;
        && sessions == Deactivated(old(sessions), i)
        && resp == Response(200, SessionRef(DEACTIVATED_MSG, old(sessions)[i].sessionId, None))
      ensures verb == Post && !HasActive(old(sessions), classId) ==>
        && sessions == old(sessions) + [Session(freshId, freshSessionId, classId, true, now, startedAt)]
        && resp == Response(201, SessionRef(CREATED_MSG, freshId, None))
      ensures AtMostOneActive(old(sessions)) ==> AtMostOneActive(sessions)
      ensures resp.code == 201 && (forall j :: 0 <= j < |old(sessions)| ==> old(sessions)[j].createdAt < now) ==>
        CheckSession(sessions, classId) == Response(200, SessionRef(ACTIVE_MSG, freshId, Some(true)))
    {
      match verb
      case Get =>
        resp := CheckSession(sessions, classId);
      case Post =>
        var created := Session(freshId, freshSessionId, classId, true, now, startedAt);
        if forall j :: 0 <= j < |sessions| ==> sessions[j].createdAt < now {
          NewestIsReported(sessions, created);
        }
        resp := ToggleSession(classId, freshId, freshSessionId, now, startedAt);
    }

    /**
     * Two POSTs in a row on a classroom with no active session: the first
     * creates a session and reports its primary key, the second deactivates it
     * and reports its secondary key, so the two replies name the same row by
     * different keys.
     */
    method CreateThenDeactivate(classId: Id, freshId: Id, freshSessionId: Id, now: Time, startedAt: Option<Time>)
      returns (created: Response, deactivated: Response)
      requires Valid()
      requires !HasActive(sessions, classId)
      requires FreshKeys(sessions, freshId, freshSessionId)
      modifies this`sessions
      ensures Valid()
      ensures created == Response(201, SessionRef(CREATED_MSG, freshId, None))
      ensures deactivated == Response(200, SessionRef(DEACTIVATED_MSG, freshSessionId, None))
      ensures sessions == old(sessions) + [Session(freshId, freshSessionId, classId, false, now, startedAt)]
    {
      ghost var before := sessions;
      var row := Session(freshId, freshSessionId, classId, true, now, startedAt);
      FirstActiveAppended(before, row);
      created := ToggleSession(classId, freshId, freshSessionId, now, startedAt);
      assert sessions == before + [row];
      assert ActiveIn(sessions[|before|], classId);
      deactivated := ToggleSession(classId, freshId, freshSessionId, now, startedAt);
      assert Deactivated(before + [row], |before|) == before + [row.(status := false)];
    }

    /**
     * The detection route: 404 for an unknown session, then 400 for an
     * inactive one, then 400 when no file was supplied, each leaving the store
     * as it was; otherwise one placeholder row is appended and echoed with 200.
     */
    method CreateDetection(sessionId: Id, file: Option<Upload>, freshId: Id, freshHex: string)
      returns (resp: Response)
      requires Valid()
      requires forall k :: 0 <= k < |behaviours| ==> behaviours[k].id != freshId
      modifies this`behaviours
      ensures Valid()
      ensures !SessionExists(sessions, sessionId) ==>
        resp == Response(404, Error(SESSION_NOT_FOUND_MSG)) && behaviours == old(behaviours)
      ensures SessionExists(sessions, sessionId) && !sessions[Lookup(sessions, sessionId).value].status ==>
        resp == Response(400, Error(SESSION_INACTIVE_MSG)) && behaviours == old(behaviours)
      ensures SessionExists(sessions, sessionId) && sessions[Lookup(sessions, sessionId).value].status && !Supplied(file) ==>
        resp == Response(400, Error(NO_FILE_MSG)) && behaviours == old(behaviours)
      ensures SessionExists(sessions, sessionId) && sessions[Lookup(sessions, sessionId).value].status && Supplied(file) ==>
        var row := DetectedRow(freshId, sessionId, freshHex + "_" + file.value.filename);
        && behaviours == old(behaviours) + [row]
        && resp == Response(200, Analysis(SAVED_MSG, EchoOf(row)))
      ensures resp.code == 200 ==>
        CountOf(SessionRows(behaviours, sessionId), HAND_RAISING) == CountOf(SessionRows(old(behaviours), sessionId), HAND_RAISING) + 1
      ensures forall other :: other != sessionId ==> SessionRows(behaviours, other) == SessionRows(old(behaviours), other)
    {
      var found := Lookup(sessions, sessionId);
      if found.None? {
        return Response(404, Error(SESSION_NOT_FOUND_MSG));
      }
      if !sessions[found.value].status {
        return Response(400, Error(SESSION_INACTIVE_MSG));
      }
      if !Supplied(file) {
        return Response(400, Error(NO_FILE_MSG));
      }
      var row := DetectedRow(freshId, sessionId, freshHex + "_" + file.value.filename);
      forall other
        ensures SessionRows(behaviours + [row], other) == SessionRows(behaviours, other) + (if other == sessionId then [row] else [])
      {
        SessionRowsAppend(behaviours, row, other);
      }
      CountOfConcat(SessionRows(behaviours, sessionId), [row], HAND_RAISING);
      behaviours := behaviours + [row];
      resp := Response(200, Analysis(SAVED_MSG, EchoOf(row)));
    }
  }
}
