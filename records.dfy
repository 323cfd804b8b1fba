/**
 * Rows of the session blueprint's two tables (session, behaviour) and the
 * JSON responses its route handlers return, as values.
 */
module Records {

  /** Identifiers are UUID strings; timestamps are ordered integers. */
  type Id = string
  type Time = int

  datatype Option<+T> = None | Some(value: T)

  /** A row of the session table. */
  datatype Session = Session(
    id: Id,                        // primary key
    sessionId: Id,                 // second unique key, only ever read by the deactivation reply
    classId: Id,                   // the classroom the session belongs to
    status: bool,                  // true while the session is active
    createdAt: Time,
    classStartedAt: Option<Time>)  // a nullable column

  /** A row of the behaviour table: one recorded detection. */
  datatype Behaviour = Behaviour(
    id: Id,
    sessionId: Id,                 // refers to Session.id
    x: int, y: int, w: int, h: int,
    confidence: real,
    image: string,                 // stored file name of the uploaded image
    behaviour: string)             // the behaviour category

  /** An uploaded multipart file; only its client-side name matters here. */
  datatype Upload = Upload(filename: string)

  /** The verbs of the check-or-create route that the model covers. */
  datatype Verb = Get | Post

  /** The fields of a recorded behaviour that a successful detection echoes back. */
  datatype Echo = Echo(id: Id, behaviour: string, x: int, y: int, w: int, h: int, confidence: real, image: string)

  datatype SessionStats = SessionStats(sessionId: Id, classId: Id, startTime: Time, behaviors: map<string, nat>)

  datatype ClassroomStats = ClassroomStats(
    classId: Id,
    sessionCount: nat,
    sessionIds: seq<Id>,
    totalBehaviors: nat,
    behaviors: map<string, nat>)

  /** The JSON object of a response. */
  datatype Body =
    | Message(text: string)                                           // {"message": text}
    | Error(text: string)                                             // {"error": text}
    | SessionRef(text: string, sessionId: Id, status: Option<bool>)   // message, session_id and, if present, status
    | Analysis(text: string, analysis: Echo)                          // message and analysis
    | SessionReport(stats: SessionStats)                              // {"message": per-session stats}
    | ClassroomReport(classStats: ClassroomStats)                     // {"message": per-classroom stats}

  /** A status code and a JSON body. */
  datatype Response = Response(code: int, body: Body)

  const HAND_RAISING := "hand-raising"

  /** The categories every stats reply lists, with 0 when nothing was recorded. */
  const VOCABULARY: seq<string> := [HAND_RAISING, "writing", "reading"]

  /** The primary key is unique. */
  ghost predicate UniqueIds(ss: seq<Session>)
  {
    forall i, j :: 0 <= i < j < |ss| ==> ss[i].id != ss[j].id
  }

  /** The secondary key is unique. */
  ghost predicate UniqueSessionIds(ss: seq<Session>)
  {
    forall i, j :: 0 <= i < j < |ss| ==> ss[i].sessionId != ss[j].sessionId
  }

  ghost predicate UniqueBehaviourIds(bs: seq<Behaviour>)
  {
    forall i, j :: 0 <= i < j < |bs| ==> bs[i].id != bs[j].id
  }

  /** Some session row has this primary key. */
  predicate SessionExists(ss: seq<Session>, id: Id)
  {
    exists i :: 0 <= i < |ss| && ss[i].id == id
  }

  /**
   * Lookup by primary key (`Session.query.get`, or a filter on `Session.id`
   * followed by `.first()`): the position of the first row with that id.
   */
  function Lookup(ss: seq<Session>, id: Id): (r: Option<nat>)
    ensures r.None? <==> !SessionExists(ss, id)
    ensures r.Some? ==> r.value < |ss| && ss[r.value].id == id
    ensures r.Some? ==> forall j :: 0 <= j < r.value ==> ss[j].id != id
  {
    if ss == [] then None
    else if ss[0].id == id then Some(0)
    else match Lookup(ss[1..], id)
      case None => None
      case Some(k) => Some(k + 1)
  }

  /** With a unique primary key, the row Lookup finds is the only row with that id. */
  lemma LookupUnique(ss: seq<Session>, id: Id, i: int)
    requires UniqueIds(ss)
    requires 0 <= i < |ss| && ss[i].id == id
    ensures Lookup(ss, id) == Some(i)
  {
  }
}
