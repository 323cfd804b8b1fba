/**
 * The stats aggregator: behaviour rows grouped by category and counted
 * (`GROUP BY behaviour` with `COUNT(id)`), turned into a dictionary, padded
 * with the fixed vocabulary, and summed; per session, per classroom, and per
 * session scoped to a classroom.
 */
module Stats {
  import opened Records

  const SESSION_NOT_FOUND_MSG := "Session not found"
  const CLASSROOM_NOT_FOUND_MSG := "Classroom not found"
  const NOT_IN_CLASSROOM_MSG := "Session not found in this classroom"

  /** The text of the exception raised when a session has no start time to format. */
  const NO_START_TIME_MSG := "'NoneType' object has no attribute 'isoformat'"

  /** The categories of the fixed vocabulary, as a set. */
  function VocabularySet(): set<string>
  {
    set k | k in VOCABULARY
  }

  // ---------------------------------------------------------------------------
  // Counting rows

  /** Number of rows of the category. */
  function CountOf(rows: seq<Behaviour>, category: string): nat
  {
    if rows == [] then 0
    else (if rows[0].behaviour == category then 1 else 0) + CountOf(rows[1..], category)
  }

  /** The categories that occur among the rows. */
  function CategoriesOf(rows: seq<Behaviour>): set<string>
  {
    set i | 0 <= i < |rows| :: rows[i].behaviour
  }

  /** A category occurs among the rows exactly when its count is positive. */
  lemma {:induction false} CountOfPositive(rows: seq<Behaviour>, category: string)
    ensures CountOf(rows, category) > 0 <==> category in CategoriesOf(rows)
  {
    if rows != [] {
      CountOfPositive(rows[1..], category);
      if category in CategoriesOf(rows[1..]) {
        var i :| 0 <= i < |rows[1..]| && rows[1..][i].behaviour == category;
        assert rows[i + 1].behaviour == category;
      }
      if category in CategoriesOf(rows) && rows[0].behaviour != category {
        var i :| 0 <= i < |rows| && rows[i].behaviour == category;
        assert rows[1..][i - 1].behaviour == category;
      }
    }
  }

  lemma {:induction false} CountOfConcat(a: seq<Behaviour>, b: seq<Behaviour>, category: string)
    ensures CountOf(a + b, category) == CountOf(a, category) + CountOf(b, category)
  {
    if a == [] {
      assert a + b == b;
    } else {
      assert (a + b)[1..] == a[1..] + b;
      CountOfConcat(a[1..], b, category);
    }
  }

  // ---------------------------------------------------------------------------
  // GROUP BY behaviour, COUNT(id)

  /** One row of the grouped query: a category and how many rows carry it. */
  datatype Group = Group(behaviour: string, count: nat)

  function GroupCategories(g: seq<Group>): set<string>
  {
    set i | 0 <= i < |g| :: g[i].behaviour
  }

  predicate DistinctCategories(g: seq<Group>)
  {
    forall i, j :: 0 <= i < j < |g| ==> g[i].behaviour != g[j].behaviour
  }

  /** The count a list of groups gives the category (summed over its entries). */
  function CountIn(g: seq<Group>, category: string): nat
  {
    if g == [] then 0
    else (if g[0].behaviour == category then g[0].count else 0) + CountIn(g[1..], category)
  }

  /** `sum(c for _, c in behavior_results)`. */
  function SumCounts(g: seq<Group>): nat
  {
    if g == [] then 0 else g[0].count + SumCounts(g[1..])
  }

  /** The categories of a list of groups with one more group in front. */
  lemma GroupCategoriesCons(x: Group, g: seq<Group>)
    ensures GroupCategories([x] + g) == {x.behaviour} + GroupCategories(g)
  {
    var xs := [x] + g;
    forall k
      ensures k in GroupCategories(xs) <==> k in {x.behaviour} + GroupCategories(g)
    {
      if k in GroupCategories(xs) {
        var i :| 0 <= i < |xs| && xs[i].behaviour == k;
        if i > 0 { assert g[i - 1].behaviour == k; }
      }
      if k in GroupCategories(g) {
        var i :| 0 <= i < |g| && g[i].behaviour == k;
        assert xs[i + 1].behaviour == k;
      }
    }
  }

  /** A list of groups with one more in front is distinct when the tail is and lacks the new category. */
  lemma DistinctCons(x: Group, g: seq<Group>)
    ensures DistinctCategories([x] + g) <==> x.behaviour !in GroupCategories(g) && DistinctCategories(g)
  {
    var xs := [x] + g;
    if DistinctCategories(xs) {
      forall j | 0 <= j < |g|
        ensures g[j].behaviour != x.behaviour
      {
        assert xs[0] == x && xs[j + 1] == g[j];
      }
      forall i, j | 0 <= i < j < |g|
        ensures g[i].behaviour != g[j].behaviour
      {
        assert xs[i + 1] == g[i] && xs[j + 1] == g[j];
      }
    }
    if x.behaviour !in GroupCategories(g) && DistinctCategories(g) {
      forall i, j | 0 <= i < j < |xs|
        ensures xs[i].behaviour != xs[j].behaviour
      {
        assert xs[j] == g[j - 1];
        if i == 0 {
          assert g[j - 1].behaviour in GroupCategories(g);
        } else {
          assert xs[i] == g[i - 1];
        }
      }
    }
  }

  lemma {:induction false} CountInAbsent(g: seq<Group>, category: string)
    requires category !in GroupCategories(g)
    ensures CountIn(g, category) == 0
  {
    if g != [] {
      assert g == [g[0]] + g[1..];
      GroupCategoriesCons(g[0], g[1..]);
      CountInAbsent(g[1..], category);
    }
  }

  /** In a list of distinct groups, CountIn is the count of the group of that category. */
  lemma {:induction false} CountInDistinct(g: seq<Group>, i: int)
    requires DistinctCategories(g)
    requires 0 <= i < |g|
    ensures CountIn(g, g[i].behaviour) == g[i].count
  {
    assert g == [g[0]] + g[1..];
    DistinctCons(g[0], g[1..]);
    if i == 0 {
      CountInAbsent(g[1..], g[0].behaviour);
    } else {
      assert g[1..][i - 1] == g[i];
      CountInDistinct(g[1..], i - 1);
    }
  }

  /** Counts one more row of the category: its group grows by one, or a new group of one is added. */
  function Bump(g: seq<Group>, category: string): seq<Group>
  {
    if g == [] then [Group(category, 1)]
    else if g[0].behaviour == category then [g[0].(count := g[0].count + 1)] + g[1..]
    else [g[0]] + Bump(g[1..], category)
  }

  /** Bump adds the category to the categories and keeps them distinct. */
  lemma {:induction false} BumpCategories(g: seq<Group>, category: string)
    ensures GroupCategories(Bump(g, category)) == GroupCategories(g) + {category}
    ensures DistinctCategories(g) ==> DistinctCategories(Bump(g, category))
  {
    var r := Bump(g, category);
    if g == [] {
      assert r == [r[0]] + [];
      GroupCategoriesCons(r[0], []);
    } else {
      assert g == [g[0]] + g[1..];
      GroupCategoriesCons(g[0], g[1..]);
      DistinctCons(g[0], g[1..]);
      if g[0].behaviour == category {
        GroupCategoriesCons(r[0], g[1..]);
        DistinctCons(r[0], g[1..]);
      } else {
        BumpCategories(g[1..], category);
        GroupCategoriesCons(g[0], Bump(g[1..], category));
        DistinctCons(g[0], Bump(g[1..], category));
      }
    }
  }

  /** Bump counts exactly one more row, of its category, and keeps every count positive. */
  lemma {:induction false} BumpCounts(g: seq<Group>, category: string)
    ensures forall k :: CountIn(Bump(g, category), k) == CountIn(g, k) + (if k == category then 1 else 0)
    ensures SumCounts(Bump(g, category)) == SumCounts(g) + 1
    ensures (forall i :: 0 <= i < |g| ==> g[i].count > 0) ==>
      forall i :: 0 <= i < |Bump(g, category)| ==> Bump(g, category)[i].count > 0
  {
    var r := Bump(g, category);
    if g == [] {
      assert r[1..] == [];
    } else if g[0].behaviour == category {
      assert r[1..] == g[1..];
    } else {
      BumpCounts(g[1..], category);
      assert r[1..] == Bump(g[1..], category);
    }
  }

  /**
   * The grouped query over the rows: one group per category that occurs, each
   * with the number of rows of that category. The database leaves the order of
   * the groups open; nothing below depends on it.
   */
  function GroupByCategory(rows: seq<Behaviour>): (r: seq<Group>)
    ensures DistinctCategories(r)
    ensures GroupCategories(r) == CategoriesOf(rows)
    ensures forall k :: CountIn(r, k) == CountOf(rows, k)
    ensures forall i :: 0 <= i < |r| ==> r[i].count > 0
    ensures SumCounts(r) == |rows|
  {
    if rows == [] then []
    else
      var r := Bump(GroupByCategory(rows[1..]), rows[0].behaviour);
      BumpCategories(GroupByCategory(rows[1..]), rows[0].behaviour);
      BumpCounts(GroupByCategory(rows[1..]), rows[0].behaviour);
      assert CategoriesOf(rows) == CategoriesOf(rows[1..]) + {rows[0].behaviour} by {
        forall k ensures k in CategoriesOf(rows) <==> k in CategoriesOf(rows[1..]) + {rows[0].behaviour} {
          if k in CategoriesOf(rows) {
            var i :| 0 <= i < |rows| && rows[i].behaviour == k;
            if i > 0 { assert rows[1..][i - 1].behaviour == k; }
          }
          if k in CategoriesOf(rows[1..]) {
            var i :| 0 <= i < |rows[1..]| && rows[1..][i].behaviour == k;
            assert rows[i + 1].behaviour == k;
          }
        }
      }
      r
  }

  /** Each group the query returns carries the number of rows of its category. */
  lemma GroupCounts(rows: seq<Behaviour>, i: int)
    requires 0 <= i < |GroupByCategory(rows)|
    ensures GroupByCategory(rows)[i].count == CountOf(rows, GroupByCategory(rows)[i].behaviour)
  {
    CountInDistinct(GroupByCategory(rows), i);
  }

  // ---------------------------------------------------------------------------
  // The dictionary and its zero-fill

  /** `{b: c for b, c in behavior_results}`: a later pair for the same key wins. */
  function ToMap(g: seq<Group>): (m: map<string, nat>)
    ensures m.Keys == GroupCategories(g)
    ensures DistinctCategories(g) ==> forall k :: k in m ==> m[k] == CountIn(g, k)
  {
    if g == [] then map[]
    else
      var rest := ToMap(g[1..]);
      assert g == [g[0]] + g[1..];
      GroupCategoriesCons(g[0], g[1..]);
      DistinctCons(g[0], g[1..]);
      assert DistinctCategories(g) ==> CountIn(g[1..], g[0].behaviour) == 0 by {
        if DistinctCategories(g) {
          CountInAbsent(g[1..], g[0].behaviour);
        }
      }
      if g[0].behaviour in rest then rest else rest[g[0].behaviour := g[0].count]
  }

  /** The `setdefault(k, 0)` loop over the keys: missing keys get 0, present keys keep their value. */
  function SetDefaults(m: map<string, nat>, keys: seq<string>): (r: map<string, nat>)
    ensures r.Keys == m.Keys + set k | k in keys
    ensures forall k :: k in m ==> r[k] == m[k]
    ensures forall k :: k in r && k !in m ==> r[k] == 0
    decreases keys
  {
    if keys == [] then m
    else SetDefaults(if keys[0] in m then m else m[keys[0] := 0], keys[1..])
  }

  /** The `behaviors` dictionary of a stats reply, built from the grouped query. */
  function Breakdown(g: seq<Group>): map<string, nat>
  {
    SetDefaults(ToMap(g), VOCABULARY)
  }

  /**
   * The breakdown of some rows lists every category that occurs and every
   * category of the vocabulary, each with its number of rows (0 for a
   * vocabulary category with none).
   */
  lemma BreakdownCounts(rows: seq<Behaviour>)
    ensures Breakdown(GroupByCategory(rows)).Keys == CategoriesOf(rows) + VocabularySet()
    ensures forall k :: k in Breakdown(GroupByCategory(rows)) ==>
      Breakdown(GroupByCategory(rows))[k] == CountOf(rows, k)
  {
    var b := Breakdown(GroupByCategory(rows));
    forall k | k in b ensures b[k] == CountOf(rows, k) {
      if k !in CategoriesOf(rows) {
        CountOfPositive(rows, k);
      }
    }
  }

  // ---------------------------------------------------------------------------
  // Per-session stats

  /** The behaviour rows of a session (`filter(Behaviour.session_id == session_id)`). */
  function SessionRows(bs: seq<Behaviour>, sessionId: Id): seq<Behaviour>
  {
    if bs == [] then []
    else (if bs[0].sessionId == sessionId then [bs[0]] else []) + SessionRows(bs[1..], sessionId)
  }

  /**
   * A session's rows are exactly its behaviour rows, each kept as often as the
   * table holds it, and no other row.
   */
  lemma {:induction false} SessionRowsMultiset(bs: seq<Behaviour>, sessionId: Id)
    ensures forall b :: multiset(SessionRows(bs, sessionId))[b] == if b.sessionId == sessionId then multiset(bs)[b] else 0
    ensures forall b :: b in SessionRows(bs, sessionId) <==> b in bs && b.sessionId == sessionId
  {
    if bs != [] {
      SessionRowsMultiset(bs[1..], sessionId);
      assert bs == [bs[0]] + bs[1..];
    }
  }

  lemma {:induction false} SessionRowsAppend(bs: seq<Behaviour>, b: Behaviour, sessionId: Id)
    ensures SessionRows(bs + [b], sessionId) == SessionRows(bs, sessionId) + (if b.sessionId == sessionId then [b] else [])
  {
    if bs == [] {
      assert bs + [b] == [b] && [b][1..] == [];
    } else {
      var head: seq<Behaviour> := if bs[0].sessionId == sessionId then [bs[0]] else [];
      assert (bs + [b])[0] == bs[0] && (bs + [b])[1..] == bs[1..] + [b];
      SessionRowsAppend(bs[1..], b, sessionId);
      assert SessionRows(bs + [b], sessionId) == head + SessionRows(bs[1..] + [b], sessionId);
      assert SessionRows(bs, sessionId) == head + SessionRows(bs[1..], sessionId);
    }
  }

  /**
   * `get_session_stats`: 404 for an unknown session; 400 when the session has
   * no start time to format; otherwise 200 with the session's classroom, its
   * start time and its padded per-category counts.
   */
  function SessionStatsOf(ss: seq<Session>, bs: seq<Behaviour>, sessionId: Id): (r: Response)
    ensures r.code == 404 <==> !SessionExists(ss, sessionId)
    ensures r.code == 404 ==> r.body == Message(SESSION_NOT_FOUND_MSG)
    ensures r.code == 400 <==> (SessionExists(ss, sessionId) && ss[Lookup(ss, sessionId).value].classStartedAt.None?)
    ensures r.code == 400 ==> r.body == Message(NO_START_TIME_MSG)
    ensures r.code in {200, 400, 404}
    ensures SessionExists(ss, sessionId) && ss[Lookup(ss, sessionId).value].classStartedAt.Some? ==> r.code == 200
    ensures r.code == 200 ==>
      && r.body.SessionReport?
      && SessionExists(ss, sessionId)
      && var s := ss[Lookup(ss, sessionId).value];
      && r.body.stats.sessionId == sessionId
      && r.body.stats.classId == s.classId
      && s.classStartedAt == Some(r.body.stats.startTime)
      && r.body.stats.behaviors.Keys == CategoriesOf(SessionRows(bs, sessionId)) + VocabularySet()
      && forall k :: k in r.body.stats.behaviors ==>
           r.body.stats.behaviors[k] == CountOf(SessionRows(bs, sessionId), k)
  {
    match Lookup(ss, sessionId)
    case None => Response(404, Message(SESSION_NOT_FOUND_MSG))
    case Some(i) =>
      match ss[i].classStartedAt
      case None => Response(400, Message(NO_START_TIME_MSG))
      case Some(start) =>
        var rows := SessionRows(bs, sessionId);
        BreakdownCounts(rows);
        Response(200, SessionReport(SessionStats(sessionId, ss[i].classId, start, Breakdown(GroupByCategory(rows)))))
  }

  // ---------------------------------------------------------------------------
  // Per-classroom stats

  /** The classroom's sessions (`filter(Session.class_id == class_id).all()`), in table order. */
  function ClassSessions(ss: seq<Session>, classId: Id): (r: seq<Session>)
    ensures forall s :: s in r <==> s in ss && s.classId == classId
    ensures forall s :: multiset(r)[s] == if s.classId == classId then multiset(ss)[s] else 0
    ensures |r| <= |ss|
  {
    if ss == [] then []
    else
      assert ss == [ss[0]] + ss[1..];
      (if ss[0].classId == classId then [ss[0]] else []) + ClassSessions(ss[1..], classId)
  }

  function Ids(ss: seq<Session>): (r: seq<Id>)
    ensures |r| == |ss| && forall i :: 0 <= i < |ss| ==> r[i] == ss[i].id
  {
    if ss == [] then [] else [ss[0].id] + Ids(ss[1..])
  }

  /** Some row has this primary key and belongs to the classroom. */
  predicate BelongsTo(ss: seq<Session>, sessionId: Id, classId: Id)
  {
    exists i :: 0 <= i < |ss| && ss[i].id == sessionId && ss[i].classId == classId
  }

  /**
   * The rows of the inner join of one behaviour row with the classroom's
   * sessions: copies of the row, at least one exactly when the session it
   * refers to belongs to the classroom.
   */
  function JoinOne(ss: seq<Session>, b: Behaviour, classId: Id): (r: seq<Behaviour>)
    ensures forall x :: x in r ==> x == b
    ensures r != [] <==> BelongsTo(ss, b.sessionId, classId)
  {
    if ss == [] then []
    else (if ss[0].id == b.sessionId && ss[0].classId == classId then [b] else []) + JoinOne(ss[1..], b, classId)
  }

  /**
   * `Behaviour JOIN Session ... WHERE Session.class_id == class_id`: each
   * behaviour row once per session of the classroom it refers to.
   */
  function JoinRows(ss: seq<Session>, bs: seq<Behaviour>, classId: Id): (r: seq<Behaviour>)
    ensures forall x :: x in r <==> x in bs && BelongsTo(ss, x.sessionId, classId)
  {
    if bs == [] then []
    else
      var head := JoinOne(ss, bs[0], classId);
      var rest := JoinRows(ss, bs[1..], classId);
      assert forall x :: x in head + rest <==> x in bs && BelongsTo(ss, x.sessionId, classId) by {
        forall x
          ensures x in head + rest <==> x in bs && BelongsTo(ss, x.sessionId, classId)
        {
          assert bs == [bs[0]] + bs[1..];
          if x == bs[0] && BelongsTo(ss, x.sessionId, classId) {
            assert head[0] in head;
          }
        }
      }
      head + rest
  }

  /** With a unique primary key the join yields a row at most once. */
  lemma {:induction false} JoinOneUnique(ss: seq<Session>, b: Behaviour, classId: Id)
    requires UniqueIds(ss)
    ensures JoinOne(ss, b, classId) == if BelongsTo(ss, b.sessionId, classId) then [b] else []
  {
    if ss != [] {
      JoinOneUnique(ss[1..], b, classId);
      if ss[0].id == b.sessionId && ss[0].classId == classId {
        forall j | 0 <= j < |ss[1..]|
          ensures ss[1..][j].id != b.sessionId
        {
          assert ss[1..][j] == ss[j + 1];
        }
      } else if BelongsTo(ss, b.sessionId, classId) {
        var j :| 0 <= j < |ss| && ss[j].id == b.sessionId && ss[j].classId == classId;
        assert ss[1..][j - 1] == ss[j];
      }
    }
  }

  /**
   * With a unique primary key the join keeps each behaviour row of the
   * classroom's sessions exactly as often as the table holds it, and no other.
   */
  lemma {:induction false} JoinRowsUnique(ss: seq<Session>, bs: seq<Behaviour>, classId: Id)
    requires UniqueIds(ss)
    ensures forall x :: multiset(JoinRows(ss, bs, classId))[x] ==
                        if BelongsTo(ss, x.sessionId, classId) then multiset(bs)[x] else 0
  {
    if bs != [] {
      JoinRowsUnique(ss, bs[1..], classId);
      JoinOneUnique(ss, bs[0], classId);
      assert bs == [bs[0]] + bs[1..];
    }
  }

  /**
   * `get_classroom_sessions_stats`: 404 for an unknown classroom; otherwise
   * 200 with the number and ids of its sessions, the total number of its
   * behaviour rows, and its padded per-category counts.
   */
  function ClassroomSessionsStats(classrooms: set<Id>, ss: seq<Session>, bs: seq<Behaviour>, classId: Id): (r: Response)
    ensures r == Response(404, Message(CLASSROOM_NOT_FOUND_MSG)) <==> classId !in classrooms
    ensures classId in classrooms ==>
      && r.code == 200
      && r.body.ClassroomReport?
      && var st := r.body.classStats;
      && st.classId == classId
      && st.sessionCount == |ClassSessions(ss, classId)|
      && st.sessionIds == Ids(ClassSessions(ss, classId))
      && st.totalBehaviors == |JoinRows(ss, bs, classId)|
      && st.behaviors.Keys == CategoriesOf(JoinRows(ss, bs, classId)) + VocabularySet()
      && forall k :: k in st.behaviors ==> st.behaviors[k] == CountOf(JoinRows(ss, bs, classId), k)
  {
    if classId !in classrooms then Response(404, Message(CLASSROOM_NOT_FOUND_MSG))
    else
      var sessions := ClassSessions(ss, classId);
      var rows := JoinRows(ss, bs, classId);
      var results := GroupByCategory(rows);
      BreakdownCounts(rows);
      Response(200, ClassroomReport(ClassroomStats(classId, |sessions|, Ids(sessions), SumCounts(results), Breakdown(results))))
  }

  /** Sum over the sessions of each one's number of rows of the category. */
  function SumOverSessions(cs: seq<Session>, bs: seq<Behaviour>, category: string): nat
  {
    if cs == [] then 0 else CountOf(SessionRows(bs, cs[0].id), category) + SumOverSessions(cs[1..], bs, category)
  }

  /** Sum over the sessions of each one's number of rows. */
  function RowsOverSessions(cs: seq<Session>, bs: seq<Behaviour>): nat
  {
    if cs == [] then 0 else |SessionRows(bs, cs[0].id)| + RowsOverSessions(cs[1..], bs)
  }

  lemma {:induction false} SumOverNoRows(cs: seq<Session>, category: string)
    ensures SumOverSessions(cs, [], category) == 0 && RowsOverSessions(cs, []) == 0
  {
    if cs != [] {
      SumOverNoRows(cs[1..], category);
    }
  }

  /** One more behaviour row adds its join rows with the classroom to the sums over the classroom's sessions. */
  lemma {:induction false} JoinOneStep(ss: seq<Session>, b: Behaviour, rest: seq<Behaviour>, classId: Id, category: string)
    ensures CountOf(JoinOne(ss, b, classId), category) + SumOverSessions(ClassSessions(ss, classId), rest, category)
         == SumOverSessions(ClassSessions(ss, classId), [b] + rest, category)
    ensures |JoinOne(ss, b, classId)| + RowsOverSessions(ClassSessions(ss, classId), rest)
         == RowsOverSessions(ClassSessions(ss, classId), [b] + rest)
  {
    if ss != [] {
      JoinOneStep(ss[1..], b, rest, classId, category);
      var hit: seq<Behaviour> := if ss[0].id == b.sessionId && ss[0].classId == classId then [b] else [];
      CountOfConcat(hit, JoinOne(ss[1..], b, classId), category);
      assert ([b] + rest)[1..] == rest;
      if ss[0].classId == classId {
        var cs := ClassSessions(ss, classId);
        assert cs[0] == ss[0] && cs[1..] == ClassSessions(ss[1..], classId);
        var own: seq<Behaviour> := if b.sessionId == ss[0].id then [b] else [];
        assert SessionRows([b] + rest, ss[0].id) == own + SessionRows(rest, ss[0].id);
        CountOfConcat(own, SessionRows(rest, ss[0].id), category);
      } else {
        assert ClassSessions(ss, classId) == ClassSessions(ss[1..], classId);
      }
    } else {
      SumOverNoRows([], category);
    }
  }

  /**
   * The classroom's count of a category is the sum of its sessions' counts of
   * that category, and its total is the sum of its sessions' row counts.
   */
  lemma {:induction false} ClassCountIsSumOfSessionCounts(ss: seq<Session>, bs: seq<Behaviour>, classId: Id, category: string)
    ensures CountOf(JoinRows(ss, bs, classId), category) == SumOverSessions(ClassSessions(ss, classId), bs, category)
    ensures |JoinRows(ss, bs, classId)| == RowsOverSessions(ClassSessions(ss, classId), bs)
  {
    if bs == [] {
      SumOverNoRows(ClassSessions(ss, classId), category);
    } else {
      ClassCountIsSumOfSessionCounts(ss, bs[1..], classId, category);
      CountOfConcat(JoinOne(ss, bs[0], classId), JoinRows(ss, bs[1..], classId), category);
      assert bs == [bs[0]] + bs[1..];
      JoinOneStep(ss, bs[0], bs[1..], classId, category);
    }
  }

  // ---------------------------------------------------------------------------
  // Per-session stats scoped to a classroom

  /**
   * `get_classroom_session_stats`: 404 unless the session belongs to the
   * classroom; otherwise exactly the per-session stats.
   */
  function ClassroomSessionStats(ss: seq<Session>, bs: seq<Behaviour>, classId: Id, sessionId: Id): (r: Response)
    ensures !BelongsTo(ss, sessionId, classId) ==> r == Response(404, Message(NOT_IN_CLASSROOM_MSG))
    ensures BelongsTo(ss, sessionId, classId) ==> r == SessionStatsOf(ss, bs, sessionId) && r.code != 404
  {
    if BelongsTo(ss, sessionId, classId) then SessionStatsOf(ss, bs, sessionId)
    else Response(404, Message(NOT_IN_CLASSROOM_MSG))
  }

  /**
   * A session that exists under another classroom is not found through this
   * classroom, although its unscoped stats are not a 404.
   */
  lemma ForeignSessionNotFound(ss: seq<Session>, bs: seq<Behaviour>, classId: Id, i: int)
    requires UniqueIds(ss)
    requires 0 <= i < |ss| && ss[i].classId != classId
    ensures ClassroomSessionStats(ss, bs, classId, ss[i].id) == Response(404, Message(NOT_IN_CLASSROOM_MSG))
    ensures SessionStatsOf(ss, bs, ss[i].id).code != 404
  {
  }
}
