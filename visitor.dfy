/** The `Visitor` class: an anonymous identity owning a list of current
    sessions and an append-only list of past ones, and the `ExtendLife`
    helper that sweeps a visitor and then extends one of its sessions.
    The lists hold Session objects; `ToObject` is the plain record a visitor
    serialises to, and the contracts are stated on it. */
module Visitors {
  import opened Seqs
  import opened SessionSpec
  import opened Sessions

  class Visitor {
    var visitorId: string
    var currentSessions: seq<Session>
    var sessionHistories: seq<Session>

    /** No Session object is held twice, neither within one list nor in both:
        a session is owned by exactly one place, so updating it in place
        changes exactly one entry of the visitor. */
    ghost predicate Valid()
      reads this
    {
      Distinct(currentSessions + sessionHistories)
    }

    /** The plain object with the visitor's id and both session lists. */
    function ToObject(): VisitorRecord
      reads this, currentSessions, sessionHistories
    {
      VisitorRecord(visitorId, ToObjects(currentSessions), ToObjects(sessionHistories))
    }

    /** A visitor with no sessions yet. `visitorId` stands for the random
        id the visitor draws for itself. */
    constructor (visitorId: string)
      ensures Valid()
      ensures ToObject() == VisitorRecord(visitorId, [], [])
    {
      this.visitorId := visitorId;
      this.currentSessions := [];
      this.sessionHistories := [];
    }

    /** Appends a new session, started at `now`, to the current sessions and
        returns its id. `sessionId` stands for the random id the new session
        draws; when it differs from every id the visitor has issued, ids stay unique. */
    method CreateNewSession(sessionId: string, now: int) returns (id: string)
      requires Valid()
      modifies this
      ensures Valid()
      ensures id == sessionId
      ensures ToObject() == old(ToObject()).(currentSessions :=
        old(ToObject()).currentSessions + [SessionRecord(sessionId, visitorId, now, now)])
      ensures |currentSessions| == |old(currentSessions)| + 1
      ensures currentSessions[..|currentSessions| - 1] == old(currentSessions)
      ensures fresh(currentSessions[|currentSessions| - 1])
      ensures sessionHistories == old(sessionHistories) && visitorId == old(visitorId)
      ensures old(UniqueIds(ToObject())) && sessionId !in old(IdsOf(AllSessions(ToObject()))) ==>
        UniqueIds(ToObject())
    {
      ghost var before := ToObject();
      var session := new Session(sessionId, visitorId, now);
      currentSessions := currentSessions + [session];
      assert currentSessions[..|currentSessions| - 1] == old(currentSessions);
      DistinctInsert(old(currentSessions), session, sessionHistories);
      ToObjectsSnoc(old(currentSessions), session);
      id := session.sessionId;
      if UniqueIds(before) && sessionId !in IdsOf(AllSessions(before)) {
        UniqueIdsAfterCreate(before, SessionRecord(sessionId, visitorId, now, now));
      }
    }

    /** Scans the current sessions in order and touches the first one whose id
        is `sessionId`; reports whether there was one. The past sessions, and
        on a miss the whole visitor, are left unchanged. */
    method ExtendSessionLife(sessionId: string, now: int) returns (found: bool)
      requires Valid()
      modifies currentSessions
      ensures Valid()
      ensures found <==> sessionId in IdsOf(old(ToObject()).currentSessions)
      ensures ToObject() == old(ToObject()).(currentSessions :=
        Extended(old(ToObject()).currentSessions, sessionId, now))
      ensures !found ==> ToObject() == old(ToObject())
      ensures currentSessions == old(currentSessions) && sessionHistories == old(sessionHistories)
      ensures old(UniqueIds(ToObject())) ==> UniqueIds(ToObject())
    {
      ghost var before := ToObject();
      var i := 0;
      while i < |currentSessions|
        invariant 0 <= i <= |currentSessions|
        invariant forall k :: 0 <= k < i ==> before.currentSessions[k].sessionId != sessionId
      {
        if currentSessions[i].sessionId == sessionId {
          assert IndexOf(before.currentSessions, sessionId) == i;
          TouchSession(i, now);
          assert ToObject() == before.(currentSessions := Extended(before.currentSessions, sessionId, now)) by {
            ExtendedIsPointUpdate(before.currentSessions, sessionId, now);
          }
          assert sessionId in IdsOf(before.currentSessions);
          if UniqueIds(before) {
            UniqueIdsAfterExtend(before, sessionId, now);
          }
          found := true;
          return;
        }
        i := i + 1;
      }
      assert sessionId !in IdsOf(before.currentSessions);
      ExtendedFacts(before.currentSessions, sessionId, now);
      found := false;
    }

    /** The step of ExtendSessionLife that calls `ExtendLife` on the current
        session at position `i`: only that session's plain object changes. */
    method TouchSession(i: nat, now: int)
      requires Valid()
      requires i < |currentSessions|
      modifies currentSessions[i]
      ensures ToObject() == old(ToObject()).(currentSessions :=
        old(ToObject()).currentSessions[i := Touched(old(ToObject()).currentSessions[i], now)])
    {
      ghost var before := ToObject();
      var session := currentSessions[i];
      session.ExtendLife(now);
      ghost var all := currentSessions + sessionHistories;
      forall k | 0 <= k < |currentSessions| && k != i
        ensures currentSessions[k].ToObject() == before.currentSessions[k]
      {
        assert all[k] != all[i];
      }
      forall k | 0 <= k < |sessionHistories|
        ensures sessionHistories[k].ToObject() == before.sessionHistories[k]
      {
        assert all[|currentSessions| + k] != all[i];
      }
      assert ToObjects(currentSessions) == before.currentSessions[i := Touched(before.currentSessions[i], now)];
      assert ToObjects(sessionHistories) == before.sessionHistories;
    }

    /** Moves every current session that is too old at `now` to the end of the
        history, in encounter order, and keeps the others as the current list,
        in their order. Sessions are moved, not copied, and none of them changes. */
    method ExpireAllOutdatedSessions(now: int)
      requires Valid()
      modifies this
      ensures Valid()
      ensures ToObject() == old(ToObject()).(
        currentSessions := Kept(old(ToObject()).currentSessions, now),
        sessionHistories := old(ToObject()).sessionHistories + Expired(old(ToObject()).currentSessions, now))
      ensures multiset(currentSessions) + multiset(sessionHistories) ==
        old(multiset(currentSessions) + multiset(sessionHistories))
      ensures |currentSessions| + |sessionHistories| == old(|currentSessions| + |sessionHistories|)
      ensures forall s :: s in currentSessions ==> s in old(currentSessions)
      ensures forall k :: 0 <= k < |currentSessions| ==> !currentSessions[k].IsTooOld(now)
      ensures visitorId == old(visitorId)
      ensures old(UniqueIds(ToObject())) ==> UniqueIds(ToObject())
    {
      var activeSessions, expired := PartitionByAge(now);
      SweepOutcome(visitorId, currentSessions, sessionHistories, activeSessions, expired, now);
      ghost var after := VisitorRecord(visitorId, ToObjects(activeSessions), ToObjects(sessionHistories + expired));
      assert after == old(ToObject()).(
        currentSessions := Kept(old(ToObject()).currentSessions, now),
        sessionHistories := old(ToObject()).sessionHistories + Expired(old(ToObject()).currentSessions, now));
      SetSessionLists(activeSessions, sessionHistories + expired);
    }

    /** The closing assignment of the sweep: installs the two new lists and
        changes no session object. */
    method SetSessionLists(current: seq<Session>, histories: seq<Session>)
      modifies this
      ensures currentSessions == current && sessionHistories == histories && visitorId == old(visitorId)
      ensures ToObject() == VisitorRecord(visitorId, old(ToObjects(current)), old(ToObjects(histories)))
      ensures forall k :: 0 <= k < |current| ==> current[k].ToObject() == old(current[k].ToObject())
    {
      currentSessions, sessionHistories := current, histories;
    }

    /** The loop of ExpireAllOutdatedSessions: walks the current sessions in
        order and sends each one either to the sessions that stay active or,
        when it is too old at `now`, to the ones that expire. Changes nothing. */
    method PartitionByAge(now: int) returns (activeSessions: seq<Session>, expired: seq<Session>)
      ensures ToObjects(activeSessions) == Kept(ToObjects(currentSessions), now)
      ensures ToObjects(expired) == Expired(ToObjects(currentSessions), now)
      ensures multiset(activeSessions) + multiset(expired) == multiset(currentSessions)
    {
      activeSessions, expired := [], [];
      var i := 0;
      while i < |currentSessions|
        invariant 0 <= i <= |currentSessions|
        invariant Partitioned(currentSessions, i, activeSessions, expired, now)
      {
        var session := currentSessions[i];
        PartitionStep(currentSessions, i, activeSessions, expired, now);
        if session.IsTooOld(now) {
          expired := expired + [session];
        } else {
          activeSessions := activeSessions + [session];
        }
        i := i + 1;
      }
      assert ToObjects(currentSessions)[..i] == ToObjects(currentSessions);
      assert currentSessions[..i] == currentSessions;
    }

    /** A new visitor object, with new session objects, carrying exactly the
        fields of `v`. */
    static method FromObject(v: VisitorRecord) returns (visitor: Visitor)
      ensures fresh(visitor) && visitor.Valid()
      ensures visitor.ToObject() == v
      ensures forall s :: s in visitor.currentSessions + visitor.sessionHistories ==> fresh(s)
    {
      // The id the constructor takes is overwritten at once.
      visitor := new Visitor("");
      visitor.visitorId := v.visitorId;
      var current := FromObjects(v.currentSessions);
      var histories := FromObjects(v.sessionHistories);
      visitor.currentSessions := current;
      visitor.sessionHistories := histories;
      DistinctConcat(current, histories);
    }
  }

  /** The first `i` of `sessions` are split between `active` and `expired`
      as the sweep splits their plain objects. */
  ghost predicate Partitioned(sessions: seq<Session>, i: nat, active: seq<Session>, expired: seq<Session>, now: int)
    requires i <= |sessions|
    reads sessions, active, expired
  {
    ToObjects(active) == Kept(ToObjects(sessions)[..i], now) &&
    ToObjects(expired) == Expired(ToObjects(sessions)[..i], now) &&
    multiset(active) + multiset(expired) == multiset(sessions[..i])
  }

  /** One step of the partition loop: session `i` joins the expired ones when it
      is too old at `now` and the active ones otherwise. */
  lemma PartitionStep(sessions: seq<Session>, i: nat, active: seq<Session>, expired: seq<Session>, now: int)
    requires i < |sessions|
    requires Partitioned(sessions, i, active, expired, now)
    ensures var s := sessions[i];
      if s.IsTooOld(now) then Partitioned(sessions, i + 1, active, expired + [s], now)
      else Partitioned(sessions, i + 1, active + [s], expired, now)
  {
    var s := sessions[i];
    var cur := ToObjects(sessions);
    SweepStep(cur, i, now);
    assert sessions[..i + 1] == sessions[..i] + [s];
    if s.IsTooOld(now) {
      ToObjectsSnoc(expired, s);
    } else {
      ToObjectsSnoc(active, s);
    }
  }

  /** Splitting the current sessions into kept and moved ones as the sweep
      splits their plain objects, and appending the moved ones to the history,
      keeps every object exactly once, leaves only fresh sessions current and
      keeps session ids unique. */
  lemma SweepOutcome(visitorId: string, sessions: seq<Session>, histories: seq<Session>,
                     kept: seq<Session>, moved: seq<Session>, now: int)
    requires Distinct(sessions + histories)
    requires ToObjects(kept) == Kept(ToObjects(sessions), now)
    requires ToObjects(moved) == Expired(ToObjects(sessions), now)
    requires multiset(kept) + multiset(moved) == multiset(sessions)
    ensures Distinct(kept + (histories + moved))
    ensures multiset(kept) + multiset(histories + moved) == multiset(sessions) + multiset(histories)
    ensures |kept| + |histories + moved| == |sessions| + |histories|
    ensures forall s :: s in kept ==> s in sessions
    ensures ToObjects(histories + moved) == ToObjects(histories) + Expired(ToObjects(sessions), now)
    ensures forall k :: 0 <= k < |kept| ==> !kept[k].IsTooOld(now)
    ensures var before := VisitorRecord(visitorId, ToObjects(sessions), ToObjects(histories));
      UniqueIds(before) ==> UniqueIds(VisitorRecord(visitorId, ToObjects(kept), ToObjects(histories + moved)))
  {
    assert multiset(kept + (histories + moved)) == multiset(sessions + histories);
    DistinctPermutation(sessions + histories, kept + (histories + moved));
    assert |multiset(kept + (histories + moved))| == |multiset(sessions + histories)|;
    forall s | s in kept ensures s in sessions {
      assert multiset(kept)[s] > 0;
      assert multiset(sessions)[s] > 0;
    }
    ToObjectsAppend(histories, moved);
    KeptAreFresh(ToObjects(sessions), now);
    var before := VisitorRecord(visitorId, ToObjects(sessions), ToObjects(histories));
    if UniqueIds(before) {
      UniqueIdsAfterSweep(before, now);
    }
  }

  /** Creating a session with an id the visitor has never issued keeps ids unique. */
  lemma UniqueIdsAfterCreate(v: VisitorRecord, s: SessionRecord)
    requires UniqueIds(v)
    requires s.sessionId !in IdsOf(AllSessions(v))
    ensures UniqueIds(v.(currentSessions := v.currentSessions + [s]))
  {
    var cur, hist := IdsOf(v.currentSessions), IdsOf(v.sessionHistories);
    assert IdsOf(AllSessions(v)) == cur + hist;
    assert IdsOf(AllSessions(v.(currentSessions := v.currentSessions + [s]))) == cur + [s.sessionId] + hist;
    DistinctInsert(cur, s.sessionId, hist);
  }

  /** Extending a session changes no id, so it keeps ids unique. */
  lemma UniqueIdsAfterExtend(v: VisitorRecord, id: string, now: int)
    requires UniqueIds(v)
    ensures UniqueIds(v.(currentSessions := Extended(v.currentSessions, id, now)))
  {
    ExtendedFacts(v.currentSessions, id, now);
    IdsOfAppend(v.currentSessions, v.sessionHistories);
    IdsOfAppend(Extended(v.currentSessions, id, now), v.sessionHistories);
  }

  /** A sweep only moves sessions between the lists, so it keeps ids unique. */
  lemma UniqueIdsAfterSweep(v: VisitorRecord, now: int)
    requires UniqueIds(v)
    ensures UniqueIds(v.(currentSessions := Kept(v.currentSessions, now),
                         sessionHistories := v.sessionHistories + Expired(v.currentSessions, now)))
  {
    var cur, hist := v.currentSessions, v.sessionHistories;
    var kept, expired := Kept(cur, now), Expired(cur, now);
    var after := v.(currentSessions := kept, sessionHistories := hist + expired);
    assert AllSessions(v) == cur + hist;
    assert AllSessions(after) == kept + (hist + expired);
    SweepMovesIds(cur, hist, now);
    DistinctPermutation(IdsOf(cur + hist), IdsOf(kept + (hist + expired)));
  }

  /** The ids of the lists after a sweep are those before it, rearranged. */
  lemma SweepMovesIds(cur: seq<SessionRecord>, hist: seq<SessionRecord>, now: int)
    ensures multiset(IdsOf(Kept(cur, now) + (hist + Expired(cur, now)))) == multiset(IdsOf(cur + hist))
  {
    var kept, expired := Kept(cur, now), Expired(cur, now);
    SweepConservesIds(cur, now);
    IdsOfAppend(cur, hist);
    IdsOfAppend(hist, expired);
    IdsOfAppend(kept, hist + expired);
    var mk, mh, me := multiset(IdsOf(kept)), multiset(IdsOf(hist)), multiset(IdsOf(expired));
    assert multiset(IdsOf(kept + (hist + expired))) == mk + (mh + me);
    assert multiset(IdsOf(cur + hist)) == (mk + me) + mh;
  }

  /** The request-time helper: first sweep stale sessions into the history,
      then try to extend the session `sessionId`. It succeeds exactly when
      that id belonged to a current session that was not too old at `now`,
      and then that session is fresh at `now`. */
  method ExtendLife(visitor: Visitor, sessionId: string, now: int) returns (result: bool)
    requires visitor.Valid()
    modifies visitor, set s | s in visitor.currentSessions
    ensures visitor.Valid()
    ensures var before := old(visitor.ToObject());
      visitor.ToObject() == before.(
        currentSessions := Extended(Kept(before.currentSessions, now), sessionId, now),
        sessionHistories := before.sessionHistories + Expired(before.currentSessions, now))
    ensures var cur := old(visitor.ToObject()).currentSessions;
      result <==> exists i :: 0 <= i < |cur| && cur[i].sessionId == sessionId && !IsTooOld(cur[i], now)
    ensures var cur := visitor.ToObject().currentSessions; var k := IndexOf(cur, sessionId);
      result ==> k < |cur| && cur[k].lastActivity == now && !IsTooOld(cur[k], now)
    ensures old(UniqueIds(visitor.ToObject())) ==> UniqueIds(visitor.ToObject())
  {
    ghost var before := visitor.ToObject();
    visitor.ExpireAllOutdatedSessions(now);
    ghost var swept := visitor.ToObject();
    assert forall s :: s in visitor.currentSessions ==> s in old(visitor.currentSessions);
    result := visitor.ExtendSessionLife(sessionId, now);
    SweepKeepsExactlyFreshIds(before.currentSessions, sessionId, now);
    ExtendedFacts(swept.currentSessions, sessionId, now);
  }
}
