/** The value level of the session model: the plain objects that
    `Session.toObject` and `Visitor.toObject` produce, the freshness policy,
    and the reference definitions that the sweep and the extension scan of a
    Visitor are proved against. */
module SessionSpec {
  import opened Seqs

  /** Seconds of inactivity after which a session counts as stale. */
  const FRESH_TOLERANCE: int := 120

  /** The plain object shape of a Session (`ISession`). */
  datatype SessionRecord = SessionRecord(sessionId: string, visitorId: string, startAt: int, lastActivity: int)

  /** The plain object shape of a Visitor: its id and both session lists, in order. */
  datatype VisitorRecord = VisitorRecord(
    visitorId: string,
    currentSessions: seq<SessionRecord>,
    sessionHistories: seq<SessionRecord>)

  /** The staleness test of `Session.isTooOld`, with the clock reading passed in. */
  predicate IsTooOld(s: SessionRecord, now: int) {
    now - s.lastActivity > FRESH_TOLERANCE
  }

  /** A session aged exactly the tolerance is still fresh; one second more and it is stale. */
  lemma ToleranceBoundary(s: SessionRecord, now: int)
    ensures now - s.lastActivity <= FRESH_TOLERANCE <==> !IsTooOld(s, now)
    ensures now == s.lastActivity + 120 ==> !IsTooOld(s, now)
    ensures now == s.lastActivity + 121 ==> IsTooOld(s, now)
  {
  }

  /** A stale session stays stale as the clock moves forward. */
  lemma StalenessIsMonotone(s: SessionRecord, now: int, later: int)
    requires now <= later
    requires IsTooOld(s, now)
    ensures IsTooOld(s, later)
  {
  }

  /** The effect of `Session.extendLife` on the plain record. */
  function Touched(s: SessionRecord, now: int): SessionRecord {
    s.(lastActivity := now)
  }

  /** A touched session keeps its identity fields, is fresh at the touching time,
      and keeps `startAt <= lastActivity` when the clock has not gone backwards. */
  lemma TouchedProperties(s: SessionRecord, now: int)
    ensures Touched(s, now).sessionId == s.sessionId
    ensures Touched(s, now).visitorId == s.visitorId
    ensures Touched(s, now).startAt == s.startAt
    ensures Touched(s, now).lastActivity == now
    ensures !IsTooOld(Touched(s, now), now)
    ensures s.startAt <= s.lastActivity <= now ==> Touched(s, now).startAt <= Touched(s, now).lastActivity
  {
  }

  /** The session ids of `ss`, in order. */
  function IdsOf(ss: seq<SessionRecord>): (ids: seq<string>)
    ensures |ids| == |ss|
    ensures forall k :: 0 <= k < |ss| ==> ids[k] == ss[k].sessionId
  {
    seq(|ss|, k requires 0 <= k < |ss| => ss[k].sessionId)
  }

  /** Listing the ids of two lists one after the other. */
  lemma IdsOfAppend(a: seq<SessionRecord>, b: seq<SessionRecord>)
    ensures IdsOf(a + b) == IdsOf(a) + IdsOf(b)
  {
  }

  /** Every session of a visitor, current ones first. */
  function AllSessions(v: VisitorRecord): seq<SessionRecord> {
    v.currentSessions + v.sessionHistories
  }

  /** No session id occurs twice among a visitor's current and past sessions. */
  predicate UniqueIds(v: VisitorRecord) {
    Distinct(IdsOf(AllSessions(v)))
  }

  // ----- The extension scan -----

  /** Position of the first session with id `id`, or `|ss|` when there is none. */
  function IndexOf(ss: seq<SessionRecord>, id: string): (k: nat)
    ensures k <= |ss|
    ensures k < |ss| ==> ss[k].sessionId == id
    ensures forall j :: 0 <= j < k ==> ss[j].sessionId != id
    ensures k < |ss| <==> id in IdsOf(ss)
  {
    if ss == [] then 0
    else if ss[0].sessionId == id then 0
    else 1 + IndexOf(ss[1..], id)
  }

  /** The first position of an id depends only on the ids of the list. */
  lemma {:induction false} IndexOfDependsOnIds(a: seq<SessionRecord>, b: seq<SessionRecord>, id: string)
    requires IdsOf(a) == IdsOf(b)
    ensures IndexOf(a, id) == IndexOf(b, id)
  {
    if a != [] {
      assert a[0].sessionId == IdsOf(a)[0] == IdsOf(b)[0] == b[0].sessionId;
      assert IdsOf(a[1..]) == IdsOf(a)[1..] == IdsOf(b)[1..] == IdsOf(b[1..]);
      IndexOfDependsOnIds(a[1..], b[1..], id);
    }
  }

  /** The list after the scan of `extendSessionLife`: the first session with id `id`
      is touched, and the scan stops there. */
  function Extended(ss: seq<SessionRecord>, id: string, now: int): seq<SessionRecord> {
    if ss == [] then []
    else if ss[0].sessionId == id then [Touched(ss[0], now)] + ss[1..]
    else [ss[0]] + Extended(ss[1..], id, now)
  }

  /** The scan is a point update of the first match, and the identity when nothing matches. */
  lemma {:induction false} ExtendedIsPointUpdate(ss: seq<SessionRecord>, id: string, now: int)
    ensures var k := IndexOf(ss, id);
      Extended(ss, id, now) == if k < |ss| then ss[k := Touched(ss[k], now)] else ss
  {
    if ss == [] {
    } else if ss[0].sessionId == id {
      assert IndexOf(ss, id) == 0;
      assert [Touched(ss[0], now)] + ss[1..] == ss[0 := Touched(ss[0], now)];
    } else {
      var tail := ss[1..];
      ExtendedIsPointUpdate(tail, id, now);
      var k := IndexOf(tail, id);
      assert IndexOf(ss, id) == k + 1;
      assert Extended(ss, id, now) == [ss[0]] + Extended(tail, id, now);
      assert [ss[0]] + tail == ss;
      if k < |tail| {
        assert tail[k] == ss[k + 1];
        ConsUpdate(ss[0], tail, k, Touched(tail[k], now));
      }
    }
  }

  /** Updating a list after its head is updating the whole list one position further on. */
  lemma ConsUpdate<T>(x: T, tail: seq<T>, k: nat, v: T)
    requires k < |tail|
    ensures [x] + tail[k := v] == ([x] + tail)[k + 1 := v]
  {
  }

  /** A list that differs from `ss` only by touching the first session with id `id` is the scanned list. */
  lemma ExtendedByPositions(ss: seq<SessionRecord>, after: seq<SessionRecord>, id: string, now: int)
    requires |after| == |ss|
    requires IndexOf(ss, id) < |ss|
    requires after[IndexOf(ss, id)] == Touched(ss[IndexOf(ss, id)], now)
    requires forall k :: 0 <= k < |ss| && k != IndexOf(ss, id) ==> after[k] == ss[k]
    ensures after == Extended(ss, id, now)
  {
    ExtendedIsPointUpdate(ss, id, now);
    var k := IndexOf(ss, id);
    assert after == ss[k := Touched(ss[k], now)];
  }

  /** The scan changes no session id, and after a hit the matched session is fresh at `now`. */
  lemma ExtendedFacts(ss: seq<SessionRecord>, id: string, now: int)
    ensures IdsOf(Extended(ss, id, now)) == IdsOf(ss)
    ensures |Extended(ss, id, now)| == |ss|
    ensures id !in IdsOf(ss) ==> Extended(ss, id, now) == ss
    ensures var k := IndexOf(ss, id);
      k < |ss| ==>
        (Extended(ss, id, now)[k] == Touched(ss[k], now) &&
         Extended(ss, id, now)[k].lastActivity == now &&
         !IsTooOld(Extended(ss, id, now)[k], now))
    ensures forall j :: 0 <= j < |ss| && j != IndexOf(ss, id) ==> Extended(ss, id, now)[j] == ss[j]
    ensures IndexOf(Extended(ss, id, now), id) == IndexOf(ss, id)
  {
    ExtendedIsPointUpdate(ss, id, now);
    IndexOfDependsOnIds(Extended(ss, id, now), ss, id);
  }

  // ----- The sweep -----

  /** The sessions of `ss` that are not too old at `now`, in their original order. */
  function Kept(ss: seq<SessionRecord>, now: int): seq<SessionRecord> {
    if ss == [] then []
    else Kept(ss[..|ss| - 1], now) + (if IsTooOld(ss[|ss| - 1], now) then [] else [ss[|ss| - 1]])
  }

  /** The sessions of `ss` that are too old at `now`, in their original order. */
  function Expired(ss: seq<SessionRecord>, now: int): seq<SessionRecord> {
    if ss == [] then []
    else Expired(ss[..|ss| - 1], now) + (if IsTooOld(ss[|ss| - 1], now) then [ss[|ss| - 1]] else [])
  }

  /** One more session of the input either joins the kept ones or the expired ones. */
  lemma SweepStep(ss: seq<SessionRecord>, i: nat, now: int)
    requires i < |ss|
    ensures Kept(ss[..i + 1], now) == Kept(ss[..i], now) + (if IsTooOld(ss[i], now) then [] else [ss[i]])
    ensures Expired(ss[..i + 1], now) == Expired(ss[..i], now) + (if IsTooOld(ss[i], now) then [ss[i]] else [])
  {
    assert ss[..i + 1][..i] == ss[..i];
  }

  /** Kept and Expired split `ss`: no session is lost or duplicated, so the count is conserved. */
  lemma {:induction false} SweepConservesSessions(ss: seq<SessionRecord>, now: int)
    ensures multiset(Kept(ss, now)) + multiset(Expired(ss, now)) == multiset(ss)
    ensures |Kept(ss, now)| + |Expired(ss, now)| == |ss|
  {
    if ss != [] {
      var init, last := ss[..|ss| - 1], ss[|ss| - 1];
      SweepConservesSessions(init, now);
      assert ss == init + [last];
      assert multiset(ss) == multiset(init) + multiset{last};
      if IsTooOld(last, now) {
        assert Kept(ss, now) == Kept(init, now);
        assert multiset(Expired(ss, now)) == multiset(Expired(init, now)) + multiset{last};
      } else {
        assert Expired(ss, now) == Expired(init, now);
        assert multiset(Kept(ss, now)) == multiset(Kept(init, now)) + multiset{last};
      }
    }
  }

  /** The same split seen on the session ids. */
  lemma {:induction false} SweepConservesIds(ss: seq<SessionRecord>, now: int)
    ensures multiset(IdsOf(Kept(ss, now))) + multiset(IdsOf(Expired(ss, now))) == multiset(IdsOf(ss))
  {
    if ss != [] {
      SweepConservesIds(ss[..|ss| - 1], now);
      SweepStepIds(ss, now);
    }
  }

  /** One step of the sweep, seen on the ids: the last session's id goes to exactly one side. */
  lemma SweepStepIds(ss: seq<SessionRecord>, now: int)
    requires ss != []
    requires var init := ss[..|ss| - 1];
      multiset(IdsOf(Kept(init, now))) + multiset(IdsOf(Expired(init, now))) == multiset(IdsOf(init))
    ensures multiset(IdsOf(Kept(ss, now))) + multiset(IdsOf(Expired(ss, now))) == multiset(IdsOf(ss))
  {
    var init, last := ss[..|ss| - 1], ss[|ss| - 1];
    assert ss == init + [last];
    SplitStepIds(Kept(init, now), Expired(init, now), init, Kept(ss, now), Expired(ss, now), ss, last, IsTooOld(last, now));
  }

  /** Appending `last` to a split list and to one side of the split keeps the ids split. */
  lemma SplitStepIds(kept: seq<SessionRecord>, expired: seq<SessionRecord>, all: seq<SessionRecord>,
                     kept': seq<SessionRecord>, expired': seq<SessionRecord>, all': seq<SessionRecord>,
                     last: SessionRecord, stale: bool)
    requires multiset(IdsOf(kept)) + multiset(IdsOf(expired)) == multiset(IdsOf(all))
    requires all' == all + [last]
    requires stale ==> kept' == kept && expired' == expired + [last]
    requires !stale ==> kept' == kept + [last] && expired' == expired
    ensures multiset(IdsOf(kept')) + multiset(IdsOf(expired')) == multiset(IdsOf(all'))
  {
    IdsOfSnoc(all, last);
    if stale {
      IdsOfSnoc(expired, last);
    } else {
      IdsOfSnoc(kept, last);
    }
  }

  /** Appending one session adds its id to the multiset of ids. */
  lemma IdsOfSnoc(a: seq<SessionRecord>, x: SessionRecord)
    ensures multiset(IdsOf(a + [x])) == multiset(IdsOf(a)) + multiset{x.sessionId}
  {
    IdsOfAppend(a, [x]);
  }

  /** A session is kept exactly when it was current and is not too old;
      it is expired exactly when it was current and is too old. */
  lemma {:induction false} SweepMembership(ss: seq<SessionRecord>, now: int, s: SessionRecord)
    ensures s in Kept(ss, now) <==> s in ss && !IsTooOld(s, now)
    ensures s in Expired(ss, now) <==> s in ss && IsTooOld(s, now)
  {
    if ss != [] {
      var init := ss[..|ss| - 1];
      SweepMembership(init, now, s);
      assert ss == init + [ss[|ss| - 1]];
    }
  }

  /** After a sweep no current session is too old at the same `now`. */
  lemma KeptAreFresh(ss: seq<SessionRecord>, now: int)
    ensures forall k :: 0 <= k < |Kept(ss, now)| ==> !IsTooOld(Kept(ss, now)[k], now)
  {
    forall k | 0 <= k < |Kept(ss, now)| ensures !IsTooOld(Kept(ss, now)[k], now) {
      SweepMembership(ss, now, Kept(ss, now)[k]);
    }
  }

  /** A second sweep at the same `now` keeps everything and expires nothing. */
  lemma {:induction false} SweepIsIdempotent(ss: seq<SessionRecord>, now: int)
    ensures Kept(Kept(ss, now), now) == Kept(ss, now)
    ensures Expired(Kept(ss, now), now) == []
  {
    if ss != [] {
      var init := ss[..|ss| - 1];
      var last := ss[|ss| - 1];
      SweepIsIdempotent(init, now);
      if !IsTooOld(last, now) {
        var k := Kept(init, now) + [last];
        assert Kept(ss, now) == k;
        assert k[..|k| - 1] == Kept(init, now);
        assert Kept(k, now) == Kept(Kept(init, now), now) + [last];
        assert Expired(k, now) == Expired(Kept(init, now), now);
      } else {
        assert Kept(ss, now) == Kept(init, now);
      }
    }
  }

  /** After a sweep, an id is still current exactly when some current session
      with that id was not too old. */
  lemma SweepKeepsExactlyFreshIds(ss: seq<SessionRecord>, id: string, now: int)
    ensures id in IdsOf(Kept(ss, now)) <==>
      exists i :: 0 <= i < |ss| && ss[i].sessionId == id && !IsTooOld(ss[i], now)
  {
    var kept := Kept(ss, now);
    if id in IdsOf(kept) {
      var k :| 0 <= k < |kept| && IdsOf(kept)[k] == id;
      SweepMembership(ss, now, kept[k]);
      var i :| 0 <= i < |ss| && ss[i] == kept[k];
      assert ss[i].sessionId == id && !IsTooOld(ss[i], now);
    }
    if i :| 0 <= i < |ss| && ss[i].sessionId == id && !IsTooOld(ss[i], now) {
      SweepMembership(ss, now, ss[i]);
      var k :| 0 <= k < |kept| && kept[k] == ss[i];
      assert IdsOf(kept)[k] == id;
    }
  }
}
