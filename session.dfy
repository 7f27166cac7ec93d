/** The `Session` class: one period of activity of a visitor. Its
    `lastActivity` field is updated in place by `ExtendLife`; `ToObject` is the
    plain record the session serialises to, and every contract is stated on it. */
module Sessions {
  import opened Seqs
  import opened SessionSpec

  class Session {
    var sessionId: string
    var visitorId: string
    var startAt: int
    var lastActivity: int

    /** A new session for `visitorId`, started and last active at `now`.
        `sessionId` stands for the random id the session draws for itself. */
    constructor (sessionId: string, visitorId: string, now: int)
      ensures ToObject() == SessionRecord(sessionId, visitorId, now, now)
      ensures startAt <= lastActivity
    {
      this.sessionId := sessionId;
      this.visitorId := visitorId;
      this.startAt := now;
      this.lastActivity := now;
    }

    /** The plain object with the four fields. */
    function ToObject(): SessionRecord
      reads this
    {
      SessionRecord(sessionId, visitorId, startAt, lastActivity)
    }

    /** True when more than the tolerance has passed since the last activity. */
    predicate IsTooOld(now: int)
      reads this
    {
      SessionSpec.IsTooOld(ToObject(), now)
    }

    /** Marks the session active at `now`; nothing but `lastActivity` changes. */
    method ExtendLife(now: int)
      modifies this`lastActivity
      ensures ToObject() == Touched(old(ToObject()), now)
      ensures lastActivity == now && !IsTooOld(now)
      ensures old(startAt <= lastActivity) && old(lastActivity) <= now ==> startAt <= lastActivity
    {
      lastActivity := now;
    }

    /** A new session object carrying exactly the fields of `s`. */
    static method FromObject(s: SessionRecord) returns (session: Session)
      ensures fresh(session)
      ensures session.ToObject() == s
    {
      // The id and clock reading the constructor takes are overwritten at once.
      session := new Session("", "", 0);
      session.sessionId := s.sessionId;
      session.visitorId := s.visitorId;
      session.startAt := s.startAt;
      session.lastActivity := s.lastActivity;
    }
  }

  /** The plain objects of a list of sessions, in order (`sessions.map(s => s.toObject())`). */
  function ToObjects(sessions: seq<Session>): (records: seq<SessionRecord>)
    reads sessions
    ensures |records| == |sessions|
    ensures forall k :: 0 <= k < |sessions| ==> records[k] == sessions[k].ToObject()
  {
    seq(|sessions|, k reads sessions requires 0 <= k < |sessions| => sessions[k].ToObject())
  }

  /** Appending a session appends its plain object. */
  lemma ToObjectsSnoc(sessions: seq<Session>, session: Session)
    ensures ToObjects(sessions + [session]) == ToObjects(sessions) + [session.ToObject()]
  {
  }

  /** The plain objects of two lists one after the other. */
  lemma ToObjectsAppend(a: seq<Session>, b: seq<Session>)
    ensures ToObjects(a + b) == ToObjects(a) + ToObjects(b)
  {
  }

  /** New, pairwise distinct session objects for a list of records
      (`records.map(s => Session.fromObject(s))`). */
  method FromObjects(records: seq<SessionRecord>) returns (sessions: seq<Session>)
    ensures Distinct(sessions)
    ensures forall k :: 0 <= k < |sessions| ==> fresh(sessions[k])
    ensures ToObjects(sessions) == records
  {
    sessions := [];
    var i := 0;
    while i < |records|
      invariant 0 <= i <= |records|
      invariant Distinct(sessions)
      invariant forall k :: 0 <= k < |sessions| ==> fresh(sessions[k])
      invariant ToObjects(sessions) == records[..i]
    {
      var session := Session.FromObject(records[i]);
      ToObjectsSnoc(sessions, session);
      assert records[..i + 1] == records[..i] + [records[i]];
      sessions := sessions + [session];
      i := i + 1;
    }
  }
}
