# Anonymous-visitor sessions, modelled in Dafny

This project models the session bookkeeping of the `pages/api/hello.ts` API route.
An anonymous **Visitor** owns a list of *current* sessions and an append-only list
of *past* sessions (`sessionHistories`). A **Session** records its id, its visitor's
id, when it started and when it was last active. A session is *too old* once more
than 120 seconds have passed since its last activity.

The file also defines a helper `extendLife(visitor, sessionId)` (hello.ts:255-261),
which no code in the file calls. It first sweeps the too-old current sessions into
the history. Then it touches the session with the requested id, if that session is
still current.

The model has four modules:

- `Seqs` (`seqs.dfy`) holds facts about sequences without repeated elements. These
  are used both for Session objects and for session ids.
- `SessionSpec` (`session_spec.dfy`) is the value level:
  - the plain objects that `toObject` produces (`SessionRecord`, `VisitorRecord`);
  - the staleness test;
  - the reference definitions that the imperative code is proved against:
    - `Kept` and `Expired`, the two halves of the sweep;
    - `Extended`, the scan that touches the first match;
    - `IndexOf`, the position of the first match;
    - `IdsOf`, the ids of a list;
  - lemmas about these definitions.
- `Sessions` (`session.dfy`) holds the `Session` class. Its fields are updated in
  place. `ToObjects` and `FromObjects` are the `.map` calls of the source.
- `Visitors` (`visitor.dfy`) holds the `Visitor` class, whose fields are sequences
  of `Session` references, and the `ExtendLife` helper.

The methods are stated against `ToObject()`, the plain record of the new state,
written as a function of the old record. `Visitor.Valid()` says that no Session
object is held twice. Because of this, a session updated in place changes exactly
one entry of its visitor.

The clock (`getNow()`, hello.ts:13-15) is an explicit `now: int` parameter.
The random ids drawn by `v4()` (hello.ts:41, 93) are supplied as parameters.

## Model

| member | source | states |
|---|---|---|
| Sessions.Session.constructor | pages/api/hello.ts:40-45 | the new session carries the given ids and `startAt == lastActivity == now` |
| SessionSpec.ToleranceBoundary | pages/api/hello.ts:47-53 | too old exactly when `now - lastActivity > 120`; aged exactly 120 s is still fresh, 121 s is stale |
| SessionSpec.StalenessIsMonotone | pages/api/hello.ts:47-53 | a stale session stays stale as the clock moves forward |
| Sessions.Session.ExtendLife | pages/api/hello.ts:55-57 | only `lastActivity` changes; it becomes `now`, so the session is fresh; `startAt <= lastActivity` is kept when the clock has not gone backwards |
| SessionSpec.TouchedProperties | pages/api/hello.ts:55-57 | touching keeps `sessionId`, `visitorId` and `startAt`, sets `lastActivity` to `now`, and leaves the session fresh at `now` |
| Sessions.Session.FromObject | pages/api/hello.ts:68-76 | a new object whose plain object is exactly the given record, so `fromObject(toObject(x))` reproduces every field of `x` |
| Sessions.ToObjectsAppend | pages/api/hello.ts:132-133 | mapping two lists one after the other to plain objects gives the two mapped lists one after the other, which is what lets the history keep its old records when sessions are appended to it |
| Sessions.FromObjects | pages/api/hello.ts:144-145 | new, pairwise distinct objects whose plain objects are exactly the given records, in order |
| Visitors.Visitor.constructor | pages/api/hello.ts:92-96 | a visitor with the given id and no current or past sessions |
| Visitors.Visitor.CreateNewSession | pages/api/hello.ts:98-102 | appends exactly one new session for this visitor, started at `now`, and returns its id; earlier sessions, the history and the visitor id are unchanged; ids stay unique when the new id is new to the visitor |
| Visitors.UniqueIdsAfterCreate | pages/api/hello.ts:98-102 | appending a session whose id the visitor has never issued keeps every id unique |
| SessionSpec.IndexOf | pages/api/hello.ts:105-110 | the first position holding the id, or the length when there is none; found exactly when the id is among the ids |
| SessionSpec.IndexOfDependsOnIds | pages/api/hello.ts:105-110 | two lists with the same ids find any id at the same position |
| SessionSpec.ExtendedIsPointUpdate | pages/api/hello.ts:104-113 | the scan changes only the first matching session, which it touches; with no match it changes nothing |
| SessionSpec.ExtendedByPositions | pages/api/hello.ts:104-113 | conversely, a list that differs from the input only by touching the first match is the scan's result |
| SessionSpec.ExtendedFacts | pages/api/hello.ts:104-113 | the scan keeps length, ids and first-match position; a miss changes nothing; a hit leaves the matched session last active at `now` and fresh; other positions are unchanged |
| Visitors.Visitor.ExtendSessionLife | pages/api/hello.ts:104-113 | returns true exactly when some current session has the id; the new state is the scan's result; on false the visitor is unchanged; the history is never touched; ids stay unique |
| Visitors.Visitor.TouchSession | pages/api/hello.ts:106-108 | calling `extendLife` on current session `i` changes that session's plain object and nothing else of the visitor |
| Visitors.UniqueIdsAfterExtend | pages/api/hello.ts:104-113 | the scan keeps every id unique |
| SessionSpec.SweepConservesSessions | pages/api/hello.ts:115-127 | kept and expired sessions together are exactly the input, with none lost or duplicated, so the count is conserved |
| SessionSpec.SweepConservesIds | pages/api/hello.ts:115-127 | the same split, seen on the session ids |
| SessionSpec.SweepMembership | pages/api/hello.ts:117-124 | a session is kept exactly when it was current and fresh, and expired exactly when it was current and too old |
| SessionSpec.KeptAreFresh | pages/api/hello.ts:115-127 | after a sweep no current session is too old at the same `now` |
| SessionSpec.SweepIsIdempotent | pages/api/hello.ts:115-127 | a second sweep at the same `now` keeps everything and expires nothing |
| Visitors.Visitor.PartitionByAge | pages/api/hello.ts:116-124 | the loop sends each session, in order, to the active list or, when too old, to the expired list; no object is lost or duplicated |
| Visitors.PartitionStep | pages/api/hello.ts:117-124 | one loop step extends the kept or expired prefix by the current session |
| Visitors.Visitor.SetSessionLists | pages/api/hello.ts:116-126 | installs the new lists and changes no session object |
| Visitors.SweepOutcome | pages/api/hello.ts:115-127 | moving the expired objects to the history keeps every object exactly once, conserves the count, keeps current only objects that were current before, leaves no current session too old, and keeps ids unique |
| Visitors.UniqueIdsAfterSweep | pages/api/hello.ts:115-127 | a sweep only moves ids between the lists, so unique ids stay unique |
| Visitors.SweepMovesIds | pages/api/hello.ts:115-127 | the ids after a sweep are the ids before it, rearranged |
| Visitors.Visitor.ExpireAllOutdatedSessions | pages/api/hello.ts:115-127 | current sessions become those not too old, in order; the history becomes the old history followed by the too-old ones, in order; objects are moved, not copied, and the count is conserved; no current session is too old afterwards |
| Visitors.Visitor.FromObject | pages/api/hello.ts:137-148 | a new visitor, with new session objects, whose plain object is exactly the given record, including each session's order and its current-or-past placement |
| SessionSpec.SweepKeepsExactlyFreshIds | pages/api/hello.ts:255-261 | after a sweep an id is current exactly when some current session with that id was fresh |
| Visitors.ExtendLife | pages/api/hello.ts:255-261 | the visitor is swept, then scanned; the helper returns true exactly when the id belonged to a current session that was not too old at `now`; the touched session is then last active at `now` and fresh; ids stay unique |

## Left out

- `pages/api/avatar.ts` is not part of this model. It is an HTTP fetch piped through an image library, with no logic of its own.
- The MongoDB functions `getDatabase`, `assignNewId`, `findVisitor` and `updateVisitor` (hello.ts:191-279) are left out. They are I/O round trips to an external store. This includes the `instanceof Visitor` test on the driver's result.
- The race between `findVisitor` and `updateVisitor`, where one request's update can be lost, is left out. It is about concurrency and the external store.
- `jwt.sign` and token verification, the hard-coded secret and connection string, `getDBPassword` (environment reads) and `console.log` are left out. They are foreign calls or configuration.
- `RequestBody` and `Payload` (hello.ts:165-189) are left out because they only copy fields. `dealWithInvalidJWT` and `requestHandler` are left out because they are response plumbing, and `requestHandler` is empty.
- `Date.now()`: the clock reading is a parameter `now`, in whole seconds. `Math.floor` of the millisecond clock is not modelled.
- `v4()`: each random id is a parameter. The code cannot guarantee uniqueness.
- Visitors.Visitor.CreateNewSession: unique ids are promised only when the supplied id is not among the visitor's ids. Random ids make no such guarantee, so this condition is stated explicitly.
- Sessions.Session.ExtendLife: `startAt <= lastActivity` is promised only when it held before and the clock has not gone backwards. The code does not enforce it: the clock can go backwards and `fromObject` accepts any record.
- Visitors.Visitor.ExpireAllOutdatedSessions: the whole sweep uses one reading `now`, whereas the source reads the clock once per session inside `isTooOld`.
- Visitors.ExtendLife: the sweep and the touch share one clock reading `now`, whereas the source reads the clock once per session during the sweep (`isTooOld`, hello.ts:49) and again for the touch (`Session.extendLife`, hello.ts:56). So "not too old at `now`" and "last active at `now`" both refer to that one reading.
- Visitors.Visitor.ExpireAllOutdatedSessions: the source pushes each too-old session onto the history inside the loop. The model collects them in a local list (`PartitionByAge`) and appends that list once, after the loop. The loop never reads the history, so the final state is the same.
- `currentSessions` is an array scanned in order, so the model uses a sequence and the first match; nothing in the code keeps ids in it unique.
- The plain objects are typed records. JavaScript's untyped `object`, and extra or missing fields in a stored document, are not modelled.
