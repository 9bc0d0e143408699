/** The preference subsystem (backend/src/controllers/preferenceController.js):
    a per-identity interaction log bounded to the most recent 20 rows, the
    "recent products" view, recommendations, and clearing.

    The store is one table of interaction rows, kept in insertion order. The
    database's `createdAt` ordering is tied to that order by `Chronological`:
    when every insert carries a timestamp no older than the rows already
    stored, insertion order and `createdAt` order agree. Each handler runs as
    one atomic step. */
module Preferences {
  import opened Wrappers
  import Catalog

  /** Rows kept per identity: a track call at or above it evicts the oldest. */
  const HistoryLimit: nat := 20
  /** Rows read back by the recent-preferences and recommendation queries. */
  const RecentLimit: nat := 20
  /** Products shown in the "recent products" strip. */
  const RecentProductsLimit: nat := 4
  /** Products returned as recommendations. */
  const RecommendationLimit: nat := 10

  /** Whose log a request reads or writes: an authenticated user, or a guest
      known only by the session id the client generated. */
  datatype Identity = User(userId: nat) | Guest(sessionId: string)

  datatype Action = Search | Click | View

  /** The accepted `actionType` values. */
  function ParseAction(s: string): (r: Option<Action>)
    ensures r.Some? <==> s == "search" || s == "click" || s == "view"
  {
    if s == "search" then Some(Search)
    else if s == "click" then Some(Click)
    else if s == "view" then Some(View)
    else None
  }

  /** One stored interaction. `category` is a copy of the product's category
      at the time of the write. */
  datatype Interaction = Interaction(
    id: nat,
    userId: Option<nat>,
    sessionId: Option<string>,
    productId: nat,
    action: Action,
    category: Option<string>,
    createdAt: int)

  /** The interaction table in insertion order, with the next primary key. */
  datatype Log = Log(rows: seq<Interaction>, nextId: nat)

  /** The request's identity. `userId` is the authenticated user's id (None
      when there is no token); `sessionId` is the client-supplied id, "" when
      absent. The user id wins; a session id alone makes a guest. */
  function ResolveIdentity(userId: Option<nat>, sessionId: string): (r: Option<Identity>)
    ensures r.None? <==> userId.None? && sessionId == ""
    ensures userId.Some? ==> r == Some(User(userId.value))
    ensures userId.None? && r.Some? ==> r == Some(Guest(sessionId))
  {
    if userId.Some? then Some(User(userId.value))
    else if sessionId != "" then Some(Guest(sessionId))
    else None
  }

  /** The row is in `id`'s log: the `where: identifier` filter. */
  predicate Owns(id: Identity, row: Interaction)
  {
    match id
    case User(u) => row.userId == Some(u)
    case Guest(s) => row.sessionId == Some(s)
  }

  /** Exactly one of user id and (non-empty) session id is set. */
  ghost predicate WellFormed(row: Interaction)
  {
    (row.userId.Some? && row.sessionId.None?)
    || (row.userId.None? && row.sessionId.Some? && row.sessionId.value != "")
  }

  ghost predicate AllWellFormed(rows: seq<Interaction>)
  {
    forall i | 0 <= i < |rows| :: WellFormed(rows[i])
  }

  /** A well-formed row belongs to exactly one identity. */
  lemma OwnerUnique(row: Interaction, a: Identity, b: Identity)
    requires WellFormed(row) && Owns(a, row) && Owns(b, row)
    ensures a == b
  {
  }

  /** Insertion order agrees with `createdAt` order. */
  ghost predicate Chronological(rows: seq<Interaction>)
  {
    forall i, j | 0 <= i < j < |rows| :: rows[i].createdAt <= rows[j].createdAt
  }

  /** `id`'s rows, oldest first. */
  function Owned(rows: seq<Interaction>, id: Identity): (r: seq<Interaction>)
    ensures |r| <= |rows|
    ensures forall x | x in r :: x in rows && Owns(id, x)
    ensures forall x | x in rows && Owns(id, x) :: x in r
  {
    if |rows| == 0 then []
    else if Owns(id, rows[0]) then [rows[0]] + Owned(rows[1..], id)
    else Owned(rows[1..], id)
  }

  /** The rows that are not `id`'s: what `deleteMany({ where: identifier })` keeps. */
  function Disowned(rows: seq<Interaction>, id: Identity): (r: seq<Interaction>)
    ensures |r| <= |rows|
    ensures forall x :: x in r <==> x in rows && !Owns(id, x)
    ensures Owned(r, id) == []
  {
    if |rows| == 0 then []
    else if Owns(id, rows[0]) then Disowned(rows[1..], id)
    else
      var rest := Disowned(rows[1..], id);
      assert ([rows[0]] + rest)[1..] == rest;
      [rows[0]] + rest
  }

  lemma {:induction false} OwnedAppend(rows: seq<Interaction>, x: Interaction, id: Identity)
    ensures Owned(rows + [x], id) == Owned(rows, id) + (if Owns(id, x) then [x] else [])
  {
    if |rows| > 0 {
      assert (rows + [x])[1..] == rows[1..] + [x];
      OwnedAppend(rows[1..], x, id);
    }
  }

  /** The first of `id`'s rows deleted; every other row kept in place. */
  function RemoveFirstOwned(rows: seq<Interaction>, id: Identity): (r: seq<Interaction>)
    ensures Owned(rows, id) == [] ==> r == rows
    ensures Owned(rows, id) != [] ==> Owned(r, id) == Owned(rows, id)[1..]
    ensures Owned(rows, id) != [] ==> multiset(r) == multiset(rows) - multiset{Owned(rows, id)[0]}
  {
    if |rows| == 0 then rows
    else if Owns(id, rows[0]) then
      assert rows == [rows[0]] + rows[1..];
      rows[1..]
    else
      var rest := RemoveFirstOwned(rows[1..], id);
      assert rows == [rows[0]] + rows[1..];
      [rows[0]] + rest
  }

  /** Removing one identity's oldest row leaves every other identity's rows as they were. */
  lemma {:induction false} RemoveFirstOwnedKeepsOthers(rows: seq<Interaction>, id: Identity, j: Identity)
    requires AllWellFormed(rows) && j != id
    ensures Owned(RemoveFirstOwned(rows, id), j) == Owned(rows, j)
  {
    if |rows| > 0 {
      if Owns(id, rows[0]) {
        if Owns(j, rows[0]) {
          OwnerUnique(rows[0], id, j);
        }
      } else {
        RemoveFirstOwnedKeepsOthers(rows[1..], id, j);
        assert RemoveFirstOwned(rows, id) == [rows[0]] + RemoveFirstOwned(rows[1..], id);
        assert ([rows[0]] + RemoveFirstOwned(rows[1..], id))[1..] == RemoveFirstOwned(rows[1..], id);
      }
    }
  }

  lemma {:induction false} OwnedChronological(rows: seq<Interaction>, id: Identity)
    requires Chronological(rows)
    ensures Chronological(Owned(rows, id))
  {
    if |rows| > 0 {
      OwnedChronological(rows[1..], id);
      if Owns(id, rows[0]) {
        var r := Owned(rows, id);
        forall i, j | 0 <= i < j < |r|
          ensures r[i].createdAt <= r[j].createdAt
        {
          if i == 0 {
            assert r[j] in Owned(rows[1..], id);
          }
        }
      }
    }
  }

  /** The body of a `POST /preferences/track` request. `productId` is None
      when the field is falsy; an absent `actionType` or `sessionId` is "". */
  datatype TrackRequest = TrackRequest(productId: Option<nat>, actionType: string, sessionId: string)

  /** The row a successful track call inserts. */
  function NewRow(log: Log, userId: Option<nat>, sessionId: string, p: Catalog.Product, action: Action, now: int): Interaction
  {
    Interaction(log.nextId, userId, if userId.Some? then None else Some(sessionId), p.id, action, p.category, now)
  }

  /** `trackInteraction`: validate, look the product up, evict the identity's
      oldest row when it already has `HistoryLimit` rows, insert the new one.
      A failure carries no log: the store is left as it was. */
  function Track(log: Log, catalog: seq<Catalog.Product>, userId: Option<nat>, req: TrackRequest, now: int)
    : (r: Outcome<(Log, Interaction)>)
    ensures req.productId.None? || req.actionType == "" ==>
              r == Fail(400, "Product ID and action type are required")
    ensures r == Fail(400, "Invalid action type") <==>
              req.productId.Some? && req.actionType != "" && ParseAction(req.actionType).None?
    ensures r == Fail(400, "User must be logged in or provide session ID") <==>
              req.productId.Some? && ParseAction(req.actionType).Some? && userId.None? && req.sessionId == ""
    ensures r.Fail? && r.status == 404 <==>
              req.productId.Some? && ParseAction(req.actionType).Some? && ResolveIdentity(userId, req.sessionId).Some?
              && Catalog.Find(catalog, req.productId.value).None?
    ensures r.Ok? <==>
              req.productId.Some? && ParseAction(req.actionType).Some? && ResolveIdentity(userId, req.sessionId).Some?
              && Catalog.Find(catalog, req.productId.value).Some?
    ensures !r.Invalid?
  {
    if req.productId.None? || req.actionType == "" then
      Fail(400, "Product ID and action type are required")
    else if ParseAction(req.actionType).None? then
      Fail(400, "Invalid action type")
    else if userId.None? && req.sessionId == "" then
      Fail(400, "User must be logged in or provide session ID")
    else
      match Catalog.Find(catalog, req.productId.value)
      case None => Fail(404, "Product not found")
      case Some(p) =>
        var id := ResolveIdentity(userId, req.sessionId).value;
        var kept := if |Owned(log.rows, id)| >= HistoryLimit then RemoveFirstOwned(log.rows, id) else log.rows;
        var row := NewRow(log, userId, req.sessionId, p, ParseAction(req.actionType).value, now);
        Ok((Log(kept + [row], log.nextId + 1), row))
  }

  /** The inserted row belongs to the request's identity, is well formed
      (no session id once a user id is set), references the product, copies
      its category, and carries the call's timestamp. */
  lemma TrackWritesRow(log: Log, catalog: seq<Catalog.Product>, userId: Option<nat>, req: TrackRequest, now: int)
    requires Track(log, catalog, userId, req, now).Ok?
    ensures var row := Track(log, catalog, userId, req, now).value.1;
            var p := Catalog.Find(catalog, req.productId.value).value;
            && Owns(ResolveIdentity(userId, req.sessionId).value, row)
            && WellFormed(row)
            && (userId.Some? ==> row.userId == userId && row.sessionId.None?)
            && row.productId == p.id == req.productId.value
            && row.category == p.category
            && row.createdAt == now
            && Some(row.action) == ParseAction(req.actionType)
  {
  }

  /** Rotation: the identity's log loses its oldest row exactly when it
      already held `HistoryLimit` rows, then gains the new row at the end.
      Its size goes n -> n + 1 below the limit and stays n at or above it. */
  lemma TrackRotates(log: Log, catalog: seq<Catalog.Product>, userId: Option<nat>, req: TrackRequest, now: int)
    requires Track(log, catalog, userId, req, now).Ok?
    ensures var (log', row) := Track(log, catalog, userId, req, now).value;
            var id := ResolveIdentity(userId, req.sessionId).value;
            var before := Owned(log.rows, id);
            && Owned(log'.rows, id) == (if |before| >= HistoryLimit then before[1..] else before) + [row]
            && |Owned(log'.rows, id)| == (if |before| < HistoryLimit then |before| + 1 else |before|)
            && multiset(log'.rows) == multiset(log.rows)
                 - (if |before| >= HistoryLimit then multiset{before[0]} else multiset{})
                 + multiset{row}
  {
    var (log', row) := Track(log, catalog, userId, req, now).value;
    var id := ResolveIdentity(userId, req.sessionId).value;
    var kept := if |Owned(log.rows, id)| >= HistoryLimit then RemoveFirstOwned(log.rows, id) else log.rows;
    assert log'.rows == kept + [row];
    OwnedAppend(kept, row, id);
  }

  /** Every other identity's rows are untouched by a track call. */
  lemma TrackKeepsOthers(log: Log, catalog: seq<Catalog.Product>, userId: Option<nat>, req: TrackRequest, now: int, j: Identity)
    requires AllWellFormed(log.rows)
    requires Track(log, catalog, userId, req, now).Ok?
    requires j != ResolveIdentity(userId, req.sessionId).value
    ensures Owned(Track(log, catalog, userId, req, now).value.0.rows, j) == Owned(log.rows, j)
  {
    var (log', row) := Track(log, catalog, userId, req, now).value;
    var id := ResolveIdentity(userId, req.sessionId).value;
    var kept := if |Owned(log.rows, id)| >= HistoryLimit then RemoveFirstOwned(log.rows, id) else log.rows;
    if |Owned(log.rows, id)| >= HistoryLimit {
      RemoveFirstOwnedKeepsOthers(log.rows, id, j);
    }
    OwnedAppend(kept, row, j);
    if Owns(j, row) {
      TrackWritesRow(log, catalog, userId, req, now);
      OwnerUnique(row, id, j);
    }
  }

  /** When insertion order is chronological, the row rotation evicts is the
      identity's oldest. */
  lemma TrackEvictsOldest(log: Log, id: Identity)
    requires Chronological(log.rows)
    requires |Owned(log.rows, id)| >= HistoryLimit
    ensures forall x | x in Owned(log.rows, id) :: Owned(log.rows, id)[0].createdAt <= x.createdAt
  {
    OwnedChronological(log.rows, id);
  }

  /** Every identity holds at most `HistoryLimit` rows. */
  ghost predicate HistoryBounded(rows: seq<Interaction>)
  {
    forall j :: |Owned(rows, j)| <= HistoryLimit
  }

  /** A track call keeps every row well formed. */
  lemma TrackPreservesWellFormed(log: Log, catalog: seq<Catalog.Product>, userId: Option<nat>, req: TrackRequest, now: int)
    requires AllWellFormed(log.rows)
    requires Track(log, catalog, userId, req, now).Ok?
    ensures AllWellFormed(Track(log, catalog, userId, req, now).value.0.rows)
  {
    var log' := Track(log, catalog, userId, req, now).value.0;
    var row := Track(log, catalog, userId, req, now).value.1;
    var id := ResolveIdentity(userId, req.sessionId).value;
    TrackWritesRow(log, catalog, userId, req, now);
    var kept := if |Owned(log.rows, id)| >= HistoryLimit then RemoveFirstOwned(log.rows, id) else log.rows;
    assert log'.rows == kept + [row];
    assert multiset(kept) <= multiset(log.rows);
    forall i | 0 <= i < |log'.rows|
      ensures WellFormed(log'.rows[i])
    {
      if i < |kept| {
        assert kept[i] in multiset(log.rows);
      }
    }
  }

  /** A track call keeps every identity within `HistoryLimit` rows: the
      bounded history holds after any number of calls. */
  lemma TrackPreservesBound(log: Log, catalog: seq<Catalog.Product>, userId: Option<nat>, req: TrackRequest, now: int)
    requires AllWellFormed(log.rows) && HistoryBounded(log.rows)
    requires Track(log, catalog, userId, req, now).Ok?
    ensures HistoryBounded(Track(log, catalog, userId, req, now).value.0.rows)
  {
    var log' := Track(log, catalog, userId, req, now).value.0;
    var id := ResolveIdentity(userId, req.sessionId).value;
    TrackRotates(log, catalog, userId, req, now);
    forall j
      ensures |Owned(log'.rows, j)| <= HistoryLimit
    {
      if j != id {
        TrackKeepsOthers(log, catalog, userId, req, now, j);
      } else {
        assert |Owned(log.rows, id)| <= HistoryLimit;
      }
    }
  }

  /** With a clock that does not run backwards, a track call keeps insertion
      order chronological. */
  lemma TrackPreservesChronology(log: Log, catalog: seq<Catalog.Product>, userId: Option<nat>, req: TrackRequest, now: int)
    requires Chronological(log.rows)
    requires forall i | 0 <= i < |log.rows| :: log.rows[i].createdAt <= now
    requires Track(log, catalog, userId, req, now).Ok?
    ensures Chronological(Track(log, catalog, userId, req, now).value.0.rows)
  {
    var id := ResolveIdentity(userId, req.sessionId).value;
    var evict := |Owned(log.rows, id)| >= HistoryLimit;
    var kept := if evict then RemoveFirstOwned(log.rows, id) else log.rows;
    var row := TrackTable(log, catalog, userId, req, now);
    KeptChronological(log.rows, id, evict);
    forall x | x in kept
      ensures x.createdAt <= row.createdAt
    {
      assert x in log.rows;
    }
    ChronologicalAppend(kept, row);
  }

  /** A successful track call leaves the kept rows followed by the new row,
      written at `now`. */
  lemma TrackTable(log: Log, catalog: seq<Catalog.Product>, userId: Option<nat>, req: TrackRequest, now: int)
    returns (row: Interaction)
    requires Track(log, catalog, userId, req, now).Ok?
    ensures row == Track(log, catalog, userId, req, now).value.1 && row.createdAt == now
    ensures var id := ResolveIdentity(userId, req.sessionId).value;
            Track(log, catalog, userId, req, now).value.0.rows
            == (if |Owned(log.rows, id)| >= HistoryLimit then RemoveFirstOwned(log.rows, id) else log.rows) + [row]
  {
    row := Track(log, catalog, userId, req, now).value.1;
  }

  /** A row no older than any other may go last. */
  lemma ChronologicalAppend(rows: seq<Interaction>, row: Interaction)
    requires Chronological(rows)
    requires forall x | x in rows :: x.createdAt <= row.createdAt
    ensures Chronological(rows + [row])
  {
    var r := rows + [row];
    forall i, j | 0 <= i < j < |r|
      ensures r[i].createdAt <= r[j].createdAt
    {
      if j == |rows| {
        assert r[i] in rows;
      }
    }
  }

  /** Deleting a row keeps a chronological log chronological. */
  lemma {:induction false} RemoveFirstOwnedChronological(rows: seq<Interaction>, id: Identity)
    requires Chronological(rows)
    ensures Chronological(RemoveFirstOwned(rows, id))
    ensures forall x | x in RemoveFirstOwned(rows, id) :: x in rows
  {
    var r := RemoveFirstOwned(rows, id);
    if |rows| > 0 && !Owns(id, rows[0]) {
      RemoveFirstOwnedChronological(rows[1..], id);
      assert r == [rows[0]] + RemoveFirstOwned(rows[1..], id);
      forall x | x in r
        ensures x in rows
      {
        if x != rows[0] {
          assert x in RemoveFirstOwned(rows[1..], id);
        }
      }
      forall i, j | 0 <= i < j < |r|
        ensures r[i].createdAt <= r[j].createdAt
      {
        if i == 0 {
          assert r[j] in RemoveFirstOwned(rows[1..], id);
          assert r[j] in rows[1..];
        }
      }
    }
  }

  lemma KeptChronological(rows: seq<Interaction>, id: Identity, evict: bool)
    requires Chronological(rows)
    ensures var kept := if evict then RemoveFirstOwned(rows, id) else rows;
            Chronological(kept) && forall x | x in kept :: x in rows
  {
    if evict {
      RemoveFirstOwnedChronological(rows, id);
    }
  }

  /** The elements of `s` in reverse order. */
  function Reverse<T>(s: seq<T>): (r: seq<T>)
    ensures |r| == |s|
    ensures forall i | 0 <= i < |s| :: r[i] == s[|s| - 1 - i]
  {
    if |s| == 0 then [] else Reverse(s[1..]) + [s[0]]
  }

  /** `findMany({ where: identifier, orderBy: { createdAt: 'desc' }, take: 20 })`. */
  function RecentRows(rows: seq<Interaction>, id: Identity): (r: seq<Interaction>)
    ensures |r| <= RecentLimit
  {
    Take(Reverse(Owned(rows, id)), RecentLimit)
  }

  /** The recent rows are the identity's, at most `RecentLimit` of them,
      and fewer only when the identity has fewer. */
  lemma RecentRowsOwned(rows: seq<Interaction>, id: Identity)
    ensures var r := RecentRows(rows, id);
            var o := Owned(rows, id);
            && |r| == (if |o| < RecentLimit then |o| else RecentLimit)
            && (forall x | x in r :: x in rows && Owns(id, x))
  {
    var r := RecentRows(rows, id);
    var o := Owned(rows, id);
    forall x | x in r
      ensures x in rows && Owns(id, x)
    {
      var k :| 0 <= k < |r| && r[k] == x;
      assert x == o[|o| - 1 - k];
    }
  }

  /** In a chronological log the recent rows come newest first, and no
      omitted row of the identity is newer than a returned one. */
  lemma RecentRowsNewestFirst(rows: seq<Interaction>, id: Identity)
    requires Chronological(rows)
    ensures var r := RecentRows(rows, id);
            var o := Owned(rows, id);
            && (forall i, j | 0 <= i < j < |r| :: r[i].createdAt >= r[j].createdAt)
            && (forall m, i | 0 <= m < |o| - |r| && 0 <= i < |r| :: o[m].createdAt <= r[i].createdAt)
  {
    var r := RecentRows(rows, id);
    var o := Owned(rows, id);
    OwnedChronological(rows, id);
    forall i, j | 0 <= i < j < |r|
      ensures r[i].createdAt >= r[j].createdAt
    {
      assert r[i] == o[|o| - 1 - i] && r[j] == o[|o| - 1 - j];
    }
    forall m, i | 0 <= m < |o| - |r| && 0 <= i < |r|
      ensures o[m].createdAt <= r[i].createdAt
    {
      assert r[i] == o[|o| - 1 - i];
    }
  }

  /** Each row joined with its product (`include: { product }`); None when a
      row's product is missing, which the handler reports as a server error. */
  function JoinProducts(rows: seq<Interaction>, catalog: seq<Catalog.Product>): (r: Option<seq<Catalog.Product>>)
    ensures r.Some? <==> forall i | 0 <= i < |rows| :: Catalog.Find(catalog, rows[i].productId).Some?
    ensures r.Some? ==> |r.value| == |rows|
                        && forall i | 0 <= i < |rows| :: Catalog.Find(catalog, rows[i].productId) == Some(r.value[i])
  {
    if |rows| == 0 then Some([])
    else
      match Catalog.Find(catalog, rows[0].productId)
      case None => None
      case Some(p) =>
        match JoinProducts(rows[1..], catalog)
        case None => None
        case Some(ps) => Some([p] + ps)
  }

  /** Position `i` holds the first active occurrence of its product id. */
  predicate FirstActiveAt(ps: seq<Catalog.Product>, i: nat)
    requires i < |ps|
  {
    Catalog.IsActive(ps[i]) && forall j | 0 <= j < i :: !(Catalog.IsActive(ps[j]) && ps[j].id == ps[i].id)
  }

  /** Reference definition of the de-duplication: the products at the first
      active occurrence of each id among the first `n`, in input order. */
  function FirstSeen(ps: seq<Catalog.Product>, n: nat): seq<Catalog.Product>
    requires n <= |ps|
  {
    if n == 0 then [] else FirstSeen(ps, n - 1) + (if FirstActiveAt(ps, n - 1) then [ps[n - 1]] else [])
  }

  /** Ids of the active products among the first `n`. */
  function ActiveIds(ps: seq<Catalog.Product>, n: nat): set<nat>
    requires n <= |ps|
  {
    set j | 0 <= j < n && Catalog.IsActive(ps[j]) :: ps[j].id
  }

  function Ids(ps: seq<Catalog.Product>): set<nat>
  {
    set p | p in ps :: p.id
  }

  ghost predicate DistinctIds(ps: seq<Catalog.Product>)
  {
    forall i, j | 0 <= i < j < |ps| :: ps[i].id != ps[j].id
  }

  /** The first-seen list holds only active products, with pairwise distinct
      ids, and every active id of the input appears in it. */
  lemma {:induction false} FirstSeenProperties(ps: seq<Catalog.Product>, n: nat)
    requires n <= |ps|
    ensures forall x | x in FirstSeen(ps, n) :: Catalog.IsActive(x) && x in ps
    ensures DistinctIds(FirstSeen(ps, n))
    ensures Ids(FirstSeen(ps, n)) == ActiveIds(ps, n)
  {
    if n > 0 {
      FirstSeenProperties(ps, n - 1);
      var prev := FirstSeen(ps, n - 1);
      var x := ps[n - 1];
      assert ActiveIds(ps, n) == ActiveIds(ps, n - 1) + (if Catalog.IsActive(x) then {x.id} else {});
      if FirstActiveAt(ps, n - 1) {
        assert x.id !in ActiveIds(ps, n - 1);
        assert x.id !in Ids(prev);
        var r := prev + [x];
        assert Ids(r) == Ids(prev) + {x.id};
        forall i, j | 0 <= i < j < |r|
          ensures r[i].id != r[j].id
        {
          if j == |r| - 1 {
            assert r[i] in prev;
          }
        }
      } else if Catalog.IsActive(x) {
        var k :| 0 <= k < n - 1 && Catalog.IsActive(ps[k]) && ps[k].id == x.id;
        assert x.id in ActiveIds(ps, n - 1);
      }
    }
  }

  /** Positions of the first active occurrences among the first `n`,
      ascending. */
  function FirstSeenIndices(ps: seq<Catalog.Product>, n: nat): seq<nat>
    requires n <= |ps|
  {
    if n == 0 then [] else FirstSeenIndices(ps, n - 1) + (if FirstActiveAt(ps, n - 1) then [n - 1] else [])
  }

  /** Entry `k` of the first-seen list is the input entry at the `k`-th
      first active occurrence, and those positions ascend. */
  lemma {:induction false} FirstSeenIndexed(ps: seq<Catalog.Product>, n: nat)
    requires n <= |ps|
    ensures var idx := FirstSeenIndices(ps, n);
            var u := FirstSeen(ps, n);
            && |idx| == |u|
            && (forall k | 0 <= k < |idx| :: idx[k] < n && FirstActiveAt(ps, idx[k]) && u[k] == ps[idx[k]])
            && (forall k, l | 0 <= k < l < |idx| :: idx[k] < idx[l])
  {
    if n > 0 {
      FirstSeenIndexed(ps, n - 1);
    }
  }

  /** The de-duplication the handler performs: active products, first
      occurrence of each id, in input order. */
  function UniqueActive(ps: seq<Catalog.Product>): seq<Catalog.Product>
  {
    FirstSeen(ps, |ps|)
  }

  /** The handler's loop with its `seenProductIds` set computes the
      reference de-duplication. */
  method CollectUniqueActive(ps: seq<Catalog.Product>) returns (r: seq<Catalog.Product>)
    ensures r == UniqueActive(ps)
  {
    r := [];
    var seen: set<nat> := {};
    var i := 0;
    while i < |ps|
      invariant 0 <= i <= |ps|
      invariant r == FirstSeen(ps, i)
      invariant seen == ActiveIds(ps, i)
    {
      assert ActiveIds(ps, i + 1) == ActiveIds(ps, i) + (if Catalog.IsActive(ps[i]) then {ps[i].id} else {});
      if Catalog.IsActive(ps[i]) && ps[i].id !in seen {
        r := r + [ps[i]];
        seen := seen + {ps[i].id};
      } else if Catalog.IsActive(ps[i]) {
        var k :| 0 <= k < i && Catalog.IsActive(ps[k]) && ps[k].id == ps[i].id;
      }
      i := i + 1;
    }
  }

  /** The answer of `GET /preferences/recent`. */
  datatype RecentView = RecentView(preferences: seq<Interaction>, products: seq<Catalog.Product>)

  /** `getRecentPreferences`. */
  function RecentPreferences(log: Log, catalog: seq<Catalog.Product>, userId: Option<nat>, sessionId: string)
    : (r: Outcome<RecentView>)
    ensures ResolveIdentity(userId, sessionId).None? ==> r == Ok(RecentView([], []))
    ensures ResolveIdentity(userId, sessionId).Some? ==>
              (r.Ok? <==> JoinProducts(RecentRows(log.rows, ResolveIdentity(userId, sessionId).value), catalog).Some?)
    ensures r.Ok? && ResolveIdentity(userId, sessionId).Some? ==>
              r.value.preferences == RecentRows(log.rows, ResolveIdentity(userId, sessionId).value)
    ensures r.Ok? ==> |r.value.preferences| <= RecentLimit && |r.value.products| <= RecentProductsLimit
    ensures r.Ok? ==> forall x | x in r.value.products :: Catalog.IsActive(x)
    ensures r.Ok? ==> DistinctIds(r.value.products)
    ensures !r.Ok? ==> r == Fail(500, "Failed to load preferences")
  {
    match ResolveIdentity(userId, sessionId)
    case None => Ok(RecentView([], []))
    case Some(id) =>
      var rows := RecentRows(log.rows, id);
      match JoinProducts(rows, catalog)
      case None => Fail(500, "Failed to load preferences")
      case Some(joined) =>
        FirstSeenProperties(joined, |joined|);
        var products := Take(UniqueActive(joined), RecentProductsLimit);
        assert forall x | x in products :: x in UniqueActive(joined);
        Ok(RecentView(rows, products))
  }

  /** With an identity whose joined products are all present, the products
      strip is the first `RecentProductsLimit` entries of the de-duplicated
      newest-first list: every active product of the recent rows appears in
      it when fewer than `RecentProductsLimit` distinct ones exist. */
  lemma RecentProductsComplete(log: Log, catalog: seq<Catalog.Product>, userId: Option<nat>, sessionId: string, p: Catalog.Product)
    requires ResolveIdentity(userId, sessionId).Some?
    requires RecentPreferences(log, catalog, userId, sessionId).Ok?
    requires var v := RecentPreferences(log, catalog, userId, sessionId).value;
             |v.products| < RecentProductsLimit
    requires Catalog.IsActive(p)
    requires exists i | 0 <= i < |RecentRows(log.rows, ResolveIdentity(userId, sessionId).value)| ::
               Catalog.Find(catalog, RecentRows(log.rows, ResolveIdentity(userId, sessionId).value)[i].productId) == Some(p)
    ensures exists q | q in RecentPreferences(log, catalog, userId, sessionId).value.products :: q.id == p.id
  {
    var id := ResolveIdentity(userId, sessionId).value;
    var rows := RecentRows(log.rows, id);
    var joined := JoinProducts(rows, catalog).value;
    var i :| 0 <= i < |rows| && Catalog.Find(catalog, rows[i].productId) == Some(p);
    assert joined[i] == p;
    FirstSeenProperties(joined, |joined|);
    assert p.id in ActiveIds(joined, |joined|);
    var u := UniqueActive(joined);
    assert p.id in Ids(u);
    assert Take(u, RecentProductsLimit) == u;
  }

  /** Every shown product is the product of some row. */
  ghost predicate ShownFromRows(rows: seq<Interaction>, catalog: seq<Catalog.Product>, shown: seq<Catalog.Product>)
  {
    forall k | 0 <= k < |shown| ::
      exists i | 0 <= i < |rows| :: Catalog.Find(catalog, rows[i].productId) == Some(shown[k])
  }

  /** The shown products come in the order of their first occurrence among
      the rows: any row holding `shown[l]` is preceded by a row holding
      `shown[k]` for every `k < l`. */
  ghost predicate ShownInRowOrder(rows: seq<Interaction>, catalog: seq<Catalog.Product>, shown: seq<Catalog.Product>)
  {
    forall k, l, j | 0 <= k < l < |shown| && 0 <= j < |rows| && rows[j].productId == shown[l].id ::
      exists i | 0 <= i < j :: Catalog.Find(catalog, rows[i].productId) == Some(shown[k])
  }

  /** The products strip against the recent rows: every shown product is
      the product of some recent row, and the shown products come in the
      order of their first occurrence among the rows. */
  lemma RecentProductsFirstSeen(log: Log, catalog: seq<Catalog.Product>, userId: Option<nat>, sessionId: string)
    requires ResolveIdentity(userId, sessionId).Some?
    requires RecentPreferences(log, catalog, userId, sessionId).Ok?
    ensures var rows := RecentRows(log.rows, ResolveIdentity(userId, sessionId).value);
            var shown := RecentPreferences(log, catalog, userId, sessionId).value.products;
            ShownFromRows(rows, catalog, shown) && ShownInRowOrder(rows, catalog, shown)
  {
    var rows := RecentRows(log.rows, ResolveIdentity(userId, sessionId).value);
    var joined := JoinProducts(rows, catalog).value;
    RecentStrip(log, catalog, userId, sessionId);
    StripFromRows(rows, catalog, joined);
    StripInRowOrder(rows, catalog, joined);
  }

  /** On success with an identity, the strip is cut from the de-duplicated
      join of the recent rows. */
  lemma RecentStrip(log: Log, catalog: seq<Catalog.Product>, userId: Option<nat>, sessionId: string)
    requires ResolveIdentity(userId, sessionId).Some?
    requires RecentPreferences(log, catalog, userId, sessionId).Ok?
    ensures var rows := RecentRows(log.rows, ResolveIdentity(userId, sessionId).value);
            && JoinProducts(rows, catalog).Some?
            && RecentPreferences(log, catalog, userId, sessionId).value.products
               == Take(UniqueActive(JoinProducts(rows, catalog).value), RecentProductsLimit)
  {
  }

  /** An active product of the recent rows that is not shown occurs only
      after every shown one: for the row `j` holding it and any shown
      product `k`, some earlier row `i` holds that shown product. */
  lemma RecentUnshownComesLater(log: Log, catalog: seq<Catalog.Product>, userId: Option<nat>, sessionId: string, k: nat, j: nat)
    returns (i: nat)
    requires ResolveIdentity(userId, sessionId).Some?
    requires RecentPreferences(log, catalog, userId, sessionId).Ok?
    requires k < |RecentPreferences(log, catalog, userId, sessionId).value.products|
    requires j < |RecentRows(log.rows, ResolveIdentity(userId, sessionId).value)|
    requires ShowsActive(catalog, RecentRows(log.rows, ResolveIdentity(userId, sessionId).value)[j])
    requires RecentRows(log.rows, ResolveIdentity(userId, sessionId).value)[j].productId
             !in Ids(RecentPreferences(log, catalog, userId, sessionId).value.products)
    ensures var rows := RecentRows(log.rows, ResolveIdentity(userId, sessionId).value);
            i < j && Catalog.Find(catalog, rows[i].productId) == Some(RecentPreferences(log, catalog, userId, sessionId).value.products[k])
  {
    var rows := RecentRows(log.rows, ResolveIdentity(userId, sessionId).value);
    var joined := JoinProducts(rows, catalog).value;
    var shown := RecentPreferences(log, catalog, userId, sessionId).value.products;
    RecentStrip(log, catalog, userId, sessionId);
    i := ShownBeforeUnshown(rows, catalog, joined, shown, k, j);
  }

  lemma StripFromRows(rows: seq<Interaction>, catalog: seq<Catalog.Product>, joined: seq<Catalog.Product>)
    requires JoinProducts(rows, catalog) == Some(joined)
    ensures ShownFromRows(rows, catalog, Take(UniqueActive(joined), RecentProductsLimit))
  {
    var shown := Take(UniqueActive(joined), RecentProductsLimit);
    forall k | 0 <= k < |shown|
      ensures exists i | 0 <= i < |rows| :: Catalog.Find(catalog, rows[i].productId) == Some(shown[k])
    {
      var i := ShownAtFirstIndex(rows, catalog, joined, k);
      assert shown[k] == UniqueActive(joined)[k];
    }
  }

  lemma StripInRowOrder(rows: seq<Interaction>, catalog: seq<Catalog.Product>, joined: seq<Catalog.Product>)
    requires JoinProducts(rows, catalog) == Some(joined)
    ensures ShownInRowOrder(rows, catalog, Take(UniqueActive(joined), RecentProductsLimit))
  {
    var shown := Take(UniqueActive(joined), RecentProductsLimit);
    forall k, l, j | 0 <= k < l < |shown| && 0 <= j < |rows| && rows[j].productId == shown[l].id
      ensures exists i | 0 <= i < j :: Catalog.Find(catalog, rows[i].productId) == Some(shown[k])
    {
      assert shown[k] == UniqueActive(joined)[k] && shown[l] == UniqueActive(joined)[l];
      var i := ShownInFirstSeenOrder(rows, catalog, joined, k, l, j);
    }
  }

  /** Entry `k` of the first-seen list is the product of the row at its
      first-seen position. */
  lemma ShownAtFirstIndex(rows: seq<Interaction>, catalog: seq<Catalog.Product>, joined: seq<Catalog.Product>, k: nat)
    returns (i: nat)
    requires JoinProducts(rows, catalog) == Some(joined)
    requires k < |UniqueActive(joined)|
    ensures |FirstSeenIndices(joined, |joined|)| == |UniqueActive(joined)|
    ensures i == FirstSeenIndices(joined, |joined|)[k]
    ensures i < |rows| && FirstActiveAt(joined, i) && Catalog.Find(catalog, rows[i].productId) == Some(UniqueActive(joined)[k])
  {
    FirstSeenIndexed(joined, |joined|);
    i := FirstSeenIndices(joined, |joined|)[k];
  }

  lemma ShownInFirstSeenOrder(rows: seq<Interaction>, catalog: seq<Catalog.Product>, joined: seq<Catalog.Product>, k: nat, l: nat, j: nat)
    returns (i: nat)
    requires JoinProducts(rows, catalog) == Some(joined)
    requires k < l < |UniqueActive(joined)| && j < |rows|
    requires rows[j].productId == UniqueActive(joined)[l].id
    ensures i < j && Catalog.Find(catalog, rows[i].productId) == Some(UniqueActive(joined)[k])
  {
    FirstSeenIndexed(joined, |joined|);
    i := ShownAtFirstIndex(rows, catalog, joined, k);
    var f := ShownAtFirstIndex(rows, catalog, joined, l);
    assert joined[j] == UniqueActive(joined)[l];
    NotBeforeFirst(joined, f, j);
  }

  lemma ShownBeforeUnshown(rows: seq<Interaction>, catalog: seq<Catalog.Product>, joined: seq<Catalog.Product>,
                           shown: seq<Catalog.Product>, k: nat, j: nat)
    returns (i: nat)
    requires JoinProducts(rows, catalog) == Some(joined)
    requires shown == Take(UniqueActive(joined), RecentProductsLimit)
    requires k < |shown| && j < |rows|
    requires ShowsActive(catalog, rows[j])
    requires rows[j].productId !in Ids(shown)
    ensures i < j && Catalog.Find(catalog, rows[i].productId) == Some(shown[k])
  {
    FirstSeenIndexed(joined, |joined|);
    var m := LaterShownIndex(joined, j, RecentProductsLimit);
    i := ShownAtFirstIndex(rows, catalog, joined, k);
    var f := ShownAtFirstIndex(rows, catalog, joined, m);
    NotBeforeFirst(joined, f, j);
    assert shown[k] == UniqueActive(joined)[k];
  }

  /** An active entry whose id is not among the first `n` first-seen
      products is first seen at a position past them. */
  lemma LaterShownIndex(joined: seq<Catalog.Product>, j: nat, n: nat) returns (m: nat)
    requires j < |joined| && Catalog.IsActive(joined[j])
    requires joined[j].id !in Ids(Take(UniqueActive(joined), n))
    ensures |Take(UniqueActive(joined), n)| <= m < |UniqueActive(joined)| && UniqueActive(joined)[m].id == joined[j].id
  {
    var u := UniqueActive(joined);
    FirstSeenProperties(joined, |joined|);
    assert joined[j].id in ActiveIds(joined, |joined|);
    assert joined[j].id in Ids(u);
    var q :| q in u && q.id == joined[j].id;
    m :| 0 <= m < |u| && u[m] == q;
  }

  /** The row's product exists and is active. */
  predicate ShowsActive(catalog: seq<Catalog.Product>, x: Interaction)
  {
    Catalog.Find(catalog, x.productId).Some? && Catalog.IsActive(Catalog.Find(catalog, x.productId).value)
  }

  /** An active entry with the id of a first active occurrence lies at or
      after it. */
  lemma NotBeforeFirst(ps: seq<Catalog.Product>, f: nat, j: nat)
    requires f < |ps| && j < |ps| && FirstActiveAt(ps, f)
    requires Catalog.IsActive(ps[j]) && ps[j].id == ps[f].id
    ensures f <= j
  {
  }

  /** Product ids the recent rows reference. */
  function ViewedIds(rows: seq<Interaction>): set<nat>
  {
    set x | x in rows :: x.productId
  }

  /** Distinct categories of the recent rows, without the falsy ones
      (`filter(Boolean)` drops null and the empty string). */
  function Categories(rows: seq<Interaction>): (cats: set<string>)
    ensures "" !in cats
  {
    set x | x in rows && x.category.Some? && x.category.value != "" :: x.category.value
  }

  /** A product the recommendation query admits: active, not already
      viewed, and in a preferred category when any category is known. */
  predicate Eligible(p: Catalog.Product, viewed: set<nat>, cats: set<string>)
  {
    Catalog.IsActive(p) && p.id !in viewed
    && (cats == {} || (p.category.Some? && p.category.value in cats))
  }

  function FilterEligible(ps: seq<Catalog.Product>, viewed: set<nat>, cats: set<string>): (r: seq<Catalog.Product>)
    ensures forall x :: x in r <==> x in ps && Eligible(x, viewed, cats)
  {
    if |ps| == 0 then []
    else if Eligible(ps[0], viewed, cats) then [ps[0]] + FilterEligible(ps[1..], viewed, cats)
    else FilterEligible(ps[1..], viewed, cats)
  }

  lemma {:induction false} FilterEligibleSorted(o: Catalog.OrderBy, ps: seq<Catalog.Product>, viewed: set<nat>, cats: set<string>)
    requires Catalog.SortedBy(o, ps)
    ensures Catalog.SortedBy(o, FilterEligible(ps, viewed, cats))
  {
    if |ps| > 0 {
      FilterEligibleSorted(o, ps[1..], viewed, cats);
      var rest := FilterEligible(ps[1..], viewed, cats);
      if Eligible(ps[0], viewed, cats) {
        var r := [ps[0]] + rest;
        forall i, j | 0 <= i < j < |r|
          ensures Catalog.Precedes(o, r[i], r[j])
        {
          if i == 0 {
            assert r[j] in ps[1..];
            var k :| 0 <= k < |ps[1..]| && ps[1..][k] == r[j];
            assert ps[k + 1] == r[j];
          } else {
            assert r[i] == rest[i - 1] && r[j] == rest[j - 1];
          }
        }
      }
    }
  }

  const NewestFirst := Catalog.OrderBy(Catalog.CreatedAt, Catalog.Desc)

  /** `getRecommendations`: up to `RecommendationLimit` eligible products,
      newest first. */
  function Recommendations(log: Log, catalog: seq<Catalog.Product>, userId: Option<nat>, sessionId: string)
    : (r: seq<Catalog.Product>)
    ensures |r| <= RecommendationLimit
  {
    match ResolveIdentity(userId, sessionId)
    case None => []
    case Some(id) =>
      var rows := RecentRows(log.rows, id);
      if |rows| == 0 then []
      else Take(FilterEligible(Catalog.Sort(NewestFirst, catalog), ViewedIds(rows), Categories(rows)), RecommendationLimit)
  }

  /** Every recommendation is active, was not among the recent rows'
      products, lies in a recent category whenever one is known, and the
      list is newest first; a short list holds every eligible product. */
  lemma RecommendationsSound(log: Log, catalog: seq<Catalog.Product>, userId: Option<nat>, sessionId: string)
    ensures ResolveIdentity(userId, sessionId).None? ==> Recommendations(log, catalog, userId, sessionId) == []
    ensures ResolveIdentity(userId, sessionId).Some? && Owned(log.rows, ResolveIdentity(userId, sessionId).value) == [] ==>
              Recommendations(log, catalog, userId, sessionId) == []
    ensures ResolveIdentity(userId, sessionId).Some? ==>
              var rows := RecentRows(log.rows, ResolveIdentity(userId, sessionId).value);
              var r := Recommendations(log, catalog, userId, sessionId);
              && (forall x | x in r :: x in catalog && Eligible(x, ViewedIds(rows), Categories(rows)))
              && Catalog.SortedBy(NewestFirst, r)
              && (|rows| > 0 && |r| < RecommendationLimit ==>
                    forall x | x in catalog && Eligible(x, ViewedIds(rows), Categories(rows)) :: x in r)
              && (|r| == RecommendationLimit ==>
                    forall x, y | x in catalog && Eligible(x, ViewedIds(rows), Categories(rows)) && x !in r && y in r ::
                      x.createdAt <= y.createdAt)
  {
    if ResolveIdentity(userId, sessionId).Some? {
      var id := ResolveIdentity(userId, sessionId).value;
      var rows := RecentRows(log.rows, id);
      RecentRowsOwned(log.rows, id);
      if |rows| > 0 {
        var sorted := Catalog.Sort(NewestFirst, catalog);
        var f := FilterEligible(sorted, ViewedIds(rows), Categories(rows));
        FilterEligibleSorted(NewestFirst, sorted, ViewedIds(rows), Categories(rows));
        var r := Take(f, RecommendationLimit);
        assert forall x | x in r :: x in f;
        assert forall x :: x in sorted <==> x in catalog by {
          assert forall x :: x in sorted <==> x in multiset(sorted);
          assert forall x :: x in catalog <==> x in multiset(catalog);
        }
        if |r| < RecommendationLimit {
          assert r == f;
        }
        forall x, y | x in catalog && Eligible(x, ViewedIds(rows), Categories(rows)) && x !in r && y in r
          ensures x.createdAt <= y.createdAt
        {
          OmittedIsOlder(f, RecommendationLimit, x, y);
        }
      }
    }
  }

  /** Cutting a newest-first list leaves out nothing newer than what it
      keeps. */
  lemma OmittedIsOlder(f: seq<Catalog.Product>, n: nat, x: Catalog.Product, y: Catalog.Product)
    requires Catalog.SortedBy(NewestFirst, f)
    requires x in f && x !in Take(f, n) && y in Take(f, n)
    ensures x.createdAt <= y.createdAt
  {
    var m :| 0 <= m < |f| && f[m] == x;
    var k :| 0 <= k < |Take(f, n)| && Take(f, n)[k] == y;
    assert m >= |Take(f, n)|;
    assert Catalog.Precedes(NewestFirst, f[k], f[m]);
  }

  /** `clearPreferences`: without an identity, 400; otherwise every row of
      the identity is deleted and every other row kept, in order. */
  function ClearPreferences(log: Log, userId: Option<nat>, sessionId: string): (r: Outcome<Log>)
    ensures r.Fail? <==> ResolveIdentity(userId, sessionId).None?
    ensures r.Fail? ==> r == Fail(400, "User ID or session ID required")
    ensures r.Ok? ==>
              var id := ResolveIdentity(userId, sessionId).value;
              && Owned(r.value.rows, id) == []
              && (forall x :: x in r.value.rows <==> x in log.rows && !Owns(id, x))
    ensures !r.Invalid?
  {
    match ResolveIdentity(userId, sessionId)
    case None => Fail(400, "User ID or session ID required")
    case Some(id) =>
      var kept := Disowned(log.rows, id);
      Ok(Log(kept, log.nextId))
  }

  lemma {:induction false} DisownedKeepsOthers(rows: seq<Interaction>, id: Identity, j: Identity)
    requires AllWellFormed(rows) && j != id
    ensures Owned(Disowned(rows, id), j) == Owned(rows, j)
  {
    if |rows| > 0 {
      DisownedKeepsOthers(rows[1..], id, j);
      if Owns(id, rows[0]) && Owns(j, rows[0]) {
        OwnerUnique(rows[0], id, j);
      }
      if !Owns(id, rows[0]) {
        assert ([rows[0]] + Disowned(rows[1..], id))[1..] == Disowned(rows[1..], id);
      }
    }
  }

  /** Clearing one identity leaves every other identity's log exactly as it was. */
  lemma ClearKeepsOthers(log: Log, userId: Option<nat>, sessionId: string, j: Identity)
    requires AllWellFormed(log.rows)
    requires ResolveIdentity(userId, sessionId).Some? && j != ResolveIdentity(userId, sessionId).value
    ensures Owned(ClearPreferences(log, userId, sessionId).value.rows, j) == Owned(log.rows, j)
  {
    DisownedKeepsOthers(log.rows, ResolveIdentity(userId, sessionId).value, j);
  }
}
