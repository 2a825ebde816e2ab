/** The entities of the browser variant and the two availability-map operations its
    components share: reconciling a map with the roster, and setting one player's status. */
module Ledger {
  import opened Wrappers
  import opened Dates
  import opened Sorting
  import opened Seqs

  /** A non-null availability value; null (not marked) is `None`. */
  datatype Status = In | Out

  /** A match's availability: player id to status, where a key may hold null. */
  type Availability = map<string, Option<Status>>

  datatype Player = Player(id: string, name: string)

  datatype Match = Match(matchId: string, matchDate: string, createdAt: string, availability: Availability)

  /** The set of ids on the roster. */
  function PlayerIds(players: seq<Player>): set<string>
  {
    set p | p in players :: p.id
  }

  /** `match.availability?.[playerId]`: a missing key and a null value both read as `None`. */
  function StatusOf(availability: Availability, playerId: string): Option<Status>
  {
    if playerId in availability then availability[playerId] else None
  }

  /** An availability map brought in step with the roster `ids`: one key per roster id,
      the old value where there was one and null for a player who had none. */
  function Reconciled(availability: Availability, ids: set<string>): (r: Availability)
    ensures r.Keys == ids
    ensures forall id :: id in r ==> StatusOf(r, id) == StatusOf(availability, id)
  {
    map id | id in ids :: if id in availability then availability[id] else None
  }

  /** Reconciling twice is reconciling once. */
  lemma ReconciledIdempotent(availability: Availability, ids: set<string>)
    ensures Reconciled(Reconciled(availability, ids), ids) == Reconciled(availability, ids)
  {
  }

  /** Reconciliation changes a map exactly when its keys differ from the roster's ids. */
  lemma ReconciledUnchangedIff(availability: Availability, ids: set<string>)
    ensures Reconciled(availability, ids) == availability <==> availability.Keys == ids
  {
    if availability.Keys == ids {
      var r := Reconciled(availability, ids);
      assert forall id :: id in r ==> r[id] == availability[id];
    }
  }

  /** The map edit of `handleUpdateAvailability`: null deletes the key, a status sets it. */
  function WithStatus(availability: Availability, playerId: string, status: Option<Status>): (r: Availability)
    ensures StatusOf(r, playerId) == status
    ensures playerId in r <==> status.Some?
    ensures forall id :: id != playerId ==> (id in r <==> id in availability)
    ensures forall id :: id != playerId && id in r ==> r[id] == availability[id]
  {
    if status.None? then availability - {playerId} else availability[playerId := status]
  }

  /** The last of two writes to the same player wins. */
  lemma WithStatusLastWins(availability: Availability, playerId: string, first: Option<Status>, second: Option<Status>)
    ensures WithStatus(WithStatus(availability, playerId, first), playerId, second)
         == WithStatus(availability, playerId, second)
  {
    var a := WithStatus(WithStatus(availability, playerId, first), playerId, second);
    var b := WithStatus(availability, playerId, second);
    assert a.Keys == b.Keys;
  }

  /** The sort key of `(a, b) => new Date(a.matchDate) - new Date(b.matchDate)`. */
  function DateKey(m: Match): Option<int>
  {
    match ParseDate(m.matchDate)
    case None => None
    case Some(t) => Some(EpochMillis(t))
  }

  /** The matches sorted ascending by date, equal dates in their original order. */
  function SortByDate(matches: seq<Match>): (r: seq<Match>)
    ensures |r| == |matches| && multiset(r) == multiset(matches)
    ensures SortedBy(r, DateKey)
    ensures forall k :: Filter(r, HasKey(DateKey, k)) == Filter(matches, HasKey(DateKey, k))
  {
    var r := SortByKey(matches, DateKey);
    assert forall k :: Filter(r, HasKey(DateKey, k)) == Filter(matches, HasKey(DateKey, k)) by {
      forall k
        ensures Filter(r, HasKey(DateKey, k)) == Filter(matches, HasKey(DateKey, k))
      {
        SortStable(matches, DateKey, k);
      }
    }
    r
  }
}
