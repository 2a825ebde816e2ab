/** The match list of the browser variant (`MatchManager.jsx`): the React state `matches`,
    kept in step with the roster and written through `saveMatches` after every change. */
module MatchManager {
  import opened Wrappers
  import opened Seqs
  import opened Sorting
  import opened Dates
  import opened Ledger
  import opened LocalStorage

  /** Every match's availability reconciled with the roster; order and other fields kept. */
  function ReconcileAll(matches: seq<Match>, ids: set<string>): (r: seq<Match>)
    ensures |r| == |matches|
  {
    seq(|matches|, i requires 0 <= i < |matches| =>
      matches[i].(availability := Reconciled(matches[i].availability, ids)))
  }

  /** After reconciliation each match has one key per roster id, keeps the status of every
      player still on the roster, gives null to the others, and keeps its other fields. */
  lemma ReconcileAllMatchesRoster(matches: seq<Match>, players: seq<Player>)
    ensures var r := ReconcileAll(matches, PlayerIds(players));
      forall i :: 0 <= i < |r| ==>
        && r[i].availability.Keys == PlayerIds(players)
        && (forall p :: p in players ==> StatusOf(r[i].availability, p.id) == StatusOf(matches[i].availability, p.id))
        && r[i].matchId == matches[i].matchId
        && r[i].matchDate == matches[i].matchDate
        && r[i].createdAt == matches[i].createdAt
  {
  }

  /** Reconciliation changes nothing exactly when every match already has the roster's keys. */
  lemma ReconcileAllUnchangedIff(matches: seq<Match>, ids: set<string>)
    ensures ReconcileAll(matches, ids) == matches
        <==> forall i :: 0 <= i < |matches| ==> matches[i].availability.Keys == ids
  {
    var r := ReconcileAll(matches, ids);
    if forall i :: 0 <= i < |matches| ==> matches[i].availability.Keys == ids {
      forall i | 0 <= i < |matches|
        ensures r[i] == matches[i]
      {
        ReconciledUnchangedIff(matches[i].availability, ids);
      }
    } else {
      var i :| 0 <= i < |matches| && matches[i].availability.Keys != ids;
      assert r[i].availability.Keys == ids;
    }
  }

  /** Comparing availability maps position by position, as the effect does, detects
      exactly whether reconciliation changed the list. */
  lemma ChangedIff(matches: seq<Match>, ids: set<string>)
    ensures (exists j | 0 <= j < |matches| ::
               ReconcileAll(matches, ids)[j].availability != matches[j].availability)
        <==> ReconcileAll(matches, ids) != matches
  {
    var r := ReconcileAll(matches, ids);
    if forall j | 0 <= j < |matches| :: r[j].availability == matches[j].availability {
      assert forall j | 0 <= j < |matches| :: r[j] == matches[j];
    }
  }

  /** The effect inside `setMatches` for one match: add null for every roster player who is
      missing, then delete every key that is not a roster id. */
  method ReconcileAvailability(availability: Availability, players: seq<Player>) returns (updated: Availability)
    ensures updated == Reconciled(availability, PlayerIds(players))
  {
    updated := availability;
    for i := 0 to |players|
      invariant forall id :: id in updated <==> id in availability || exists j :: 0 <= j < i && players[j].id == id
      invariant forall id :: id in updated ==> updated[id] == StatusOf(availability, id)
    {
      if players[i].id !in updated {
        updated := updated[players[i].id := None];
      }
    }
    var playerIds := set p | p in players :: p.id;
    ghost var added := updated;
    var keys := updated.Keys;
    while keys != {}
      invariant keys <= added.Keys
      invariant forall id :: id in updated <==> id in added && (id in keys || id in playerIds)
      invariant forall id :: id in updated ==> updated[id] == added[id]
      decreases keys
    {
      var id :| id in keys;
      if id !in playerIds {
        updated := updated - {id};
      }
      keys := keys - {id};
    }
    assert updated.Keys == PlayerIds(players);
  }

  /** The availability of a new match: null for every current player. */
  method InitialAvailability(players: seq<Player>) returns (availability: Availability)
    ensures availability == Reconciled(map[], PlayerIds(players))
    ensures forall id :: id in availability ==> availability[id] == None
  {
    availability := map[];
    for i := 0 to |players|
      invariant availability.Keys == set j | 0 <= j < i :: players[j].id
      invariant forall id :: id in availability ==> availability[id] == None
    {
      availability := availability[players[i].id := None];
    }
  }

  /** The record `handleAddMatch` builds. */
  function NewMatch(matchId: string, matchDate: string, createdAt: string, players: seq<Player>): Match
  {
    Match(matchId, matchDate, createdAt, Reconciled(map[], PlayerIds(players)))
  }

  /** The `matches.map` of `handleUpdateAvailability`. */
  function SetStatusIn(matches: seq<Match>, matchId: string, playerId: string, status: Option<Status>): (r: seq<Match>)
    ensures |r| == |matches|
  {
    seq(|matches|, i requires 0 <= i < |matches| =>
      if matches[i].matchId == matchId
      then matches[i].(availability := WithStatus(matches[i].availability, playerId, status))
      else matches[i])
  }

  /** Setting a status touches only that player in the matches with that id: null removes
      the key, a status sets it, and every other match and entry is as before. */
  lemma SetStatusInChangesOnlyTarget(matches: seq<Match>, matchId: string, playerId: string, status: Option<Status>)
    ensures var r := SetStatusIn(matches, matchId, playerId, status);
      forall i :: 0 <= i < |r| ==>
        && (matches[i].matchId != matchId ==> r[i] == matches[i])
        && (matches[i].matchId == matchId ==>
              && r[i] == matches[i].(availability := r[i].availability)
              && StatusOf(r[i].availability, playerId) == status
              && (status.None? ==> playerId !in r[i].availability)
              && (forall id :: id != playerId ==> StatusOf(r[i].availability, id) == StatusOf(matches[i].availability, id)))
  {
  }

  /** The `matches.map` of `handleEditMatch`. */
  function WithDate(matches: seq<Match>, matchId: string, newDate: string): (r: seq<Match>)
    ensures |r| == |matches|
  {
    seq(|matches|, i requires 0 <= i < |matches| =>
      if matches[i].matchId == matchId then matches[i].(matchDate := newDate) else matches[i])
  }

  /** Editing changes the date of the matches with that id, and nothing else. */
  lemma WithDateChangesOnlyDate(matches: seq<Match>, matchId: string, newDate: string)
    ensures var r := WithDate(matches, matchId, newDate);
      forall i :: 0 <= i < |r| ==>
        && r[i].matchId == matches[i].matchId
        && r[i].createdAt == matches[i].createdAt
        && r[i].availability == matches[i].availability
        && r[i].matchDate == (if matches[i].matchId == matchId then newDate else matches[i].matchDate)
  {
  }

  function OtherThan(matchId: string): Match -> bool
  {
    (m: Match) => m.matchId != matchId
  }

  /** `handleDeleteMatch` removes every match with that id and keeps the rest in order. */
  lemma DeleteRemovesExactly(matches: seq<Match>, matchId: string) returns (idx: seq<nat>)
    ensures var r := Filter(matches, OtherThan(matchId));
      && (forall m :: m in r <==> m in matches && m.matchId != matchId)
      && |idx| == |r|
      && (forall k :: 0 <= k < |idx| ==> idx[k] < |matches| && matches[idx[k]] == r[k])
      && (forall k, l :: 0 <= k < l < |idx| ==> idx[k] < idx[l])
      && (forall i :: 0 <= i < |matches| ==> (i in idx <==> matches[i].matchId != matchId))
  {
    idx := FilterIndices(matches, OtherThan(matchId));
  }

  class MatchManager {
    /** The React state `matches`. */
    var matches: seq<Match>
    const storage: Storage

    constructor (storage: Storage)
      ensures this.storage == storage && matches == []
    {
      this.storage := storage;
      matches := [];
    }

    /** The mount effect: clean up storage, then load the future matches sorted by date. */
    method Mount(now: Instant)
      modifies this, storage
      ensures storage.storedMatches == CleanupResult(old(storage.storedMatches), now).stored
      ensures storage.storedPlayers == old(storage.storedPlayers)
      ensures matches == SortByDate(FilterPastMatches(old(storage.storedMatches), now))
    {
      var removed := storage.CleanupPastMatches(now);
      var loadedMatches := storage.GetFutureMatches(now);
      matches := SortByDate(loadedMatches);
      CleanupKeepsVisible(old(storage.storedMatches), now);
    }

    /** The hourly timer and the visibility handler: clean up, and reload only when a match
        was removed. */
    method CheckForPastMatches(now: Instant)
      modifies this, storage
      ensures storage.storedMatches == CleanupResult(old(storage.storedMatches), now).stored
      ensures storage.storedPlayers == old(storage.storedPlayers)
      ensures matches == if CleanupResult(old(storage.storedMatches), now).removed != []
                         then SortByDate(FilterPastMatches(old(storage.storedMatches), now))
                         else old(matches)
    {
      var removedMatches := storage.CleanupPastMatches(now);
      if |removedMatches| > 0 {
        var updatedMatches := storage.GetFutureMatches(now);
        matches := SortByDate(updatedMatches);
        CleanupKeepsVisible(old(storage.storedMatches), now);
      }
    }

    /** The effect that runs when `players` changes: reconcile every match, and save and
        replace the state only when some availability map changed. */
    method ReconcileWithRoster(players: seq<Player>, now: Instant)
      modifies this, storage
      ensures matches == ReconcileAll(old(matches), PlayerIds(players))
      ensures storage.storedMatches == if matches == old(matches) then old(storage.storedMatches)
                                       else Saved(matches, now)
      ensures storage.storedPlayers == old(storage.storedPlayers)
    {
      var currentMatches := matches;
      ghost var ids := PlayerIds(players);
      var updatedMatches: seq<Match> := [];
      for i := 0 to |currentMatches|
        modifies {}
        invariant |updatedMatches| == i
        invariant forall j :: 0 <= j < i ==>
          updatedMatches[j] == currentMatches[j].(availability := Reconciled(currentMatches[j].availability, ids))
      {
        var updatedAvailability := ReconcileAvailability(currentMatches[i].availability, players);
        updatedMatches := updatedMatches + [currentMatches[i].(availability := updatedAvailability)];
      }
      assert updatedMatches == ReconcileAll(currentMatches, ids);
      var hasChanges := exists j | 0 <= j < |updatedMatches| ::
        updatedMatches[j].availability != currentMatches[j].availability;
      ChangedIff(currentMatches, ids);
      if hasChanges {
        storage.SaveMatches(updatedMatches, now);
        matches := updatedMatches;
      }
    }

    /** `handleAddMatch`: the new match, with null for every current player, joins the list,
        which is sorted by date and saved. */
    method AddMatch(matchDate: string, matchId: string, createdAt: string, players: seq<Player>, now: Instant)
      modifies this, storage
      ensures matches == SortByDate(old(matches) + [NewMatch(matchId, matchDate, createdAt, players)])
      ensures multiset(matches) == multiset(old(matches)) + multiset{NewMatch(matchId, matchDate, createdAt, players)}
      ensures SortedBy(matches, DateKey)
      ensures storage.storedMatches == Saved(matches, now)
      ensures storage.storedPlayers == old(storage.storedPlayers)
    {
      var availability := InitialAvailability(players);
      var newMatch := Match(matchId, matchDate, createdAt, availability);
      var updatedMatches := SortByDate(matches + [newMatch]);
      matches := updatedMatches;
      storage.SaveMatches(updatedMatches, now);
    }

    /** `handleUpdateAvailability`: set or clear one player's status in one match, then save. */
    method UpdateAvailability(matchId: string, playerId: string, status: Option<Status>, now: Instant)
      modifies this, storage
      ensures matches == SetStatusIn(old(matches), matchId, playerId, status)
      ensures storage.storedMatches == Saved(matches, now)
      ensures storage.storedPlayers == old(storage.storedPlayers)
    {
      var updatedMatches := SetStatusIn(matches, matchId, playerId, status);
      matches := updatedMatches;
      storage.SaveMatches(updatedMatches, now);
    }

    /** `handleEditMatch`: change the date, sort, save, and reload from storage so that a
        match moved into the past disappears. The state is the retained matches, in order. */
    method EditMatch(matchId: string, newDate: string, now: Instant)
      modifies this, storage
      ensures matches == Filter(SortByDate(WithDate(old(matches), matchId, newDate)), Retained(now))
      ensures SortedBy(matches, DateKey)
      ensures forall m :: m in matches ==> IsRetained(m, now)
      ensures storage.storedMatches == Saved(SortByDate(WithDate(old(matches), matchId, newDate)), now)
      ensures storage.storedPlayers == old(storage.storedPlayers)
    {
      var updatedMatches := WithDate(matches, matchId, newDate);
      var sortedMatches := SortByDate(updatedMatches);
      storage.SaveMatches(sortedMatches, now);
      var filteredMatches := storage.GetFutureMatches(now);
      FutureMatchesAfterSave(sortedMatches, now);
      FilterKeepsSorted(sortedMatches, Retained(now), DateKey);
      SortSortedIsIdentity(filteredMatches, DateKey);
      matches := SortByDate(filteredMatches);
    }

    /** `handleDeleteMatch`: drop the matches with that id, then save. */
    method DeleteMatch(matchId: string, now: Instant)
      modifies this, storage
      ensures matches == Filter(old(matches), OtherThan(matchId))
      ensures storage.storedMatches == Saved(matches, now)
      ensures storage.storedPlayers == old(storage.storedPlayers)
    {
      var updatedMatches := Filter(matches, OtherThan(matchId));
      matches := updatedMatches;
      storage.SaveMatches(updatedMatches, now);
    }
  }
}
