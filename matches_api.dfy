/** The match operations of the API (`api/lib/matches.js`) on the tables of `Db`. */
module MatchesApi {
  import opened Wrappers
  import opened Text
  import opened Ledger
  import opened Db

  /** One element of the `json_agg` availability column. */
  datatype AggregateItem = AggregateItem(playerId: Option<string>, status: Option<Status>)

  /** One row of the `getMatches` query; `availability` is `None` when `json_agg` found no rows. */
  datatype MatchQueryRow = MatchQueryRow(id: string, matchDate: int, createdAt: int,
                                         availability: Option<seq<Option<AggregateItem>>>)

  /** A match as the API returns it. */
  datatype ApiMatch = ApiMatch(matchId: string, matchDate: int, createdAt: int, availability: Availability)

  /** `item && item.player_id`: the item is not null and has a non-empty player id. */
  predicate Counts(item: Option<AggregateItem>)
  {
    item.Some? && item.value.playerId.Some? && item.value.playerId.value != ""
  }

  /** The object the `forEach` fills: one key per counted item, a later item overwriting an
      earlier one with the same player id. */
  function AvailabilityOf(items: seq<Option<AggregateItem>>): (r: Availability)
    ensures forall k :: k in r <==> exists i :: 0 <= i < |items| && Counts(items[i]) && items[i].value.playerId.value == k
  {
    if items == [] then map[]
    else
      var init := AvailabilityOf(items[..|items| - 1]);
      var last := items[|items| - 1];
      assert forall i :: 0 <= i < |items| - 1 ==> items[..|items| - 1][i] == items[i];
      if Counts(last) then init[last.value.playerId.value := last.value.status] else init
  }

  /** A counted item that no later item overrides gives its player's entry. */
  lemma {:induction false} AvailabilityOfLastWins(items: seq<Option<AggregateItem>>, i: nat)
    requires i < |items| && Counts(items[i])
    requires forall j :: i < j < |items| && Counts(items[j]) ==> items[j].value.playerId != items[i].value.playerId
    ensures AvailabilityOf(items)[items[i].value.playerId.value] == items[i].value.status
  {
    if i < |items| - 1 {
      var init := items[..|items| - 1];
      assert init[i] == items[i];
      AvailabilityOfLastWins(init, i);
    }
  }

  /** The formatting of the `availability` column of one row. */
  method FormatAvailability(aggregate: Option<seq<Option<AggregateItem>>>) returns (availability: Availability)
    ensures availability == if aggregate.Some? then AvailabilityOf(aggregate.value) else map[]
  {
    availability := map[];
    if aggregate.Some? {
      var items := aggregate.value;
      for i := 0 to |items|
        invariant availability == AvailabilityOf(items[..i])
      {
        assert items[..i + 1][..i] == items[..i];
        var item := items[i];
        if item.Some? && item.value.playerId.Some? && item.value.playerId.value != "" {
          availability := availability[item.value.playerId.value := item.value.status];
        }
      }
      assert items[..|items|] == items;
    }
  }

  /** The `matches.rows.map` callback: rename the columns and format the availability. */
  method FormatMatch(row: MatchQueryRow) returns (m: ApiMatch)
    ensures m.matchId == row.id && m.matchDate == row.matchDate && m.createdAt == row.createdAt
    ensures m.availability == if row.availability.Some? then AvailabilityOf(row.availability.value) else map[]
  {
    var availability := FormatAvailability(row.availability);
    m := ApiMatch(row.id, row.matchDate, row.createdAt, availability);
  }

  /** The recorded availability of one match: each of its records with a non-empty player id,
      valued at the record's status. */
  function RecordedAvailability(rows: map<Pair, AvailabilityRow>, matchId: string): Availability
  {
    map pair | pair in rows && pair.0 == matchId && pair.1 != "" :: pair.1 := rows[pair].status
  }

  /** The ids of matches dated today or later: `WHERE m.match_date >= CURRENT_DATE`. */
  function Upcoming(matches: map<string, MatchRow>, today: int): set<string>
  {
    set id | id in matches && matches[id].matchDate >= today
  }

  /** What `getMatches` shows of match `matchId`. */
  function Shown(matches: map<string, MatchRow>, rows: map<Pair, AvailabilityRow>, matchId: string): ApiMatch
    requires matchId in matches
  {
    ApiMatch(matchId, matches[matchId].matchDate, matches[matchId].createdAt, RecordedAvailability(rows, matchId))
  }

  /** `items` lists every record of match `matchId` exactly once, with its status. */
  ghost predicate ListsRecords(rows: map<Pair, AvailabilityRow>, matchId: string, items: seq<Option<AggregateItem>>)
  {
    && (forall i :: 0 <= i < |items| ==>
          && items[i].Some? && items[i].value.playerId.Some?
          && (matchId, items[i].value.playerId.value) in rows
          && items[i].value.status == rows[(matchId, items[i].value.playerId.value)].status)
    && (forall i, j :: 0 <= i < j < |items| ==> items[i].value.playerId != items[j].value.playerId)
    && (forall playerId :: (matchId, playerId) in rows ==>
          exists i :: 0 <= i < |items| && items[i].value.playerId == Some(playerId))
  }

  /** The `json_agg` of the `LEFT JOIN` for one match: one item per record of the match, in
      an unspecified order. */
  method Aggregate(rows: map<Pair, AvailabilityRow>, matchId: string) returns (items: seq<Option<AggregateItem>>)
    ensures ListsRecords(rows, matchId, items)
  {
    var rest := set pair | pair in rows && pair.0 == matchId :: pair.1;
    items := [];
    while rest != {}
      invariant forall i :: 0 <= i < |items| ==>
        && items[i].Some? && items[i].value.playerId.Some?
        && (matchId, items[i].value.playerId.value) in rows && items[i].value.playerId.value !in rest
        && items[i].value.status == rows[(matchId, items[i].value.playerId.value)].status
      invariant forall i, j :: 0 <= i < j < |items| ==> items[i].value.playerId != items[j].value.playerId
      invariant forall playerId :: (matchId, playerId) in rows ==>
        playerId in rest || exists i :: 0 <= i < |items| && items[i].value.playerId == Some(playerId)
      invariant forall playerId :: playerId in rest ==> (matchId, playerId) in rows
      decreases |rest|
    {
      var playerId :| playerId in rest;
      ghost var listed := items;
      items := items + [Some(AggregateItem(Some(playerId), rows[(matchId, playerId)].status))];
      forall other | (matchId, other) in rows && other !in rest - {playerId}
        ensures exists i :: 0 <= i < |items| && items[i].value.playerId == Some(other)
      {
        if other == playerId {
          assert items[|listed|].value.playerId == Some(other);
        } else {
          var i :| 0 <= i < |listed| && listed[i].value.playerId == Some(other);
          assert items[i] == listed[i];
        }
      }
      rest := rest - {playerId};
    }
  }

  /** Formatting an aggregate that lists each record of a match once gives the match's
      recorded availability. */
  lemma FormattedIsRecorded(rows: map<Pair, AvailabilityRow>, matchId: string, items: seq<Option<AggregateItem>>)
    requires ListsRecords(rows, matchId, items)
    ensures AvailabilityOf(items) == RecordedAvailability(rows, matchId)
  {
    var a := AvailabilityOf(items);
    var b := RecordedAvailability(rows, matchId);
    forall k | k in a
      ensures k in b && a[k] == b[k]
    {
      var i :| 0 <= i < |items| && Counts(items[i]) && items[i].value.playerId.value == k;
      AvailabilityOfLastWins(items, i);
    }
    forall k | k in b
      ensures k in a
    {
      var i :| 0 <= i < |items| && items[i].value.playerId == Some(k);
      assert Counts(items[i]);
    }
  }

  /** `getMatches`: every match dated today or later, each once, in ascending date order,
      with its recorded availability. */
  method GetMatches(db: Database, today: int) returns (formatted: seq<ApiMatch>)
    ensures forall i :: 0 <= i < |formatted| ==>
      formatted[i].matchId in Upcoming(db.matches, today)
      && formatted[i] == Shown(db.matches, db.availability, formatted[i].matchId)
    ensures forall id :: id in Upcoming(db.matches, today) <==> exists i :: 0 <= i < |formatted| && formatted[i].matchId == id
    ensures forall i, j :: 0 <= i < j < |formatted| ==>
      formatted[i].matchId != formatted[j].matchId && formatted[i].matchDate <= formatted[j].matchDate
  {
    var rank := map id | id in db.matches :: db.matches[id].matchDate;
    var ids := OrderBy(Upcoming(db.matches, today), rank);
    formatted := [];
    for i := 0 to |ids|
      invariant |formatted| == i
      invariant forall j :: 0 <= j < i ==> formatted[j] == Shown(db.matches, db.availability, ids[j])
    {
      assert ids[i] in Upcoming(db.matches, today);
      var items := Aggregate(db.availability, ids[i]);
      FormattedIsRecorded(db.availability, ids[i], items);
      var row := MatchQueryRow(ids[i], db.matches[ids[i]].matchDate, db.matches[ids[i]].createdAt,
                               if items == [] then None else Some(items));
      var m := FormatMatch(row);
      formatted := formatted + [m];
    }
    forall id | id in Upcoming(db.matches, today)
      ensures exists i :: 0 <= i < |formatted| && formatted[i].matchId == id
    {
      var i :| 0 <= i < |ids| && ids[i] == id;
      assert formatted[i].matchId == id;
    }
  }

  const DuplicateDateMessage := "A match on this date already exists"
  const TablesMissingMessage := "Database tables not found. Please run the schema.sql file in your Vercel Postgres database."

  /** The `catch` of `createMatch`: a message that mentions a missing relation becomes the
      "tables not found" message; any other message is rethrown as it is. */
  function RethrownMessage(message: string): (r: string)
    ensures Contains(message, "relation") || Contains(message, "does not exist") ==> r == TablesMissingMessage
    ensures !Contains(message, "relation") && !Contains(message, "does not exist") ==> r == message
  {
    if Contains(message, "relation") || Contains(message, "does not exist") then TablesMissingMessage else message
  }

  /** Rewriting a rethrown message again changes nothing. */
  lemma RethrownMessageIdempotent(message: string)
    ensures RethrownMessage(RethrownMessage(message)) == RethrownMessage(message)
  {
    if RethrownMessage(message) == TablesMissingMessage {
      assert RethrownMessage(TablesMissingMessage) == TablesMissingMessage;
    }
  }

  /** The duplicate-date error passes through the rewrite unchanged: the message includes
      neither "relation" nor "does not exist". */
  lemma DuplicateDateMessagePassesThrough()
    ensures RethrownMessage(DuplicateDateMessage) == DuplicateDateMessage
  {
    var m := DuplicateDateMessage;
    forall i | 0 <= i < |m| - 1
      ensures !(m[i] == 'd' && m[i + 1] == 'o') && !(m[i] == 'e' && m[i + 1] == 'l')
    {
    }
    NotContainsWithoutPair(m, "does not exist");
    NotContainsWithoutPair(m, "elation");
    assert "relation"[1..] == "elation";
    if Contains(m, "relation") {
      ContainsDropFirst(m, "relation");
    }
  }

  /** Some match is already on this day: `SELECT id FROM matches WHERE match_date = ...`. */
  predicate DateTaken(matches: map<string, MatchRow>, matchDate: int)
  {
    exists id :: id in matches && matches[id].matchDate == matchDate
  }

  /** `createMatch(matchDate)`, with `matchId` the generated id and `dbError` the message of
      an error the database raises on the first statement (as when the tables are missing). */
  method CreateMatch(db: Database, matchDate: int, matchId: string, now: int, dbError: Option<string>)
    returns (r: Result<ApiMatch, string>)
    requires matchId !in db.matches
    modifies db
    ensures dbError.Some? ==> r == Err(RethrownMessage(dbError.value))
    ensures dbError.None? && DateTaken(old(db.matches), matchDate) ==> r == Err(DuplicateDateMessage)
    ensures r.Err? ==> db.matches == old(db.matches) && db.availability == old(db.availability)
    ensures dbError.None? && !DateTaken(old(db.matches), matchDate) ==>
      && r == Ok(ApiMatch(matchId, matchDate, now, map[]))
      && db.matches == old(db.matches)[matchId := MatchRow(matchDate, now)]
      && db.availability == WithPlaceholders(old(db.availability), set id | id in old(db.players) :: (matchId, id), now)
    ensures db.players == old(db.players)
  {
    if dbError.Some? {
      return Err(RethrownMessage(dbError.value));
    }
    var existing := set id | id in db.matches && db.matches[id].matchDate == matchDate;
    if existing != {} {
      DuplicateDateMessagePassesThrough();
      return Err(RethrownMessage(DuplicateDateMessage));
    }
    forall id | id in db.matches
      ensures db.matches[id].matchDate != matchDate
    {
      assert id !in existing;
    }
    db.matches := db.matches[matchId := MatchRow(matchDate, now)];
    var pairs := set id | id in db.players :: (matchId, id);
    db.InsertPlaceholders(pairs, now);
    r := Ok(ApiMatch(matchId, matchDate, now, map[]));
  }

  /** A new match shows every player as not having responded. */
  lemma CreatedMatchAllPending(rows: map<Pair, AvailabilityRow>, players: map<string, PlayerRow>, matchId: string, now: int)
    requires forall pair :: pair in rows ==> pair.0 != matchId
    ensures var shown := RecordedAvailability(WithPlaceholders(rows, set id | id in players :: (matchId, id), now), matchId);
      && shown.Keys == players.Keys - {""}
      && forall id :: id in shown ==> shown[id] == None
  {
    var pairs := set id | id in players :: (matchId, id);
    var shown := RecordedAvailability(WithPlaceholders(rows, pairs, now), matchId);
    forall id | id in players && id != ""
      ensures id in shown
    {
      assert (matchId, id) in pairs;
    }
  }

  /** `updateMatch`: the date of that match changes, and nothing else. */
  method UpdateMatch(db: Database, matchId: string, newDate: int)
    modifies db`matches
    ensures db.matches == if matchId in old(db.matches)
      then old(db.matches)[matchId := old(db.matches)[matchId].(matchDate := newDate)]
      else old(db.matches)
  {
    if matchId in db.matches {
      db.matches := db.matches[matchId := db.matches[matchId].(matchDate := newDate)];
    }
  }

  /** `deleteMatch`: the match row goes. What happens to its availability records depends on
      the schema, which is not part of this model. */
  method DeleteMatch(db: Database, matchId: string)
    modifies db`matches
    ensures db.matches == old(db.matches) - {matchId}
  {
    db.matches := db.matches - {matchId};
  }

  /** The table after `updateAvailability`: a null status deletes the record, any other
      status inserts it or updates it in place. */
  function WithRecord(rows: map<Pair, AvailabilityRow>, pair: Pair, status: Option<Status>, now: int): map<Pair, AvailabilityRow>
  {
    if status.None? then rows - {pair} else rows[pair := AvailabilityRow(status, now)]
  }

  /** `updateAvailability(matchId, playerId, status)`. */
  method UpdateAvailability(db: Database, matchId: string, playerId: string, status: Option<Status>, now: int)
    modifies db`availability
    ensures db.availability == WithRecord(old(db.availability), (matchId, playerId), status, now)
  {
    if status.None? {
      db.availability := db.availability - {(matchId, playerId)};
    } else {
      db.availability := db.availability[(matchId, playerId) := AvailabilityRow(status, now)];
    }
  }

  /** Which players the recorded availability of a match lists, and with what status. */
  lemma RecordedAvailabilityAt(rows: map<Pair, AvailabilityRow>, matchId: string, playerId: string)
    ensures playerId in RecordedAvailability(rows, matchId) <==> (matchId, playerId) in rows && playerId != ""
    ensures playerId in RecordedAvailability(rows, matchId) ==>
      RecordedAvailability(rows, matchId)[playerId] == rows[(matchId, playerId)].status
  {
    if (matchId, playerId) in rows && playerId != "" {
      var pair := (matchId, playerId);
      assert pair.1 == playerId;
    }
  }

  /** The server rule is the browser's: the match's shown availability changes as the
      browser's `handleUpdateAvailability` changes the map. */
  lemma WithRecordIsWithStatus(rows: map<Pair, AvailabilityRow>, matchId: string, playerId: string,
                               status: Option<Status>, now: int)
    requires playerId != ""
    ensures RecordedAvailability(WithRecord(rows, (matchId, playerId), status, now), matchId)
         == WithStatus(RecordedAvailability(rows, matchId), playerId, status)
  {
    var updated := WithRecord(rows, (matchId, playerId), status, now);
    var a := RecordedAvailability(updated, matchId);
    var b := WithStatus(RecordedAvailability(rows, matchId), playerId, status);
    forall k
      ensures k in a <==> k in b
      ensures k in a ==> a[k] == b[k]
    {
      RecordedAvailabilityAt(updated, matchId, k);
      RecordedAvailabilityAt(rows, matchId, k);
    }
  }

  /** Setting one match's record leaves every other match's shown availability alone. */
  lemma WithRecordKeepsOtherMatches(rows: map<Pair, AvailabilityRow>, matchId: string, playerId: string,
                                    status: Option<Status>, now: int, other: string)
    requires other != matchId
    ensures RecordedAvailability(WithRecord(rows, (matchId, playerId), status, now), other)
         == RecordedAvailability(rows, other)
  {
    var updated := WithRecord(rows, (matchId, playerId), status, now);
    forall k
      ensures k in RecordedAvailability(updated, other) <==> k in RecordedAvailability(rows, other)
      ensures k in RecordedAvailability(rows, other) ==>
        RecordedAvailability(updated, other)[k] == RecordedAvailability(rows, other)[k]
    {
      RecordedAvailabilityAt(updated, other, k);
      RecordedAvailabilityAt(rows, other, k);
    }
  }

  /** The past matches: `WHERE match_date < CURRENT_DATE`. */
  function Past(matches: map<string, MatchRow>, today: int): set<string>
  {
    set id | id in matches && matches[id].matchDate < today
  }

  /** `cleanupPastMatches`: delete the past matches and report how many there were. */
  method CleanupPastMatches(db: Database, today: int) returns (deletedCount: nat)
    modifies db`matches
    ensures db.matches == map id | id in old(db.matches) && old(db.matches)[id].matchDate >= today :: old(db.matches)[id]
    ensures deletedCount == |Past(old(db.matches), today)|
  {
    var deleted := Past(db.matches, today);
    db.matches := map id | id in db.matches && db.matches[id].matchDate >= today :: db.matches[id];
    deletedCount := |deleted|;
  }

  /** Cleanup deletes exactly the complement of what `getMatches` shows: the past and the
      shown matches split the table, and what is left is what was shown. */
  lemma CleanupIsComplementOfShown(matches: map<string, MatchRow>, today: int)
    ensures Past(matches, today) !! Upcoming(matches, today)
    ensures Past(matches, today) + Upcoming(matches, today) == matches.Keys
    ensures |Past(matches, today)| + |Upcoming(matches, today)| == |matches.Keys|
    ensures var kept := map id | id in matches && matches[id].matchDate >= today :: matches[id];
      kept.Keys == Upcoming(matches, today) && Upcoming(kept, today) == Upcoming(matches, today)
  {
    var past, upcoming := Past(matches, today), Upcoming(matches, today);
    assert past + upcoming == matches.Keys;
    assert |past + upcoming| == |past| + |upcoming| by {
      DisjointUnionSize(past, upcoming);
    }
  }

  lemma {:induction false} DisjointUnionSize<K>(a: set<K>, b: set<K>)
    requires a !! b
    ensures |a + b| == |a| + |b|
  {
    if a != {} {
      var x :| x in a;
      DisjointUnionSize(a - {x}, b);
      assert a + b == (a - {x}) + b + {x};
    }
  }
}
