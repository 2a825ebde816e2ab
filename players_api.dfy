/** The player operations of the API (`api/lib/players.js`) on the tables of `Db`. */
module PlayersApi {
  import opened Wrappers
  import opened Ledger
  import opened Db
  import opened MatchesApi

  /** `getPlayers`: every player row once, projected to id and name, oldest first. */
  method GetPlayers(db: Database) returns (players: seq<Player>)
    ensures forall id :: id in db.players <==> exists i :: 0 <= i < |players| && players[i].id == id
    ensures forall i :: 0 <= i < |players| ==> players[i].id in db.players && players[i].name == db.players[players[i].id].name
    ensures forall i, j :: 0 <= i < j < |players| ==>
      players[i].id != players[j].id && db.players[players[i].id].createdAt <= db.players[players[j].id].createdAt
  {
    var rank := map id | id in db.players :: db.players[id].createdAt;
    var ids := OrderBy(db.players.Keys, rank);
    var rows := db.players;
    players := seq(|ids|, i requires 0 <= i < |ids| => Player(ids[i], rows[ids[i]].name));
    forall id | id in db.players
      ensures exists i :: 0 <= i < |players| && players[i].id == id
    {
      var i :| 0 <= i < |ids| && ids[i] == id;
      assert players[i].id == id;
    }
  }

  /** `createPlayer(name)`, with `playerId` the generated id: one new row, returned as it was
      inserted. */
  method CreatePlayer(db: Database, name: string, playerId: string, now: int) returns (player: Player)
    requires playerId !in db.players
    modifies db`players
    ensures db.players == old(db.players)[playerId := PlayerRow(name, now)]
    ensures player == Player(playerId, name)
  {
    db.players := db.players[playerId := PlayerRow(name, now)];
    player := Player(playerId, name);
  }

  /** `updatePlayer`: the name of that row changes, and nothing else. */
  method UpdatePlayer(db: Database, playerId: string, newName: string)
    modifies db`players
    ensures db.players == if playerId in old(db.players)
      then old(db.players)[playerId := old(db.players)[playerId].(name := newName)]
      else old(db.players)
  {
    if playerId in db.players {
      db.players := db.players[playerId := db.players[playerId].(name := newName)];
    }
  }

  /** `deletePlayer`: the player row goes. What happens to its availability records depends
      on the schema, which is not part of this model. */
  method DeletePlayer(db: Database, playerId: string)
    modifies db`players
    ensures db.players == old(db.players) - {playerId}
  {
    db.players := db.players - {playerId};
  }

  /** The pairs `initializePlayerAvailability` inserts: the player with every match dated
      today or later. */
  function UpcomingPairs(matches: map<string, MatchRow>, playerId: string, today: int): set<Pair>
  {
    set id | id in Upcoming(matches, today) :: (id, playerId)
  }

  /** `initializePlayerAvailability(playerId)`: a NULL placeholder for the player in every
      match dated today or later, never overwriting a record. */
  method InitializePlayerAvailability(db: Database, playerId: string, today: int, now: int)
    modifies db`availability
    ensures db.availability == WithPlaceholders(old(db.availability), UpcomingPairs(db.matches, playerId, today), now)
  {
    var matchIds := set id | id in db.matches && db.matches[id].matchDate >= today;
    var pairs := set id | id in matchIds :: (id, playerId);
    db.InsertPlaceholders(pairs, now);
  }

  /** After initialization the player has a record in every upcoming match, and it is a
      fresh NULL one exactly where there was none; past matches gain nothing, and no
      existing record changes. */
  lemma InitializeCoversUpcomingOnly(rows: map<Pair, AvailabilityRow>, matches: map<string, MatchRow>,
                                     playerId: string, today: int, now: int)
    ensures var r := WithPlaceholders(rows, UpcomingPairs(matches, playerId, today), now);
      && (forall id :: id in Upcoming(matches, today) ==> (id, playerId) in r)
      && (forall id :: id in matches && matches[id].matchDate < today ==>
            ((id, playerId) in r <==> (id, playerId) in rows))
      && (forall pair :: pair in rows ==> pair in r && r[pair] == rows[pair])
      && (forall id :: id in Upcoming(matches, today) && (id, playerId) !in rows ==>
            r[(id, playerId)] == AvailabilityRow(None, now))
  {
    var pairs := UpcomingPairs(matches, playerId, today);
    forall id | id in Upcoming(matches, today)
      ensures (id, playerId) in pairs
    {
    }
    forall id | id in matches && matches[id].matchDate < today
      ensures (id, playerId) !in pairs
    {
    }
  }
}
