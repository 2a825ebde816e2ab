/** The roster screen (`PlayerManager.jsx`): the player list and the search query, with
    every change persisted through `savePlayers`. */
module PlayerManager {
  import opened Wrappers
  import opened Seqs
  import opened Text
  import opened Ledger
  import opened Validation
  import opened LocalStorage
  import opened AddPlayerForm
  import opened PlayerList

  /** The `players.map` of `handleEditPlayer`: every player with id `playerId` gets `newName`. */
  function Renamed(players: seq<Player>, playerId: string, newName: string): (r: seq<Player>)
    ensures |r| == |players|
  {
    seq(|players|, i requires 0 <= i < |players| =>
      if players[i].id == playerId then players[i].(name := newName) else players[i])
  }

  /** Renaming touches only the name of the players with that id: ids, order and length stay. */
  lemma RenamedChangesOnlyName(players: seq<Player>, playerId: string, newName: string)
    ensures var r := Renamed(players, playerId, newName);
      && |r| == |players|
      && (forall i :: 0 <= i < |r| ==> r[i].id == players[i].id)
      && (forall i :: 0 <= i < |r| && players[i].id == playerId ==> r[i].name == newName)
      && (forall i :: 0 <= i < |r| && players[i].id != playerId ==> r[i] == players[i])
      && PlayerIds(r) == PlayerIds(players)
  {
    var r := Renamed(players, playerId, newName);
    forall id | id in PlayerIds(players)
      ensures id in PlayerIds(r)
    {
      var p :| p in players && p.id == id;
      var i :| 0 <= i < |players| && players[i] == p;
      assert r[i].id == id;
    }
  }

  /** Keeps the players whose id is not `playerId`. */
  function NotId(playerId: string): Player -> bool
  {
    (p: Player) => p.id != playerId
  }

  /** The `players.filter` of a confirmed `handleDeletePlayer`. */
  function Without(players: seq<Player>, playerId: string): seq<Player>
  {
    Filter(players, NotId(playerId))
  }

  /** Deleting removes exactly the players with that id and keeps the others in order. */
  lemma WithoutRemovesExactly(players: seq<Player>, playerId: string) returns (idx: seq<nat>)
    ensures var r := Without(players, playerId);
      && SelectsExactly(players, NotId(playerId), r, idx)
      && (forall p :: p in r <==> p in players && p.id != playerId)
      && PlayerIds(r) == PlayerIds(players) - {playerId}
  {
    idx := FilterIndices(players, NotId(playerId));
  }

  /** The search test: the lower-cased name includes the lower-cased query. */
  function MatchesQuery(query: string): Player -> bool
  {
    (p: Player) => Contains(ToLower(p.name), ToLower(query))
  }

  /** `filteredPlayers`: the players the search shows, in roster order. */
  function SearchResults(players: seq<Player>, query: string): seq<Player>
  {
    Filter(players, MatchesQuery(query))
  }

  /** The search keeps, in order, exactly the players whose name includes the query up to
      letter case. */
  lemma SearchSelects(players: seq<Player>, query: string) returns (idx: seq<nat>)
    ensures SelectsExactly(players, MatchesQuery(query), SearchResults(players, query), idx)
    ensures forall p :: p in SearchResults(players, query) <==>
      p in players && Contains(ToLower(p.name), ToLower(query))
  {
    idx := FilterIndices(players, MatchesQuery(query));
  }

  /** An empty query shows everyone. */
  lemma EmptyQueryKeepsEveryone(players: seq<Player>)
    ensures SearchResults(players, "") == players
  {
    forall i | 0 <= i < |players|
      ensures MatchesQuery("")(players[i])
    {
      assert ToLower("") == "";
      ContainsEmpty(ToLower(players[i].name));
    }
    FilterAllPass(players, MatchesQuery(""));
  }

  /** The letter case of the query does not matter. */
  lemma SearchIgnoresQueryCase(players: seq<Player>, query: string)
    ensures SearchResults(players, ToLower(query)) == SearchResults(players, query)
  {
    ToLowerIdempotent(query);
    FilterCongruent(players, MatchesQuery(ToLower(query)), MatchesQuery(query));
  }

  /** Player ids in a roster are pairwise different. */
  predicate IdsDistinct(players: seq<Player>)
  {
    forall i, j :: 0 <= i < j < |players| ==> players[i].id != players[j].id
  }

  /** Adding a name the add form accepted, checked against the whole roster, keeps the
      names distinct. */
  lemma AddKeepsNamesDistinct(players: seq<Player>, input: string, newId: string)
    requires NamesDistinct(players)
    requires ValidateName(input, players, None).Accepted?
    ensures NamesDistinct(players + [Player(newId, ValidateName(input, players, None).value)])
  {
    var s := players + [Player(newId, ValidateName(input, players, None).value)];
    forall i, j | 0 <= i < j < |s|
      ensures !SameName(s[i].name, s[j].name)
    {
      if j == |players| {
        assert s[i] in players;
        assert !Clashes(s[i], s[j].name, None);
      } else {
        assert s[i] == players[i] && s[j] == players[j];
      }
    }
  }

  /** Renaming to a name the rename check accepted against the whole roster keeps the
      names distinct. */
  lemma RenameKeepsNamesDistinct(players: seq<Player>, playerId: string, input: string)
    requires NamesDistinct(players) && IdsDistinct(players)
    requires ValidateName(input, players, Some(playerId)).Accepted?
    ensures NamesDistinct(Renamed(players, playerId, ValidateName(input, players, Some(playerId)).value))
  {
    var name := ValidateName(input, players, Some(playerId)).value;
    var r := Renamed(players, playerId, name);
    forall i, j | 0 <= i < j < |r|
      ensures !SameName(r[i].name, r[j].name)
    {
      if players[i].id == playerId {
        assert players[j].id != playerId;
        assert !Clashes(players[j], name, Some(playerId));
      } else if players[j].id == playerId {
        assert !Clashes(players[i], name, Some(playerId));
      }
    }
  }

  /** The rename check as wired up: the list component is given `filteredPlayers`, so a
      rename is checked only against the players the current search shows. */
  function ValidateRenameAsWritten(players: seq<Player>, query: string, playerId: string, input: string): Verdict
  {
    ValidateName(input, SearchResults(players, query), Some(playerId))
  }

  /** With players "A" and "B" and the search "A", renaming "A" to "B" passes the check as
      wired up and leaves two players named "B". */
  lemma AsWrittenRenameCreatesDuplicate()
    ensures var players := [Player("a", "A"), Player("b", "B")];
      && NamesDistinct(players) && IdsDistinct(players)
      && ValidateRenameAsWritten(players, "A", "a", "B") == Accepted("B")
      && !NamesDistinct(Renamed(players, "a", "B"))
  {
    ExamplePlayersDistinct();
    AsWrittenRenameAccepted();
    ExampleRenameDuplicates();
  }

  /** Players "A" and "B" have distinct ids and distinct names. */
  lemma ExamplePlayersDistinct()
    ensures var players := [Player("a", "A"), Player("b", "B")];
      NamesDistinct(players) && IdsDistinct(players)
  {
    assert ToLower("A")[0] == 'a' && ToLower("B")[0] == 'b';
  }

  /** Searching "A", the rename of "A" to "B" is checked against "A" alone, and passes. */
  lemma AsWrittenRenameAccepted()
    ensures ValidateRenameAsWritten([Player("a", "A"), Player("b", "B")], "A", "a", "B") == Accepted("B")
  {
    SearchForAShowsOnlyA();
    RenamingOnlyShownPlayerAccepted();
  }

  /** Renaming "A" to "B" leaves two players named "B". */
  lemma ExampleRenameDuplicates()
    ensures !NamesDistinct(Renamed([Player("a", "A"), Player("b", "B")], "a", "B"))
  {
    var r := Renamed([Player("a", "A"), Player("b", "B")], "a", "B");
    assert r[0].name == "B" && r[1].name == "B";
    assert SameName(r[0].name, r[1].name);
  }

  /** Checked against a list holding only the renamed player, the rename to "B" passes. */
  lemma RenamingOnlyShownPlayerAccepted()
    ensures ValidateName("B", [Player("a", "A")], Some("a")) == Accepted("B")
  {
    assert Trim("B") == "B";
    assert !Clashes(Player("a", "A"), "B", Some("a"));
  }

  /** The search "A" over players "A" and "B" shows only "A". */
  lemma SearchForAShowsOnlyA()
    ensures SearchResults([Player("a", "A"), Player("b", "B")], "A") == [Player("a", "A")]
  {
    var players := [Player("a", "A"), Player("b", "B")];
    assert ToLower("A") == "a" && ToLower("B") == "b";
    assert Contains("a", "a") by { assert "a"[..1] == "a"; }
    assert !Contains("b", "a") by {
      assert !StartsWith("b", "a") by { assert "b"[..1][0] != "a"[0]; }
      assert "b"[1..] == "";
      assert !Contains("", "a");
    }
    assert players[..1] == [players[0]];
    assert Filter(players[..1], MatchesQuery("A")) == [players[0]];
  }

  class PlayerManager {
    var players: seq<Player>
    var searchQuery: string
    const storage: Storage

    constructor (storage: Storage)
      ensures this.storage == storage && players == [] && searchQuery == ""
    {
      this.storage := storage;
      players := [];
      searchQuery := "";
    }

    /** The mount effect: load the stored roster. */
    method Mount()
      modifies this
      ensures players == storage.storedPlayers && searchQuery == old(searchQuery)
    {
      players := storage.GetPlayers();
    }

    /** The search box's `onChange`. */
    method Search(query: string)
      modifies this
      ensures searchQuery == query && players == old(players)
    {
      searchQuery := query;
    }

    /** `filteredPlayers`, the list the screen shows. */
    method FilteredPlayers() returns (shown: seq<Player>)
      ensures shown == SearchResults(players, searchQuery)
      ensures forall p :: p in shown ==> p in players
    {
      shown := Filter(players, MatchesQuery(searchQuery));
    }

    /** `handleAddPlayer`: append one player with the given name and persist the list. */
    method AddPlayer(name: string, newId: string)
      modifies this, storage`storedPlayers
      ensures players == old(players) + [Player(newId, name)]
      ensures storage.storedPlayers == players
      ensures searchQuery == old(searchQuery)
    {
      var updatedPlayers := players + [Player(newId, name)];
      players := updatedPlayers;
      storage.SavePlayers(updatedPlayers);
    }

    /** `handleEditPlayer`: rename the player with that id and persist the list. */
    method EditPlayer(playerId: string, newName: string)
      modifies this, storage`storedPlayers
      ensures players == Renamed(old(players), playerId, newName)
      ensures storage.storedPlayers == players
      ensures searchQuery == old(searchQuery)
    {
      var updatedPlayers := Renamed(players, playerId, newName);
      players := updatedPlayers;
      storage.SavePlayers(updatedPlayers);
    }

    /** `handleDeletePlayer`, with `confirmed` the answer to the confirmation prompt: a
        confirmed delete removes the player and persists the list, otherwise nothing changes. */
    method DeletePlayer(playerId: string, confirmed: bool)
      modifies this, storage`storedPlayers
      ensures players == if confirmed then Without(old(players), playerId) else old(players)
      ensures storage.storedPlayers == if confirmed then players else old(storage.storedPlayers)
      ensures searchQuery == old(searchQuery)
    {
      if confirmed {
        var updatedPlayers := Filter(players, NotId(playerId));
        players := updatedPlayers;
        storage.SavePlayers(updatedPlayers);
      }
    }

    /** The add form submitted against the whole roster, then `handleAddPlayer` on success;
        distinct names stay distinct. */
    method SubmitNewPlayer(form: AddPlayerForm, newId: string)
      modifies this, storage`storedPlayers, form
      ensures match ValidateName(old(form.playerName), old(players), None)
        case Accepted(name) => players == old(players) + [Player(newId, name)] && storage.storedPlayers == players
        case Rejected(_) => players == old(players) && storage.storedPlayers == old(storage.storedPlayers)
      ensures NamesDistinct(old(players)) ==> NamesDistinct(players)
    {
      var added := form.HandleSubmit(players);
      if added.Some? {
        if NamesDistinct(players) {
          AddKeepsNamesDistinct(players, old(form.playerName), newId);
        }
        AddPlayer(added.value, newId);
      }
    }

    /** The rename of `playerId` in `list`, checked against the whole roster rather than
        against the search results, then `handleEditPlayer` on success; distinct names stay
        distinct. */
    method SubmitRename(list: PlayerList, playerId: string)
      modifies this, storage`storedPlayers, list
      ensures match ValidateName(old(list.editName), old(players), Some(playerId))
        case Accepted(name) => players == Renamed(old(players), playerId, name) && storage.storedPlayers == players
        case Rejected(_) => players == old(players) && storage.storedPlayers == old(storage.storedPlayers)
      ensures NamesDistinct(old(players)) && IdsDistinct(old(players)) ==> NamesDistinct(players)
    {
      var renamed := list.SaveEdit(playerId, players);
      if renamed.Some? {
        if NamesDistinct(players) && IdsDistinct(players) {
          RenameKeepsNamesDistinct(players, playerId, old(list.editName));
        }
        EditPlayer(playerId, renamed.value);
      }
    }
  }
}
