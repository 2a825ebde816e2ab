/** One match's card (`MatchCard.jsx`): the IN/OUT toggle rule, the in/out/pending summary,
    and the squad-size threshold behind the "Confirmed" badge and the warning. */
module MatchCard {
  import opened Wrappers
  import opened Seqs
  import opened Ledger

  /** `REQUIRED_PLAYERS`: the smallest number of IN players that confirms a match. */
  const RequiredPlayers: nat := 11

  /** `handleToggleAvailability`: clicking the status a player already has clears it;
      any other click sets the clicked status. */
  function ToggledStatus(current: Option<Status>, clicked: Status): (r: Option<Status>)
    ensures r == None || r == Some(clicked)
    ensures r == None <==> current == Some(clicked)
  {
    if current == Some(clicked) then None else Some(clicked)
  }

  /** The map after a click on `clicked` for `playerId`. */
  function AfterClick(availability: Availability, playerId: string, clicked: Status): Availability
  {
    WithStatus(availability, playerId, ToggledStatus(StatusOf(availability, playerId), clicked))
  }

  /** A click selects the clicked status, or clears it when it was already selected, and
      leaves every other player's entry alone. */
  lemma ClickSelectsOrClears(availability: Availability, playerId: string, clicked: Status)
    ensures var a := AfterClick(availability, playerId, clicked);
      && (StatusOf(availability, playerId) == Some(clicked) ==> playerId !in a)
      && (StatusOf(availability, playerId) != Some(clicked) ==> StatusOf(a, playerId) == Some(clicked))
      && (forall id :: id != playerId ==> StatusOf(a, id) == StatusOf(availability, id))
  {
  }

  /** Two clicks on the same button restore whether that status is selected; from IN (or
      from no record) they restore the map itself, while from OUT two clicks on IN clear
      the record. */
  lemma ClickTwice(availability: Availability, playerId: string, clicked: Status)
    ensures var a := AfterClick(AfterClick(availability, playerId, clicked), playerId, clicked);
      && (StatusOf(a, playerId) == Some(clicked) <==> StatusOf(availability, playerId) == Some(clicked))
      && (StatusOf(availability, playerId) != Some(clicked) ==> playerId !in a)
      && (playerId !in availability || availability[playerId] == Some(clicked) ==> a == availability)
  {
    var a1 := AfterClick(availability, playerId, clicked);
    var a := AfterClick(a1, playerId, clicked);
    if playerId !in availability || availability[playerId] == Some(clicked) {
      assert a.Keys == availability.Keys;
    }
  }

  /** Where a player's name appears on the card. */
  datatype Response = Going | NotGoing | Pending

  /** `IN` is going, `OUT` is not going, and anything else (null or no key) is pending. */
  function ResponseOf(availability: Availability, playerId: string): Response
  {
    match StatusOf(availability, playerId)
    case Some(In) => Going
    case Some(Out) => NotGoing
    case None => Pending
  }

  function HasResponse(availability: Availability, response: Response): Player -> bool
  {
    (p: Player) => ResponseOf(availability, p.id) == response
  }

  /** The players with the given response, in roster order. */
  function Group(players: seq<Player>, availability: Availability, response: Response): seq<Player>
  {
    Filter(players, HasResponse(availability, response))
  }

  /** One more player extends exactly the group of its response. */
  lemma GroupStep(players: seq<Player>, availability: Availability, i: nat, response: Response)
    requires i < |players|
    ensures Group(players[..i + 1], availability, response)
         == Group(players[..i], availability, response)
            + (if ResponseOf(availability, players[i].id) == response then [players[i]] else [])
  {
    assert players[..i + 1][..i] == players[..i];
  }

  datatype Stats = Stats(inCount: nat, outCount: nat, notResponded: nat)

  /** The `players.forEach` that counts and groups the players by their response. */
  method Summarize(players: seq<Player>, availability: Availability)
    returns (stats: Stats, playersIn: seq<Player>, playersOut: seq<Player>, playersNotResponded: seq<Player>)
    ensures playersIn == Group(players, availability, Going)
    ensures playersOut == Group(players, availability, NotGoing)
    ensures playersNotResponded == Group(players, availability, Pending)
    ensures stats == Stats(|playersIn|, |playersOut|, |playersNotResponded|)
  {
    stats := Stats(0, 0, 0);
    playersIn, playersOut, playersNotResponded := [], [], [];
    for i := 0 to |players|
      invariant playersIn == Group(players[..i], availability, Going)
      invariant playersOut == Group(players[..i], availability, NotGoing)
      invariant playersNotResponded == Group(players[..i], availability, Pending)
      invariant stats == Stats(|playersIn|, |playersOut|, |playersNotResponded|)
    {
      GroupStep(players, availability, i, Going);
      GroupStep(players, availability, i, NotGoing);
      GroupStep(players, availability, i, Pending);
      // `IN`, `OUT`, and anything else, as `ResponseOf` classifies the status.
      match ResponseOf(availability, players[i].id)
      case Going =>
        stats := stats.(inCount := stats.inCount + 1);
        playersIn := playersIn + [players[i]];
      case NotGoing =>
        stats := stats.(outCount := stats.outCount + 1);
        playersOut := playersOut + [players[i]];
      case Pending =>
        stats := stats.(notResponded := stats.notResponded + 1);
        playersNotResponded := playersNotResponded + [players[i]];
    }
    assert players[..|players|] == players;
  }

  /** in + out + not responded is the number of players. */
  lemma {:induction false} GroupsAddUp(players: seq<Player>, availability: Availability)
    ensures |Group(players, availability, Going)| + |Group(players, availability, NotGoing)|
            + |Group(players, availability, Pending)| == |players|
  {
    if players != [] {
      GroupsAddUp(players[..|players| - 1], availability);
    }
  }

  /** Each player is listed in exactly one group: IN iff its status is IN, OUT iff it is
      OUT, and not responded otherwise. */
  lemma EachPlayerInOneGroup(players: seq<Player>, availability: Availability, p: Player)
    requires p in players
    ensures p in Group(players, availability, Going) <==> StatusOf(availability, p.id) == Some(In)
    ensures p in Group(players, availability, NotGoing) <==> StatusOf(availability, p.id) == Some(Out)
    ensures p in Group(players, availability, Pending) <==> StatusOf(availability, p.id) == None
    ensures var (g, n, q) := (Group(players, availability, Going), Group(players, availability, NotGoing),
                              Group(players, availability, Pending));
      (p in g || p in n || p in q) && !(p in g && p in n) && !(p in g && p in q) && !(p in n && p in q)
  {
  }

  /** `stats.in` after the `forEach`: one count per player whose status is IN. It counts
      exactly the players the IN group lists. */
  function InCount(players: seq<Player>, availability: Availability): (n: nat)
    ensures n == |Group(players, availability, Going)|
  {
    if players == [] then 0
    else
      var k := |players| - 1;
      InCount(players[..k], availability)
        + (if StatusOf(availability, players[k].id) == Some(In) then 1 else 0)
  }

  /** What the card shows about the squad size: the "Confirmed" badge in its header, and the
      warning inside the details, which are rendered only while `showDetails` is set. */
  function Indicators(players: seq<Player>, availability: Availability, showDetails: bool): (r: (bool, bool))
    ensures r.0 <==> |Group(players, availability, Going)| >= RequiredPlayers
    ensures r.1 <==> showDetails && |Group(players, availability, Going)| < RequiredPlayers
    ensures r.1 ==> !r.0
  {
    var inCount := InCount(players, availability);
    (inCount >= RequiredPlayers, showDetails && inCount < RequiredPlayers)
  }

  /** A map in which every player IN under `a` is still IN counts at least as many IN players. */
  lemma {:induction false} InCountMonotone(players: seq<Player>, a: Availability, b: Availability)
    requires forall i :: 0 <= i < |players| && StatusOf(a, players[i].id) == Some(In) ==>
                         StatusOf(b, players[i].id) == Some(In)
    ensures InCount(players, a) <= InCount(players, b)
  {
    if players != [] {
      var k := |players| - 1;
      assert forall i :: 0 <= i < k ==> players[..k][i] == players[i];
      InCountMonotone(players[..k], a, b);
    }
  }

  /** Clicking IN for a player who is not IN never takes the "Confirmed" badge away. */
  lemma ClickInKeepsBadge(players: seq<Player>, availability: Availability, playerId: string, showDetails: bool)
    requires StatusOf(availability, playerId) != Some(In)
    ensures Indicators(players, availability, showDetails).0 ==>
            Indicators(players, AfterClick(availability, playerId, In), showDetails).0
  {
    ClickSelectsOrClears(availability, playerId, In);
    InCountMonotone(players, availability, AfterClick(availability, playerId, In));
  }

  /** Clicking OUT never brings the "Confirmed" badge. */
  lemma ClickOutNeverConfirms(players: seq<Player>, availability: Availability, playerId: string, showDetails: bool)
    ensures Indicators(players, AfterClick(availability, playerId, Out), showDetails).0 ==>
            Indicators(players, availability, showDetails).0
  {
    ClickSelectsOrClears(availability, playerId, Out);
    InCountMonotone(players, AfterClick(availability, playerId, Out), availability);
  }
}
