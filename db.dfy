/** The Postgres tables behind `api/lib/matches.js` and `api/lib/players.js`, as maps
    keyed the way the tables are keyed, and the two statements several operations share:
    the `ON CONFLICT DO NOTHING` placeholder insert and `ORDER BY`. Dates are day numbers,
    `CURRENT_DATE` is the parameter `today` and `NOW()` the timestamp parameter `now`. */
module Db {
  import opened Wrappers
  import opened Ledger

  datatype PlayerRow = PlayerRow(name: string, createdAt: int)
  datatype MatchRow = MatchRow(matchDate: int, createdAt: int)
  datatype AvailabilityRow = AvailabilityRow(status: Option<Status>, updatedAt: int)

  /** The unique key of `player_availability`: (match_id, player_id). */
  type Pair = (string, string)

  /** The availability table after a NULL-status placeholder insert with `ON CONFLICT
      (match_id, player_id) DO NOTHING` for every pair in `pairs`. */
  function WithPlaceholders(rows: map<Pair, AvailabilityRow>, pairs: set<Pair>, now: int): map<Pair, AvailabilityRow>
  {
    map k | k in rows.Keys + pairs :: if k in rows then rows[k] else AvailabilityRow(None, now)
  }

  /** Placeholders add a NULL record for each new pair and never overwrite a record. */
  lemma PlaceholdersNeverOverwrite(rows: map<Pair, AvailabilityRow>, pairs: set<Pair>, now: int)
    ensures var r := WithPlaceholders(rows, pairs, now);
      && r.Keys == rows.Keys + pairs
      && (forall k :: k in rows ==> r[k] == rows[k])
      && (forall k :: k in pairs && k !in rows ==> r[k] == AvailabilityRow(None, now))
  {
  }

  /** Repeating the placeholder inserts, at any later time, changes nothing. */
  lemma PlaceholdersIdempotent(rows: map<Pair, AvailabilityRow>, pairs: set<Pair>, now: int, later: int)
    ensures WithPlaceholders(WithPlaceholders(rows, pairs, now), pairs, later) == WithPlaceholders(rows, pairs, now)
  {
    var once := WithPlaceholders(rows, pairs, now);
    assert WithPlaceholders(once, pairs, later).Keys == once.Keys;
  }

  /** Inserting placeholders for one set of pairs and then another is inserting them for both. */
  lemma PlaceholdersCompose(rows: map<Pair, AvailabilityRow>, first: set<Pair>, second: set<Pair>, now: int)
    ensures WithPlaceholders(WithPlaceholders(rows, first, now), second, now) == WithPlaceholders(rows, first + second, now)
  {
    var a := WithPlaceholders(WithPlaceholders(rows, first, now), second, now);
    var b := WithPlaceholders(rows, first + second, now);
    assert a.Keys == b.Keys;
  }

  predicate Distinct<K(==)>(ks: seq<K>)
  {
    forall i, j :: 0 <= i < j < |ks| ==> ks[i] != ks[j]
  }

  /** `ks` is in ascending `rank` order. */
  predicate OrderedBy<K(==)>(ks: seq<K>, rank: map<K, int>)
  {
    forall i, j :: 0 <= i < j < |ks| ==> ks[i] in rank && ks[j] in rank && rank[ks[i]] <= rank[ks[j]]
  }

  /** Every non-empty finite set of ranked keys has a least-ranked key. */
  lemma HasLeast<K>(s: set<K>, rank: map<K, int>) returns (least: K)
    requires s != {} && s <= rank.Keys
    ensures least in s && forall k :: k in s ==> rank[least] <= rank[k]
  {
    var x :| x in s;
    if s == {x} {
      least := x;
    } else {
      var m := HasLeast(s - {x}, rank);
      least := if rank[x] <= rank[m] then x else m;
    }
  }

  /** `ORDER BY`: the keys of `s`, each once, in ascending rank; keys of equal rank come
      in an unspecified order. */
  method OrderBy<K(==)>(s: set<K>, rank: map<K, int>) returns (ordered: seq<K>)
    requires s <= rank.Keys
    ensures forall k :: k in ordered <==> k in s
    ensures Distinct(ordered) && OrderedBy(ordered, rank)
  {
    ordered := [];
    var rest := s;
    while rest != {}
      invariant rest <= s
      invariant forall k :: k in ordered <==> k in s && k !in rest
      invariant Distinct(ordered) && OrderedBy(ordered, rank)
      invariant forall i, k :: 0 <= i < |ordered| && k in rest ==> rank[ordered[i]] <= rank[k]
      decreases |rest|
    {
      ghost var least := HasLeast(rest, rank);
      var m :| m in rest && forall k :: k in rest ==> rank[m] <= rank[k];
      ordered := ordered + [m];
      rest := rest - {m};
    }
  }

  /** The three tables. */
  class Database {
    var players: map<string, PlayerRow>
    var matches: map<string, MatchRow>
    var availability: map<Pair, AvailabilityRow>

    constructor ()
      ensures players == map[] && matches == map[] && availability == map[]
    {
      players, matches, availability := map[], map[], map[];
    }

    /** `INSERT INTO player_availability ... NULL ... ON CONFLICT (match_id, player_id) DO NOTHING`. */
    method InsertPlaceholder(matchId: string, playerId: string, now: int)
      modifies this`availability
      ensures availability == WithPlaceholders(old(availability), {(matchId, playerId)}, now)
    {
      if (matchId, playerId) !in availability {
        availability := availability[(matchId, playerId) := AvailabilityRow(None, now)];
      }
    }

    /** One placeholder insert per pair, as the `Promise.all` of inserts does, one after another. */
    method InsertPlaceholders(pairs: set<Pair>, now: int)
      modifies this`availability
      ensures availability == WithPlaceholders(old(availability), pairs, now)
    {
      var rest := pairs;
      ghost var done: set<Pair> := {};
      while rest != {}
        invariant rest + done == pairs
        invariant availability == WithPlaceholders(old(availability), done, now)
        decreases |rest|
      {
        var pair :| pair in rest;
        InsertPlaceholder(pair.0, pair.1, now);
        PlaceholdersCompose(old(availability), done, {pair}, now);
        rest := rest - {pair};
        done := done + {pair};
      }
    }
  }
}
