/** The browser's persisted match list (`utils/localStorage.js`): the retention filter, the
    save that applies it, and the cleanup that drops past matches from storage. */
module LocalStorage {
  import opened Wrappers
  import opened Seqs
  import opened Dates
  import opened Ledger

  /** What `JSON.parse` of the stored match list gives: an array whose entries may be
      null, or some value that is not an array. A missing key reads as an empty array. */
  datatype Stored = NotAnArray | AnArray(items: seq<Option<Match>>)

  /** The callback of `filterPastMatches`: the match has a date and it is today or later. */
  predicate IsRetained(m: Match, now: Instant)
  {
    m.matchDate != "" && IsFutureOrToday(m.matchDate, now)
  }

  function KeepsEntry(now: Instant): Option<Match> -> bool
  {
    (e: Option<Match>) => e.Some? && IsRetained(e.value, now)
  }

  function Retained(now: Instant): Match -> bool
  {
    (m: Match) => IsRetained(m, now)
  }

  /** The callback `cleanupPastMatches` uses to pick the past matches. */
  function IsPast(now: Instant): Match -> bool
  {
    (m: Match) => !IsFutureOrToday(m.matchDate, now)
  }

  /** `filterPastMatches(matches)`: [] for a non-array, otherwise the entries that are
      non-null, have a date, and are dated today or later. */
  function FilterPastMatches(v: Stored, now: Instant): (r: seq<Match>)
    ensures v.NotAnArray? ==> r == []
    ensures forall m :: m in r <==> v.AnArray? && Some(m) in v.items && IsRetained(m, now)
  {
    match v
    case NotAnArray => []
    case AnArray(items) => FilterPresent(items, KeepsEntry(now))
  }

  /** The kept matches are exactly the retained entries, in their original order. */
  lemma FilterPastMatchesSelects(items: seq<Option<Match>>, now: Instant) returns (idx: seq<nat>)
    ensures var r := FilterPastMatches(AnArray(items), now);
      && |idx| == |r|
      && (forall k :: 0 <= k < |idx| ==> idx[k] < |items| && items[idx[k]] == Some(r[k]))
      && (forall k, l :: 0 <= k < l < |idx| ==> idx[k] < idx[l])
      && (forall i :: 0 <= i < |items| ==>
            (i in idx <==> items[i].Some? && items[i].value.matchDate != ""
                           && IsFutureOrToday(items[i].value.matchDate, now)))
  {
    idx := FilterIndices(items, KeepsEntry(now));
  }

  /** On an array of non-null matches the filter is the plain filter by `IsRetained`. */
  lemma FilterPastMatchesOfMatches(matches: seq<Match>, now: Instant)
    ensures FilterPastMatches(AnArray(Lift(matches)), now) == Filter(matches, Retained(now))
  {
    FilterPresentLift(matches, KeepsEntry(now), Retained(now));
  }

  /** The stored value after `saveMatches(matches)`. */
  function Saved(matches: seq<Match>, now: Instant): Stored
  {
    AnArray(Lift(FilterPastMatches(AnArray(Lift(matches)), now)))
  }

  /** `saveMatches` writes exactly the retained matches, in order, and so never a past one. */
  lemma SavedIsRetained(matches: seq<Match>, now: Instant)
    ensures Saved(matches, now) == AnArray(Lift(Filter(matches, Retained(now))))
    ensures forall e :: e in Saved(matches, now).items ==> e.Some? && IsRetained(e.value, now)
  {
    FilterPastMatchesOfMatches(matches, now);
  }

  /** Reading back what was saved, on the same day, gives the retained matches. */
  lemma FutureMatchesAfterSave(matches: seq<Match>, now: Instant)
    ensures FilterPastMatches(Saved(matches, now), now) == Filter(matches, Retained(now))
  {
    var kept := Filter(matches, Retained(now));
    SavedIsRetained(matches, now);
    FilterPastMatchesOfMatches(kept, now);
    FilterIdempotent(matches, Retained(now));
  }

  /** What `cleanupPastMatches` leaves in storage and returns. */
  datatype CleanupOutcome = CleanupOutcome(stored: Stored, removed: seq<Match>)

  /** The effect of `cleanupPastMatches` on the stored value `v`. A non-array or a null
      entry makes the past-match filter throw; the error is caught and nothing is written. */
  function CleanupResult(v: Stored, now: Instant): CleanupOutcome
  {
    match v
    case NotAnArray => CleanupOutcome(v, [])
    case AnArray(items) =>
      if None in items then CleanupOutcome(v, [])
      else
        var past := Filter(Unwrap(items), IsPast(now));
        if |past| > 0 then CleanupOutcome(Saved(FilterPastMatches(v, now), now), past)
        else CleanupOutcome(v, [])
  }

  /** On a list of non-null matches, cleanup returns the past ones and keeps the others:
      the two parts add up to the whole list, and storage is written only when something
      was removed. */
  lemma CleanupSplits(matches: seq<Match>, now: Instant)
    ensures var out := CleanupResult(AnArray(Lift(matches)), now);
      && out.removed == Filter(matches, IsPast(now))
      && |FilterPastMatches(AnArray(Lift(matches)), now)| + |out.removed| == |matches|
      && (out.stored != AnArray(Lift(matches)) ==> out.removed != [])
      && (out.removed != [] ==> out.stored == AnArray(Lift(Filter(matches, Retained(now)))))
  {
    var items := Lift(matches);
    assert Unwrap(items) == matches;
    assert None !in items;
    FilterPastMatchesOfMatches(matches, now);
    forall i | 0 <= i < |matches|
      ensures Retained(now)(matches[i]) != IsPast(now)(matches[i])
    {
      if matches[i].matchDate == "" {
        assert ParseDate(matches[i].matchDate) == None;
      }
    }
    FilterComplementSizes(matches, Retained(now), IsPast(now));
    var past := Filter(matches, IsPast(now));
    if past == [] {
      FilterNonePass(matches, IsPast(now));
    } else {
      var kept := Filter(matches, Retained(now));
      SavedIsRetained(kept, now);
      FilterIdempotent(matches, Retained(now));
    }
  }

  /** Cleanup never changes which matches are visible. */
  lemma CleanupKeepsVisible(v: Stored, now: Instant)
    ensures FilterPastMatches(CleanupResult(v, now).stored, now) == FilterPastMatches(v, now)
  {
    if v.AnArray? && None !in v.items {
      var matches := Unwrap(v.items);
      assert Lift(matches) == v.items;
      CleanupSplits(matches, now);
      if Filter(matches, IsPast(now)) != [] {
        FutureMatchesAfterSave(FilterPastMatches(v, now), now);
        FilterPastMatchesOfMatches(matches, now);
        FilterIdempotent(matches, Retained(now));
      }
    }
  }

  /** A second cleanup on the same day removes nothing and writes nothing. */
  lemma CleanupIdempotent(v: Stored, now: Instant)
    ensures var first := CleanupResult(v, now);
      CleanupResult(first.stored, now) == CleanupOutcome(first.stored, [])
  {
    var first := CleanupResult(v, now);
    if v.AnArray? && None !in v.items && first.removed != [] {
      var matches := Unwrap(v.items);
      assert Lift(matches) == v.items;
      CleanupSplits(matches, now);
      var kept := Filter(matches, Retained(now));
      assert first.stored == AnArray(Lift(kept));
      assert Unwrap(Lift(kept)) == kept;
      forall i | 0 <= i < |kept|
        ensures !IsPast(now)(kept[i])
      {
        assert kept[i] in kept;
      }
      FilterNonePass(kept, IsPast(now));
    }
  }

  /** The two localStorage keys this model keeps: the match list and the player list. */
  class Storage {
    var storedMatches: Stored
    var storedPlayers: seq<Player>

    constructor (matches: Stored, players: seq<Player>)
      ensures storedMatches == matches && storedPlayers == players
    {
      storedMatches := matches;
      storedPlayers := players;
    }

    /** `getMatches`: everything stored, past matches included. */
    method GetMatches() returns (v: Stored)
      ensures v == storedMatches
    {
      v := storedMatches;
    }

    /** `getFutureMatches`: the stored list through the retention filter. */
    method GetFutureMatches(now: Instant) returns (r: seq<Match>)
      ensures r == FilterPastMatches(storedMatches, now)
      ensures forall m :: m in r ==> IsRetained(m, now)
    {
      var all := GetMatches();
      r := FilterPastMatches(all, now);
    }

    /** `saveMatches(matches)`: stores the retained matches only. */
    method SaveMatches(matches: seq<Match>, now: Instant)
      modifies this`storedMatches
      ensures storedMatches == Saved(matches, now)
    {
      var futureMatches := FilterPastMatches(AnArray(Lift(matches)), now);
      storedMatches := AnArray(Lift(futureMatches));
    }

    /** `cleanupPastMatches`: removes the past matches from storage and returns them. */
    method CleanupPastMatches(now: Instant) returns (removed: seq<Match>)
      modifies this`storedMatches
      ensures CleanupOutcome(storedMatches, removed) == CleanupResult(old(storedMatches), now)
    {
      var allMatches := GetMatches();
      var futureMatches := FilterPastMatches(allMatches, now);
      if allMatches.NotAnArray? || None in allMatches.items {
        // `allMatches.filter` or `match.matchDate` throws; the catch returns [].
        return [];
      }
      var pastMatches := Filter(Unwrap(allMatches.items), IsPast(now));
      if |pastMatches| > 0 {
        SaveMatches(futureMatches, now);
      }
      removed := pastMatches;
    }

    /** `getPlayers`. */
    method GetPlayers() returns (players: seq<Player>)
      ensures players == storedPlayers
    {
      players := storedPlayers;
    }

    /** `savePlayers(players)`. */
    method SavePlayers(players: seq<Player>)
      modifies this`storedPlayers
      ensures storedPlayers == players
    {
      storedPlayers := players;
    }
  }
}
