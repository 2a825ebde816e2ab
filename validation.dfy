/** The input checks behind the forms: a player name when adding (`AddPlayerForm.jsx`) and
    when renaming (`PlayerList.jsx`), and a match date when adding (`AddMatchForm.jsx`). */
module Validation {
  import opened Wrappers
  import opened Text
  import opened Ledger

  /** What a submit makes of its input: the value handed to the callback, or the error shown. */
  datatype Verdict = Accepted(value: string) | Rejected(message: string)

  const EmptyNameMessage := "Player name cannot be empty"
  const DuplicateNameMessage := "Player name already exists"
  const MissingDateMessage := "Please select a match date"
  const DuplicateDateMessage := "A match on this date already exists"

  /** Two names are the same name when their lower-cased forms are equal. */
  predicate SameName(a: string, b: string)
  {
    ToLower(a) == ToLower(b)
  }

  /** Player `p` blocks `name`: it is not the player being renamed (`self`), and its name,
      untrimmed, equals `name` up to letter case. */
  predicate Clashes(p: Player, name: string, self: Option<string>)
  {
    (self.None? || p.id != self.value) && SameName(p.name, name)
  }

  /** The `players.some(...)` duplicate test, scanning the list front to back. */
  function NameTaken(players: seq<Player>, name: string, self: Option<string>): (r: bool)
    ensures r <==> exists p :: p in players && Clashes(p, name, self)
  {
    if players == [] then false
    else
      assert forall p :: p in players <==> p == players[0] || p in players[1..];
      Clashes(players[0], name, self) || NameTaken(players[1..], name, self)
  }

  /** The name check of `handleSubmit` (adding, `self` is `None`) and of `handleSaveEdit`
      (renaming player `self`): the trimmed input, unless it is empty or another player
      already has it. */
  function ValidateName(input: string, players: seq<Player>, self: Option<string>): (r: Verdict)
    ensures r.Accepted? <==> Trim(input) != [] && forall p :: p in players ==> !Clashes(p, Trim(input), self)
    ensures r.Accepted? ==> r.value == Trim(input)
    ensures r.Rejected? ==> (r.message == EmptyNameMessage <==> AllWhitespace(input))
    ensures r.Rejected? ==> r.message == EmptyNameMessage || r.message == DuplicateNameMessage
  {
    TrimEmptyIffBlank(input);
    var name := Trim(input);
    if name == [] then Rejected(EmptyNameMessage)
    else if NameTaken(players, name, self) then Rejected(DuplicateNameMessage)
    else Accepted(name)
  }

  /** An accepted name is non-empty and has no whitespace at either end. */
  lemma AcceptedNameIsTrimmed(input: string, players: seq<Player>, self: Option<string>)
    requires ValidateName(input, players, self).Accepted?
    ensures var name := ValidateName(input, players, self).value;
      name != [] && Trim(name) == name && !IsWhitespace(name[0]) && !IsWhitespace(name[|name| - 1])
  {
    TrimIdempotent(input);
  }

  /** Whitespace around the input never changes the verdict. */
  lemma ValidateIgnoresSurroundingWhitespace(input: string, players: seq<Player>, self: Option<string>)
    ensures ValidateName(Trim(input), players, self) == ValidateName(input, players, self)
  {
    TrimIdempotent(input);
  }

  /** Only the new name is trimmed: an existing name with a trailing blank does not block
      the same name without it. */
  lemma ExistingNamesNotTrimmed(id: string, name: string)
    requires name != [] && Trim(name) == name
    ensures ValidateName(name, [Player(id, name + " ")], None) == Accepted(name)
  {
    var p := Player(id, name + " ");
    assert !Clashes(p, name, None) by {
      assert |ToLower(p.name)| == |name| + 1;
    }
    assert !NameTaken([p], name, None);
  }

  /** Names in a roster are pairwise different up to letter case. */
  predicate NamesDistinct(players: seq<Player>)
  {
    forall i, j :: 0 <= i < j < |players| ==> !SameName(players[i].name, players[j].name)
  }

  /** Leaving the renamed player out of the duplicate test only lets more names through. */
  lemma ExcludingSelfOnlyWidens(input: string, players: seq<Player>, self: string)
    requires ValidateName(input, players, None).Accepted?
    ensures ValidateName(input, players, Some(self)) == ValidateName(input, players, None)
  {
  }

  /** In a roster whose names are distinct, renaming a player to a case variant of its own
      name is accepted, while adding that name as a new player is rejected as a duplicate. */
  lemma OwnCaseVariant(players: seq<Player>, i: nat, input: string)
    requires i < |players| && NamesDistinct(players)
    requires Trim(input) != [] && SameName(players[i].name, Trim(input))
    ensures ValidateName(input, players, Some(players[i].id)) == Accepted(Trim(input))
    ensures ValidateName(input, players, None) == Rejected(DuplicateNameMessage)
  {
    var name := Trim(input);
    forall p | p in players
      ensures !Clashes(p, name, Some(players[i].id))
    {
      var j :| 0 <= j < |players| && players[j] == p;
      if j < i {
        assert !SameName(players[j].name, players[i].name);
      } else if j > i {
        assert !SameName(players[i].name, players[j].name);
      }
    }
    assert Clashes(players[i], name, None);
  }

  /** The `existingMatches.some(...)` test: a match already has exactly this date string. */
  function DateTaken(matches: seq<Match>, matchDate: string): (r: bool)
    ensures r <==> exists m :: m in matches && m.matchDate == matchDate
  {
    if matches == [] then false
    else
      assert forall m :: m in matches <==> m == matches[0] || m in matches[1..];
      matches[0].matchDate == matchDate || DateTaken(matches[1..], matchDate)
  }

  /** The date check of the add-match form: an empty date is refused, and so is a date
      string some existing match already has. */
  function ValidateMatchDate(matchDate: string, matches: seq<Match>): (r: Verdict)
    ensures r.Accepted? <==> matchDate != "" && forall m :: m in matches ==> m.matchDate != matchDate
    ensures r.Accepted? ==> r.value == matchDate
    ensures r.Rejected? ==> r.message == (if matchDate == "" then MissingDateMessage else DuplicateDateMessage)
  {
    if matchDate == "" then Rejected(MissingDateMessage)
    else if DateTaken(matches, matchDate) then Rejected(DuplicateDateMessage)
    else Accepted(matchDate)
  }

  /** Match dates in a list are pairwise different strings. */
  predicate DatesDistinct(matches: seq<Match>)
  {
    forall i, j :: 0 <= i < j < |matches| ==> matches[i].matchDate != matches[j].matchDate
  }

  /** Appending a match whose date the form accepted keeps the dates distinct. */
  lemma AcceptedDateKeepsDatesDistinct(matches: seq<Match>, m: Match)
    requires DatesDistinct(matches)
    requires ValidateMatchDate(m.matchDate, matches).Accepted?
    ensures DatesDistinct(matches + [m])
  {
    var s := matches + [m];
    forall i, j | 0 <= i < j < |s|
      ensures s[i].matchDate != s[j].matchDate
    {
      if j == |matches| {
        assert s[i] in matches;
      } else {
        assert s[i] == matches[i] && s[j] == matches[j];
      }
    }
  }
}
