/** The add-player form (`AddPlayerForm.jsx`): its input text and error message, and the
    submit that hands a validated name to `onAddPlayer`. */
module AddPlayerForm {
  import opened Wrappers
  import opened Text
  import opened Ledger
  import opened Validation

  class AddPlayerForm {
    var playerName: string
    var error: string

    constructor ()
      ensures playerName == "" && error == ""
    {
      playerName := "";
      error := "";
    }

    /** The input's `onChange`: store the new text and clear the error. */
    method Type(value: string)
      modifies this
      ensures playerName == value && error == ""
    {
      playerName := value;
      error := "";
    }

    /** `handleSubmit`. The result is the name passed to `onAddPlayer`, if it is called. An
        accepted name clears the input; a rejected one keeps it and shows the error. */
    method HandleSubmit(existingPlayers: seq<Player>) returns (added: Option<string>)
      modifies this
      ensures var v := ValidateName(old(playerName), existingPlayers, None);
        match v
        case Accepted(name) => added == Some(name) && playerName == "" && error == ""
        case Rejected(message) => added == None && playerName == old(playerName) && error == message
    {
      // Trim, refuse an empty name, refuse a name a player already has, as `ValidateName` does.
      var verdict := ValidateName(playerName, existingPlayers, None);
      error := "";
      match verdict
      case Rejected(message) =>
        error := message;
        added := None;
      case Accepted(trimmedName) =>
        added := Some(trimmedName);
        playerName := "";
    }
  }
}
