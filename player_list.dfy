/** The player list's inline rename (`PlayerList.jsx`): which player is being edited, the
    text being edited, and the rename error. */
module PlayerList {
  import opened Wrappers
  import opened Text
  import opened Ledger
  import opened Validation

  class PlayerList {
    var editingId: Option<string>
    var editName: string
    var editError: string

    /** No row is being edited. */
    predicate Idle()
      reads this
    {
      editingId == None && editName == "" && editError == ""
    }

    constructor ()
      ensures Idle()
    {
      editingId, editName, editError := None, "", "";
    }

    /** `handleStartEdit`: open the row of `player` with its current name. */
    method StartEdit(player: Player)
      modifies this
      ensures editingId == Some(player.id) && editName == player.name && editError == ""
    {
      editingId, editName, editError := Some(player.id), player.name, "";
    }

    /** `handleCancelEdit`: close the row; no callback is made. */
    method CancelEdit()
      modifies this
      ensures Idle()
    {
      editingId, editName, editError := None, "", "";
    }

    /** The edit field's `onChange`. */
    method Type(value: string)
      modifies this
      ensures editingId == old(editingId) && editName == value && editError == ""
    {
      editName, editError := value, "";
    }

    /** `handleSaveEdit` for the row of `playerId`, checked against the `players` this list
        was given. The result is the name passed to `onEditPlayer(playerId, name)`, if it is
        called; acceptance closes the row, rejection keeps it open with the error. */
    method SaveEdit(playerId: string, players: seq<Player>) returns (renamed: Option<string>)
      modifies this
      ensures var v := ValidateName(old(editName), players, Some(playerId));
        match v
        case Accepted(name) => renamed == Some(name) && Idle()
        case Rejected(message) =>
          && renamed == None && editError == message
          && editingId == old(editingId) && editName == old(editName)
    {
      // Trim, refuse an empty name, refuse a name another player has, as `ValidateName` does.
      var verdict := ValidateName(editName, players, Some(playerId));
      editError := "";
      match verdict
      case Rejected(message) =>
        editError := message;
        renamed := None;
      case Accepted(trimmedName) =>
        renamed := Some(trimmedName);
        editingId, editName, editError := None, "", "";
    }
  }
}
