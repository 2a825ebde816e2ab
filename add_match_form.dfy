/** The add-match form (`AddMatchForm.jsx`): the chosen date and the error message, and the
    submit that hands a new date to `onAddMatch`. */
module AddMatchForm {
  import opened Wrappers
  import opened Ledger
  import opened Validation

  class AddMatchForm {
    var matchDate: string
    var error: string

    constructor ()
      ensures matchDate == "" && error == ""
    {
      matchDate, error := "", "";
    }

    /** The date input's `onChange`. */
    method Pick(value: string)
      modifies this
      ensures matchDate == value && error == ""
    {
      matchDate, error := value, "";
    }

    /** `handleSubmit`. The result is the date passed to `onAddMatch`, if it is called. An
        accepted date clears the input; a rejected one keeps it and shows the error. */
    method HandleSubmit(existingMatches: seq<Match>) returns (added: Option<string>)
      modifies this
      ensures var v := ValidateMatchDate(old(matchDate), existingMatches);
        match v
        case Accepted(date) => added == Some(date) && matchDate == "" && error == ""
        case Rejected(message) => added == None && matchDate == old(matchDate) && error == message
    {
      error := "";
      if matchDate == "" {
        error := MissingDateMessage;
        return None;
      }
      var isDuplicate := DateTaken(existingMatches, matchDate);
      if isDuplicate {
        error := DuplicateDateMessage;
        return None;
      }
      added := Some(matchDate);
      matchDate := "";
    }
  }
}
