/**
 * The registration state of the single-page `App` component
 * (frontend/src/App.jsx), which repeats the register page's helpers with one
 * `message` line instead of a typed popup, and the candidate values its vote
 * form offers.
 */
module AppPage {
  import opened Wrappers
  import opened Decimal
  import opened Wire
  import opened RegistrationForm

  /** The `value` attributes of the candidate `<option>`s of the vote form, the empty placeholder aside; frontend/src/pages/vote.jsx:154-156 offers the same values. */
  const VoteFormOptions: seq<string> := ["Candidate_A", "Candidate_B", "Candidate_C"]

  class App {
    var registerVoters: seq<VoterRow>
    var message: string
    var loading: bool
    var showVoterForm: bool

    /** Row i carries the id `String(i)`, and the row form is only shown with at least one row. */
    ghost predicate Valid()
      reads this
    {
      && (forall i :: 0 <= i < |registerVoters| ==> registerVoters[i].id == NatToString(i))
      && (showVoterForm ==> |registerVoters| > 0)
    }

    /** The initial `useState` values. */
    constructor ()
      ensures Valid()
      ensures registerVoters == [] && message == "" && !loading && !showVoterForm
    {
      registerVoters := [];
      message := "";
      loading := false;
      showVoterForm := false;
    }

    /**
     * `initializeVoterForms(count)`: a refused count sets the error message and
     * keeps the rows; an accepted count n replaces the rows by n empty ones,
     * opens the row form and clears the message.
     */
    method InitializeVoterForms(count: string)
      requires Valid()
      modifies this
      ensures Valid()
      ensures CheckCount(count).None? ==>
        && registerVoters == old(registerVoters) && showVoterForm == old(showVoterForm)
        && message == "Please enter a valid number of voters"
      ensures CheckCount(count).Some? ==>
        registerVoters == EmptyRows(CheckCount(count).value) && showVoterForm && message == ""
      ensures loading == old(loading)
    {
      var n := CheckCount(count);
      if n.None? {
        message := "Please enter a valid number of voters";
        return;
      }
      registerVoters := EmptyRows(n.value);
      showVoterForm := true;
      message := "";
    }

    /** `handleRegisterChange(index, field, value)` for a row on screen. */
    method HandleRegisterChange(index: nat, change: Change)
      requires Valid() && index < |registerVoters|
      modifies this
      ensures Valid()
      ensures |registerVoters| == |old(registerVoters)|
      ensures registerVoters[index] == Apply(old(registerVoters)[index], change)
      ensures forall j :: 0 <= j < |registerVoters| && j != index ==> registerVoters[j] == old(registerVoters)[j]
      ensures message == old(message) && loading == old(loading) && showVoterForm == old(showVoterForm)
    {
      registerVoters := ChangeRow(registerVoters, index, change);
    }

    /**
     * `handleRegisterSubmit` up to the POST: the message is cleared first; with
     * no complete row it is set to an error and nothing is sent; otherwise the
     * request to send is returned, with `loading` set until the answer comes.
     */
    method HandleRegisterSubmit() returns (request: Option<RegisterForm>)
      requires Valid()
      modifies this
      ensures Valid()
      ensures registerVoters == old(registerVoters) && showVoterForm == old(showVoterForm)
      ensures request.Some? <==> ValidCount(registerVoters) > 0
      ensures request.Some? ==> request.value == EncodedForm(registerVoters) && loading && message == ""
      ensures request.None? ==> !loading && message == "Please provide at least one voter with name and fingerprint"
    {
      loading := true;
      message := "";
      var formData, validVotersCount := EncodeRegistration(registerVoters);
      if validVotersCount == 0 {
        message := "Please provide at least one voter with name and fingerprint";
        loading := false;
        return None;
      }
      return Some(formData);
    }
  }
}
