/**
 * The state of the `RegisterPage` component (frontend/src/pages/register.jsx)
 * and its registration handlers. React state setters become field updates;
 * the request a submit sends is returned to the caller.
 */
module RegisterPage {
  import opened Wrappers
  import opened Decimal
  import opened Wire
  import opened RegistrationForm

  /** The `messageType` state: '' before any message, then 'success' or 'error'. */
  datatype MessageType = Unset | Success | Error

  class Page {
    var registerVoters: seq<VoterRow>
    var message: string
    var messageType: MessageType
    var showMessage: bool
    var loading: bool
    var showVoterForm: bool

    /** Row i carries the id `String(i)`, and the row form is only shown with at least one row. */
    ghost predicate Valid()
      reads this
    {
      && (forall i :: 0 <= i < |registerVoters| ==> registerVoters[i].id == NatToString(i))
      && (showVoterForm ==> |registerVoters| > 0)
    }

    /** The initial `useState` values. */
    constructor ()
      ensures Valid()
      ensures registerVoters == [] && message == "" && messageType == Unset
      ensures !showMessage && !loading && !showVoterForm
    {
      registerVoters := [];
      message := "";
      messageType := Unset;
      showMessage := false;
      loading := false;
      showVoterForm := false;
    }

    /** `displayMessage(msg, type)`. */
    method DisplayMessage(msg: string, kind: MessageType)
      modifies this
      ensures message == msg && messageType == kind && showMessage
      ensures registerVoters == old(registerVoters) && loading == old(loading) && showVoterForm == old(showVoterForm)
    {
      message := msg;
      messageType := kind;
      showMessage := true;
    }

    /**
     * `initializeVoterForms(count)`: a refused count shows an error and keeps
     * the rows; an accepted count n replaces the rows by n empty ones and
     * opens the row form.
     */
    method InitializeVoterForms(count: string)
      requires Valid()
      modifies this
      ensures Valid()
      ensures CheckCount(count).None? ==>
        && registerVoters == old(registerVoters) && showVoterForm == old(showVoterForm)
        && message == "Please enter a valid number of voters" && messageType == Error && showMessage
      ensures CheckCount(count).Some? ==>
        && registerVoters == EmptyRows(CheckCount(count).value) && showVoterForm
        && message == old(message) && messageType == old(messageType) && showMessage == old(showMessage)
      ensures loading == old(loading)
    {
      var n := CheckCount(count);
      if n.None? {
        DisplayMessage("Please enter a valid number of voters", Error);
        return;
      }
      registerVoters := EmptyRows(n.value);
      showVoterForm := true;
    }

    /** `handleRegisterChange(index, field, value)` for a row on screen. */
    method HandleRegisterChange(index: nat, change: Change)
      requires Valid() && index < |registerVoters|
      modifies this
      ensures Valid()
      ensures |registerVoters| == |old(registerVoters)|
      ensures registerVoters[index] == Apply(old(registerVoters)[index], change)
      ensures forall j :: 0 <= j < |registerVoters| && j != index ==> registerVoters[j] == old(registerVoters)[j]
      ensures message == old(message) && messageType == old(messageType) && showMessage == old(showMessage)
      ensures loading == old(loading) && showVoterForm == old(showVoterForm)
    {
      registerVoters := ChangeRow(registerVoters, index, change);
    }

    /**
     * `handleRegisterSubmit` up to the POST: with no complete row it shows an
     * error and sends nothing; otherwise it returns the request to send, with
     * `loading` set until the answer comes.
     */
    method HandleRegisterSubmit() returns (request: Option<RegisterForm>)
      requires Valid()
      modifies this
      ensures Valid()
      ensures registerVoters == old(registerVoters) && showVoterForm == old(showVoterForm)
      ensures request.Some? <==> ValidCount(registerVoters) > 0
      ensures request.Some? ==>
        && request.value == EncodedForm(registerVoters) && loading
        && message == old(message) && messageType == old(messageType) && showMessage == old(showMessage)
      ensures request.None? ==>
        && !loading
        && message == "Please provide at least one voter with name and fingerprint" && messageType == Error && showMessage
    {
      loading := true;
      var formData, validVotersCount := EncodeRegistration(registerVoters);
      if validVotersCount == 0 {
        DisplayMessage("Please provide at least one voter with name and fingerprint", Error);
        loading := false;
        return None;
      }
      return Some(formData);
    }
  }
}
