/** The registration form: the password rule is checked in the browser, then the account
    is sent to the backend. */
module RegisterPage {
  import opened Common
  import Passwords

  const MismatchMessage: string := "Passwords do not match"
  const TooShortMessage: string := "Password must be at least 6 characters"
  const FailedMessage: string := "Registration failed"
  const UnreachableMessage: string := "Cannot reach server"
  const SignIn: string := "/login"
  const RegisteredToast: Toast := Toast("Registration successful", "Please sign in with your credentials.", false)

  /** The JSON body POSTed to /api/register. The confirmation is not part of it. */
  datatype Payload = Payload(name: string, email: string, password: string)

  /** How the request settled: a response (its `ok` flag and its optional `message`), or a
      thrown error (the server could not be reached or its body was not JSON). */
  datatype Outcome = Responded(ok: bool, message: Option<string>) | Unreachable

  /** The error a failed check shows; None lets the request go out. */
  function ValidationError(password: string, confirmation: string): (e: Option<string>)
    ensures e == None <==> Passwords.Check(password, confirmation) == Passwords.Accepted
    ensures password != confirmation ==> e == Some(MismatchMessage)
    ensures password == confirmation && |password| < Passwords.MinLength ==> e == Some(TooShortMessage)
  {
    match Passwords.Check(password, confirmation)
    case Mismatch => Some(MismatchMessage)
    case TooShort => Some(TooShortMessage)
    case Accepted => None
  }

  /** The error a settled request shows; None on success. */
  function OutcomeError(outcome: Outcome): (e: Option<string>)
    ensures e == None <==> outcome.Responded? && outcome.ok
    ensures outcome.Responded? && !outcome.ok ==> e == Some(OrElse(outcome.message, FailedMessage))
    ensures outcome.Unreachable? ==> e == Some(UnreachableMessage)
  {
    match outcome
    case Responded(ok, message) => if ok then None else Some(OrElse(message, FailedMessage))
    case Unreachable => Some(UnreachableMessage)
  }

  class RegisterForm {
    var name: string
    var email: string
    var password: string
    var confirmPassword: string
    var isLoading: bool
    var error: string

    constructor ()
      ensures name == "" && email == "" && password == "" && confirmPassword == ""
      ensures !isLoading && error == ""
    {
      name, email, password, confirmPassword := "", "", "", "";
      isLoading, error := false, "";
    }

    /** handleRegister up to the request: the error is cleared first; a failed check sets
        its message and sends nothing; otherwise the form is busy and the payload goes out. */
    method Submit() returns (request: Option<Payload>)
      modifies this`error, this`isLoading
      ensures ValidationError(password, confirmPassword) == None ==>
        request == Some(Payload(name, email, password)) && error == "" && isLoading
      ensures ValidationError(password, confirmPassword) != None ==>
        request == None && error == ValidationError(password, confirmPassword).value
        && isLoading == old(isLoading)
    {
      error := "";
      if password != confirmPassword {
        error := MismatchMessage;
        request := None;
        return;
      }
      if |password| < Passwords.MinLength {
        error := TooShortMessage;
        request := None;
        return;
      }
      isLoading := true;
      request := Some(Payload(name, email, password));
    }

    /** handleRegister after the request settles: success goes to the sign-in page, any
        failure shows its message; the form is idle again either way. */
    method Complete(outcome: Outcome) returns (navigate: Option<string>, toast: Option<Toast>)
      modifies this`error, this`isLoading
      ensures OutcomeError(outcome) == None ==>
        navigate == Some(SignIn) && toast == Some(RegisteredToast) && error == old(error)
      ensures OutcomeError(outcome) != None ==>
        navigate == None && toast == None && error == OutcomeError(outcome).value
      ensures !isLoading
    {
      match outcome {
        case Responded(ok, message) =>
          if ok {
            toast := Some(RegisteredToast);
            navigate := Some(SignIn);
          } else {
            error := OrElse(message, FailedMessage);
            navigate, toast := None, None;
          }
        case Unreachable =>
          error := UnreachableMessage;
          navigate, toast := None, None;
      }
      isLoading := false;
    }
  }

  /** The backend's duplicate-email reply reaches the form as its own message. */
  lemma DuplicateEmailShown()
    ensures OutcomeError(Responded(false, Some("Email already exists"))) == Some("Email already exists")
  {
  }

  /** A non-ok reply without a message falls back to the generic text. */
  lemma MissingMessageFallsBack()
    ensures OutcomeError(Responded(false, None)) == Some(FailedMessage)
    ensures OutcomeError(Responded(false, Some(""))) == Some(FailedMessage)
  {
  }
}
