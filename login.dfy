/** The sign-in page: no credential registry is consulted; any non-empty email and password
    are accepted, and the session record is written to localStorage. */
module LoginPage {
  import opened Common
  import opened Storage
  import opened Json
  import ProtectedRoute

  const InvalidCredentials: string := "Please enter valid credentials"
  const Dashboard: string := "/dashboard"
  const WelcomeToast: Toast := Toast("Login successful", "Welcome back!", false)

  /** String.prototype.split with a one-character separator: the pieces between the
      separators, in order; the empty string splits into one empty piece. */
  function Split(s: string, sep: char): (parts: seq<string>)
    ensures |parts| >= 1
    ensures forall i :: 0 <= i < |parts| ==> sep !in parts[i]
    decreases |s|
  {
    if s == [] then [[]]
    else
      var rest := Split(s[1..], sep);
      if s[0] == sep then [[]] + rest else [[s[0]] + rest[0]] + rest[1..]
  }

  /** Array.prototype.join with a one-character separator. */
  function Join(parts: seq<string>, sep: char): (r: string)
    requires |parts| >= 1
    decreases |parts|
  {
    if |parts| == 1 then parts[0] else parts[0] + [sep] + Join(parts[1..], sep)
  }

  /** Joining the pieces again gives back the split text. */
  lemma {:induction false} JoinSplit(s: string, sep: char)
    ensures Join(Split(s, sep), sep) == s
    decreases |s|
  {
    if s != [] {
      var rest := Split(s[1..], sep);
      JoinSplit(s[1..], sep);
      if s[0] == sep {
        assert ([[]] + rest)[1..] == rest;
      } else {
        var parts := [[s[0]] + rest[0]] + rest[1..];
        if |rest| > 1 {
          assert parts[1..] == rest[1..];
          assert Join(rest, sep) == rest[0] + [sep] + Join(rest[1..], sep);
        }
      }
    }
  }

  /** The first piece of a split is the text up to the first separator. */
  lemma {:induction false} FirstPiece(s: string, sep: char)
    ensures Split(s, sep)[0] <= s
    ensures Split(s, sep)[0] == s || s[|Split(s, sep)[0]|] == sep
    decreases |s|
  {
    if s != [] && s[0] != sep {
      FirstPiece(s[1..], sep);
    }
  }

  /** `email.split("@")[0]`: the part of the email before its first '@', all of it when
      there is none, and empty when the email starts with '@'. */
  function EmailName(email: string): (name: string)
    ensures '@' !in name
    ensures name <= email
    ensures name == email || email[|name|] == '@'
  {
    FirstPiece(email, '@');
    Split(email, '@')[0]
  }

  /** The three properties of EmailName determine it. */
  lemma EmailNameUnique(email: string, name: string)
    requires '@' !in name && name <= email && (name == email || email[|name|] == '@')
    ensures name == EmailName(email)
  {
  }

  /** Login accepts exactly when both fields are non-empty (JavaScript truthiness). */
  function Accepts(email: string, password: string): (ok: bool)
    ensures ok <==> |email| > 0 && |password| > 0
  {
    email != "" && password != ""
  }

  /** The record stored for an accepted email: the email itself, and as name its part
      before the first '@'. */
  function SessionRecord(email: string): (u: UserRecord)
    ensures u.email == email
    ensures '@' !in u.name && u.name <= email && (u.name == email || email[|u.name|] == '@')
  {
    UserRecord(email, EmailName(email))
  }

  /** The field values the delayed callback sees: those of the render that submitted. */
  datatype Attempt = Attempt(email: string, password: string)

  class LoginForm {
    var email: string
    var password: string
    var isLoading: bool
    var error: string
    const storage: LocalStorage

    constructor (storage: LocalStorage)
      ensures email == "" && password == "" && !isLoading && error == ""
      ensures this.storage == storage
    {
      email, password, isLoading, error := "", "", false, "";
      this.storage := storage;
    }

    /** handleLogin up to the simulated delay: the error is cleared and the form is busy. */
    method Submit() returns (attempt: Attempt)
      modifies this`error, this`isLoading
      ensures error == "" && isLoading
      ensures attempt == Attempt(email, password)
    {
      error := "";
      isLoading := true;
      attempt := Attempt(email, password);
    }

    /** The callback that runs after the delay. */
    method Settle(attempt: Attempt) returns (navigate: Option<string>, toast: Option<Toast>)
      modifies this`error, this`isLoading, storage
      ensures Accepts(attempt.email, attempt.password) ==>
        storage.items == old(storage.items)[UserKey := Stringify(SessionRecord(attempt.email))]
        && navigate == Some(Dashboard) && toast == Some(WelcomeToast) && error == old(error)
      ensures !Accepts(attempt.email, attempt.password) ==>
        storage.items == old(storage.items) && navigate == None && toast == None
        && error == InvalidCredentials
      ensures !isLoading
      ensures Accepts(attempt.email, attempt.password) ==>
        ProtectedRoute.Guard(storage.GetItem(UserKey)) == ProtectedRoute.RenderChildren
    {
      if Accepts(attempt.email, attempt.password) {
        storage.SetItem(UserKey, Stringify(SessionRecord(attempt.email)));
        StringifyNonEmpty(SessionRecord(attempt.email));
        toast := Some(WelcomeToast);
        navigate := Some(Dashboard);
      } else {
        error := InvalidCredentials;
        navigate, toast := None, None;
      }
      isLoading := false;
    }
  }

  /** Worked examples of the derived name. */
  lemma EmailNameExamples()
    ensures EmailName("ann@example.com") == "ann"
    ensures EmailName("ann") == "ann"
    ensures EmailName("@example.com") == ""
  {
    EmailNameUnique("ann@example.com", "ann");
    EmailNameUnique("ann", "ann");
    EmailNameUnique("@example.com", "");
  }
}
