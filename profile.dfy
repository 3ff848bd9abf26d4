/** The profile page: shows the stored user with fallbacks, runs the password rule (the
    change itself is simulated), and signs out. */
module ProfilePage {
  import opened Common
  import opened Storage
  import opened Json
  import Passwords
  import LoginPage
  import ProtectedRoute

  const NameFallback: string := "User"
  const EmailFallback: string := "user@example.com"
  const SignIn: string := "/login"

  const MismatchToast: Toast := Toast("Error", "New passwords do not match", true)
  const TooShortToast: Toast := Toast("Error", "Password must be at least 6 characters", true)
  const UpdatedToast: Toast := Toast("Password updated", "Your password has been changed successfully", false)
  const LoggedOutToast: Toast := Toast("Logged out", "You have been successfully logged out", false)

  /** `JSON.parse(localStorage.getItem("user") || "{}")`; None for a stored text outside
      the two forms the pages themselves write. */
  function ReadUser(stored: Option<string>): (user: Option<UserObject>)
    ensures stored == None || stored == Some("") ==> user == Some(UserObject(None, None))
    ensures stored.Some? && stored.value != "" ==> user == ParseUserObject(stored.value)
  {
    ParseUserObject(OrElse(stored, "{}"))
  }

  /** `user.name || "User"`. */
  function DisplayName(user: UserObject): (shown: string)
    ensures shown != ""
    ensures shown == NameFallback || user.name == Some(shown)
    ensures shown == NameFallback <==> user.name == None || user.name == Some("") || user.name == Some(NameFallback)
  {
    OrElse(user.name, NameFallback)
  }

  /** `user.email || "user@example.com"`. */
  function DisplayEmail(user: UserObject): (shown: string)
    ensures shown != ""
    ensures shown == EmailFallback || user.email == Some(shown)
    ensures shown == EmailFallback <==> user.email == None || user.email == Some("") || user.email == Some(EmailFallback)
  {
    OrElse(user.email, EmailFallback)
  }

  /** The toast of a rejected password change; None when the rule is met. */
  function RejectionToast(newPassword: string, confirmation: string): (t: Option<Toast>)
    ensures t == None <==> Passwords.Check(newPassword, confirmation) == Passwords.Accepted
    ensures newPassword != confirmation ==> t == Some(MismatchToast)
    ensures newPassword == confirmation && |newPassword| < Passwords.MinLength ==> t == Some(TooShortToast)
  {
    match Passwords.Check(newPassword, confirmation)
    case Mismatch => Some(MismatchToast)
    case TooShort => Some(TooShortToast)
    case Accepted => None
  }

  class Profile {
    var current: string
    var newPassword: string
    var confirm: string
    var isChangingPassword: bool
    const storage: LocalStorage

    constructor (storage: LocalStorage)
      ensures current == "" && newPassword == "" && confirm == "" && !isChangingPassword
      ensures this.storage == storage
    {
      current, newPassword, confirm, isChangingPassword := "", "", "", false;
      this.storage := storage;
    }

    /** handlePasswordChange up to the simulated delay. The current password is never read;
        a rejection leaves the three fields and the busy flag as they were. */
    method HandlePasswordChange() returns (toast: Option<Toast>)
      modifies this`isChangingPassword
      ensures toast == RejectionToast(newPassword, confirm)
      ensures toast != None ==> isChangingPassword == old(isChangingPassword)
      ensures toast == None ==> isChangingPassword
    {
      if newPassword != confirm {
        toast := Some(MismatchToast);
        return;
      }
      if |newPassword| < Passwords.MinLength {
        toast := Some(TooShortToast);
        return;
      }
      isChangingPassword := true;
      toast := None;
    }

    /** The callback after the delay: all three fields are cleared and the form is idle. */
    method PasswordUpdated() returns (toast: Toast)
      modifies this`current, this`newPassword, this`confirm, this`isChangingPassword
      ensures current == "" && newPassword == "" && confirm == "" && !isChangingPassword
      ensures toast == UpdatedToast
    {
      toast := UpdatedToast;
      current, newPassword, confirm := "", "", "";
      isChangingPassword := false;
    }

    /** handleLogout: the "user" entry is removed, nothing else, and the guard now redirects. */
    method HandleLogout() returns (navigate: string, toast: Toast)
      modifies storage
      ensures storage.items == old(storage.items) - {UserKey}
      ensures navigate == SignIn && toast == LoggedOutToast
      ensures ProtectedRoute.Guard(storage.GetItem(UserKey)) == ProtectedRoute.SignedOut
    {
      storage.RemoveItem(UserKey);
      toast := LoggedOutToast;
      navigate := SignIn;
    }
  }

  /** With no stored user the page shows both fallbacks. */
  lemma SignedOutFallbacks()
    ensures ReadUser(None) == Some(UserObject(None, None))
    ensures DisplayName(UserObject(None, None)) == NameFallback
    ensures DisplayEmail(UserObject(None, None)) == EmailFallback
  {
  }

  /** After a login the page shows the email that was entered and the name derived from it,
      or "User" when the email starts with '@'. */
  lemma ShowsSignedInUser(email: string)
    requires email != ""
    ensures var user := ReadUser(Some(Stringify(LoginPage.SessionRecord(email))));
      user.Some? && DisplayEmail(user.value) == email
      && DisplayName(user.value)
         == (if LoginPage.EmailName(email) == "" then NameFallback else LoginPage.EmailName(email))
  {
    var record := LoginPage.SessionRecord(email);
    StringifyNonEmpty(record);
    ParseStringify(record);
  }
}
