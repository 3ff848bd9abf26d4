/** The password rule shared by the registration form and the change-password form. */
module Passwords {

  /** The shortest password either form accepts, counted in characters. */
  const MinLength: nat := 6

  /** The outcome of the two checks, in the order the forms make them. */
  datatype Verdict = Mismatch | TooShort | Accepted

  /** The confirmation is compared first; only a confirmed password is measured. */
  function Check(password: string, confirmation: string): (v: Verdict)
    ensures v == Mismatch <==> password != confirmation
    ensures v == TooShort <==> password == confirmation && |password| < MinLength
    ensures v == Accepted <==> password == confirmation && |password| >= MinLength
  {
    if password != confirmation then Mismatch
    else if |password| < MinLength then TooShort
    else Accepted
  }

  /** A password that is both unconfirmed and too short is reported as a mismatch. */
  lemma MismatchReportedFirst(password: string, confirmation: string)
    requires password != confirmation && |password| < MinLength
    ensures Check(password, confirmation) == Mismatch
  {
  }

  /** The bound is inclusive: exactly six characters pass, five do not. */
  lemma SixCharactersSuffice()
    ensures Check("abcdef", "abcdef") == Accepted
    ensures Check("abcde", "abcde") == TooShort
  {
  }
}
