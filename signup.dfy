/**
 * The password rule of the sign-up form (Signup.jsx): `validatePassword`
 * and the two handlers that use it.
 */
module Signup {

  const TooShort := "Password must be at least 8 characters"
  const NoLowercase := "Password must contain at least one lowercase letter"
  const NoUppercase := "Password must contain at least one uppercase letter"
  const NoNumber := "Password must contain at least one number"

  predicate HasLower(p: string) { exists i :: 0 <= i < |p| && 'a' <= p[i] <= 'z' }
  predicate HasUpper(p: string) { exists i :: 0 <= i < |p| && 'A' <= p[i] <= 'Z' }
  predicate HasDigit(p: string) { exists i :: 0 <= i < |p| && '0' <= p[i] <= '9' }

  /** A password the form accepts. */
  predicate Strong(p: string) {
    |p| >= 8 && HasLower(p) && HasUpper(p) && HasDigit(p)
  }

  /** `validatePassword`: the first rule broken, in the order length, lower, upper, digit; "" when none is. */
  function ValidatePassword(p: string): (msg: string)
    ensures msg == "" <==> Strong(p)
    ensures |p| < 8 ==> msg == TooShort
    ensures |p| >= 8 && !HasLower(p) ==> msg == NoLowercase
    ensures |p| >= 8 && HasLower(p) && !HasUpper(p) ==> msg == NoUppercase
    ensures |p| >= 8 && HasLower(p) && HasUpper(p) && !HasDigit(p) ==> msg == NoNumber
  {
    if |p| < 8 then TooShort
    else if !HasLower(p) then NoLowercase
    else if !HasUpper(p) then NoUppercase
    else if !HasDigit(p) then NoNumber
    else ""
  }

  /** `handlePasswordChange`: the error shown while typing; an emptied field shows none. */
  function ErrorWhileTyping(p: string): (msg: string)
    ensures p == "" ==> msg == ""
    ensures p != "" ==> (msg == "" <==> Strong(p))
  {
    if p != "" then ValidatePassword(p) else ""
  }

  datatype SubmitStep = ShowPasswordError(message: string) | CallSignup

  /** `handleSubmit`: `signup` is called only with a password the rule accepts. */
  function OnSubmit(p: string): (s: SubmitStep)
    ensures s == CallSignup <==> Strong(p)
    ensures s.ShowPasswordError? ==> s.message != ""
  {
    var msg := ValidatePassword(p);
    if msg != "" then ShowPasswordError(msg) else CallSignup
  }
}
