/**
 * The registration form's validators.  The password control carries
 * `required` and five rule validators, each naming its own error; the
 * confirmation control carries `required`; the form as a whole carries
 * `notSame`.  A control or form is valid when it has no error.
 */
module PasswordValidators {

  datatype ValidationError =
    | Required
    | AtLeastOneDigit
    | AtLeastOneLowercase
    | AtLeastOneUppercase
    | AtLeastOneSpecialCharacter
    | AtLeastEightCharacters
    | NotSame

  const MinLength: nat := 8

  /** The character classes the rules look for; which characters are special is configuration. */
  datatype CharClass = Digit | Lowercase | Uppercase | Special(chars: set<char>)

  predicate InClass(c: char, cls: CharClass) {
    match cls
    case Digit => '0' <= c <= '9'
    case Lowercase => 'a' <= c <= 'z'
    case Uppercase => 'A' <= c <= 'Z'
    case Special(chars) => c in chars
  }

  /** Whether some character of `s` is in the class. */
  function HasCharIn(s: string, cls: CharClass): (r: bool)
    ensures r <==> exists i :: 0 <= i < |s| && InClass(s[i], cls)
  {
    if s == [] then false
    else if InClass(s[0], cls) then true
    else
      var r := HasCharIn(s[1..], cls);
      assert forall i :: 1 <= i < |s| ==> s[i] == s[1..][i - 1];
      r
  }

  /** `Validators.required`: the empty value is an error. */
  function RequiredErrors(value: string): (errors: set<ValidationError>)
    ensures errors <= {Required}
    ensures errors == {} <==> value != []
  {
    if value == [] then {Required} else {}
  }

  function RuleError(holds: bool, error: ValidationError): set<ValidationError>
  {
    if holds then {} else {error}
  }

  /**
   * The length JavaScript reports for a string: UTF-16 code units, two for a
   * character above U+FFFF (a surrogate pair), one for any other.
   */
  function Utf16Length(s: string): nat
  {
    if s == [] then 0
    else (if s[0] as int >= 0x10000 then 2 else 1) + Utf16Length(s[1..])
  }

  /** Every character counts once or twice, and exactly once when none is above U+FFFF. */
  lemma {:induction false} Utf16LengthBounds(s: string)
    ensures |s| <= Utf16Length(s) <= 2 * |s|
    ensures (forall i :: 0 <= i < |s| ==> s[i] as int < 0x10000) ==> Utf16Length(s) == |s|
  {
    if s != [] {
      Utf16LengthBounds(s[1..]);
      assert forall i :: 1 <= i < |s| ==> s[1..][i - 1] == s[i];
    }
  }

  /** All errors of the password control for a given value; every validator runs, the empty value included. */
  function PasswordErrors(password: string, specials: set<char>): (errors: set<ValidationError>)
    ensures NotSame !in errors
    ensures Required in errors <==> password == []
    ensures AtLeastOneDigit in errors <==> forall i :: 0 <= i < |password| ==> !('0' <= password[i] <= '9')
    ensures AtLeastOneLowercase in errors <==> forall i :: 0 <= i < |password| ==> !('a' <= password[i] <= 'z')
    ensures AtLeastOneUppercase in errors <==> forall i :: 0 <= i < |password| ==> !('A' <= password[i] <= 'Z')
    ensures AtLeastOneSpecialCharacter in errors <==> forall i :: 0 <= i < |password| ==> password[i] !in specials
    ensures AtLeastEightCharacters in errors <==> Utf16Length(password) < MinLength
    ensures |password| >= MinLength ==> AtLeastEightCharacters !in errors
  {
    Utf16LengthBounds(password);
    RequiredErrors(password)
    + RuleError(HasCharIn(password, Digit), AtLeastOneDigit)
    + RuleError(HasCharIn(password, Lowercase), AtLeastOneLowercase)
    + RuleError(HasCharIn(password, Uppercase), AtLeastOneUppercase)
    + RuleError(HasCharIn(password, Special(specials)), AtLeastOneSpecialCharacter)
    + RuleError(Utf16Length(password) >= MinLength, AtLeastEightCharacters)
  }

  /** The form-level check: `notSame` exactly when the two entries differ. */
  function FormErrors(password: string, confirmation: string): (errors: set<ValidationError>)
    ensures errors <= {NotSame}
    ensures NotSame in errors <==> password != confirmation
  {
    if password == confirmation then {} else {NotSame}
  }

  /** The password policy stated on its own: long enough, and one character of each class. */
  predicate StrongPassword(password: string, specials: set<char>) {
    && Utf16Length(password) >= MinLength
    && (exists i :: 0 <= i < |password| && '0' <= password[i] <= '9')
    && (exists i :: 0 <= i < |password| && 'a' <= password[i] <= 'z')
    && (exists i :: 0 <= i < |password| && 'A' <= password[i] <= 'Z')
    && (exists i :: 0 <= i < |password| && password[i] in specials)
  }

  /** The password control is valid exactly when the password meets the policy. */
  lemma PasswordValidIffStrong(password: string, specials: set<char>)
    ensures PasswordErrors(password, specials) == {} <==> StrongPassword(password, specials)
  {
  }

  /** An empty password also breaks the length rule, so `required` never stands alone. */
  lemma RequiredImpliesTooShort(password: string, specials: set<char>)
    ensures Required in PasswordErrors(password, specials) ==> AtLeastEightCharacters in PasswordErrors(password, specials)
  {
  }

  /** The form-level check does not depend on which entry is the password. */
  lemma FormErrorsSymmetric(password: string, confirmation: string)
    ensures FormErrors(password, confirmation) == FormErrors(confirmation, password)
  {
  }

  /** The whole registration form (email format apart) is valid. */
  predicate FormValid(email: string, password: string, confirmation: string, specials: set<char>) {
    && RequiredErrors(email) == {}
    && PasswordErrors(password, specials) == {}
    && RequiredErrors(confirmation) == {}
    && FormErrors(password, confirmation) == {}
  }

  /** In a valid form the confirmation meets the password policy too. */
  lemma ValidFormConfirmationIsStrong(email: string, password: string, confirmation: string, specials: set<char>)
    requires FormValid(email, password, confirmation, specials)
    ensures StrongPassword(confirmation, specials)
  {
    PasswordValidIffStrong(password, specials);
  }

  // The passwords the component's behaviour is pinned to, with `!` as the special character.

  lemma WitnessedRequired()
    ensures Required in PasswordErrors("", {'!'})
    ensures RequiredErrors("") == {Required}
  {
  }

  lemma WitnessedDigit()
    ensures AtLeastOneDigit in PasswordErrors("NoDigit!A", {'!'})
    ensures AtLeastOneDigit !in PasswordErrors("HasDigit1!A", {'!'})
  {
    var bad := "NoDigit!A";
    assert forall i | 0 <= i < |bad| :: !InClass(bad[i], Digit) by {
      assert bad == ['N', 'o', 'D', 'i', 'g', 'i', 't', '!', 'A'];
    }
    assert !HasCharIn(bad, Digit);
    var good := "HasDigit1!A";
    assert InClass(good[8], Digit);
  }

  lemma WitnessedLowercase()
    ensures AtLeastOneLowercase in PasswordErrors("NOLOWER1!", {'!'})
    ensures AtLeastOneLowercase !in PasswordErrors("HasLower1!A", {'!'})
  {
    var bad := "NOLOWER1!";
    assert forall i | 0 <= i < |bad| :: !InClass(bad[i], Lowercase) by {
      assert bad == ['N', 'O', 'L', 'O', 'W', 'E', 'R', '1', '!'];
    }
    assert !HasCharIn(bad, Lowercase);
    var good := "HasLower1!A";
    assert InClass(good[1], Lowercase);
  }

  lemma WitnessedUppercase()
    ensures AtLeastOneUppercase in PasswordErrors("noupper1!", {'!'})
    ensures AtLeastOneUppercase !in PasswordErrors("HasUpper1!a", {'!'})
  {
    var bad := "noupper1!";
    assert forall i | 0 <= i < |bad| :: !InClass(bad[i], Uppercase) by {
      assert bad == ['n', 'o', 'u', 'p', 'p', 'e', 'r', '1', '!'];
    }
    assert !HasCharIn(bad, Uppercase);
    var good := "HasUpper1!a";
    assert InClass(good[0], Uppercase);
  }

  lemma WitnessedSpecial()
    ensures AtLeastOneSpecialCharacter in PasswordErrors("NoSpecial1A", {'!'})
    ensures AtLeastOneSpecialCharacter !in PasswordErrors("HasSpecial1!A", {'!'})
  {
    var bad := "NoSpecial1A";
    assert forall i | 0 <= i < |bad| :: !InClass(bad[i], Special({'!'})) by {
      assert bad == ['N', 'o', 'S', 'p', 'e', 'c', 'i', 'a', 'l', '1', 'A'];
    }
    assert !HasCharIn(bad, Special({'!'}));
    var good := "HasSpecial1!A";
    assert InClass(good[11], Special({'!'}));
  }

  lemma WitnessedLength()
    ensures AtLeastEightCharacters in PasswordErrors("Short1!", {'!'})
    ensures AtLeastEightCharacters !in PasswordErrors("LongEnough1!A", {'!'})
  {
    Utf16LengthBounds("LongEnough1!A");
  }

  /** Length is counted in UTF-16 units: three characters above U+FFFF make seven characters ten units long. */
  lemma SurrogatePairsCountTwice()
    ensures Utf16Length("Aa1!\U{1F600}\U{1F600}\U{1F600}") == 10
    ensures AtLeastEightCharacters !in PasswordErrors("Aa1!\U{1F600}\U{1F600}\U{1F600}", {'!'})
  {
    var s := "Aa1!\U{1F600}\U{1F600}\U{1F600}";
    assert |s| == 7;
    assert s[1..] == "a1!\U{1F600}\U{1F600}\U{1F600}";
    assert s[4..] == "\U{1F600}\U{1F600}\U{1F600}";
  }

  lemma WitnessedNotSame()
    ensures FormErrors("Password1!", "Password1!") == {}
    ensures FormErrors("Password1!", "DifferentPassword1!") == {NotSame}
  {
  }

  lemma WitnessedValidForm()
    ensures FormValid("test@example.com", "Password1!", "Password1!", {'!'})
  {
    var p := "Password1!";
    assert StrongPassword(p, {'!'}) by {
      assert '0' <= p[8] <= '9' && 'a' <= p[1] <= 'z' && 'A' <= p[0] <= 'Z' && p[9] in {'!'};
    }
    PasswordValidIffStrong(p, {'!'});
  }
}
