/** The login form's validation schema: the identifier field must be an
    e-mail address or a username, and the password must satisfy five rules.
    The e-mail test belongs to the schema library and is a parameter here. */
module LoginForm {

  // Messages the schema attaches to each rule.
  const IdentifierInvalid := "Please enter a valid email or username"
  const IdentifierRequired := "Email or username is required"
  const PasswordRequired := "required"
  const PasswordTooShort := "Password must be at least 6 characters long"
  const PasswordTooLong := "Password must be at most 20 characters long"
  const PasswordNoUpper := "Password must contain at least one uppercase letter"
  const PasswordNoLower := "Password must contain at least one lowercase letter"
  const PasswordNoDigit := "Password must contain at least one number"

  /** The values the form submits. */
  datatype LoginValues = LoginValues(emailOrUsername: string, password: string)

  predicate IsUpper(c: char) { 'A' <= c <= 'Z' }
  predicate IsLower(c: char) { 'a' <= c <= 'z' }
  predicate IsDigit(c: char) { '0' <= c <= '9' }

  /** Membership in the class `[a-z0-9A_Z ]`. The `A_Z` in it names the three
      characters 'A', '_' and 'Z'; it is not the range of upper-case letters. */
  predicate InUsernameClass(c: char)
  {
    IsLower(c) || IsDigit(c) || c == 'A' || c == '_' || c == 'Z' || c == ' '
  }

  /** `/^[a-z0-9A_Z ]+$/.test(s)`: one class character, then either the end
      of the input or another match of the same pattern. */
  predicate MatchesUsernamePattern(s: string)
    ensures MatchesUsernamePattern(s) ==> s != [] && InUsernameClass(s[0])
    ensures |s| == 1 ==> (MatchesUsernamePattern(s) <==> InUsernameClass(s[0]))
  {
    s != [] && InUsernameClass(s[0]) && (|s| == 1 || MatchesUsernamePattern(s[1..]))
  }

  /** An unanchored one-character pattern such as `/[A-Z]/`: scanning from
      the left, some character belongs to the class. */
  predicate Search(s: string, inClass: char -> bool)
    ensures Search(s, inClass) ==> s != []
    ensures s != [] && inClass(s[0]) ==> Search(s, inClass)
  {
    s != [] && (inClass(s[0]) || Search(s[1..], inClass))
  }

  /** `s.length`: JavaScript counts UTF-16 code units, so a character outside
      the Basic Multilingual Plane counts twice. */
  function Utf16Length(s: string): (n: nat)
    ensures |s| <= n <= 2 * |s|
    ensures (forall i :: 0 <= i < |s| ==> s[i] as int <= 0xFFFF) ==> n == |s|
  {
    if s == [] then 0 else (if s[0] as int > 0xFFFF then 2 else 1) + Utf16Length(s[1..])
  }

  /** The messages of every identifier rule the value breaks, in the order
      the schema declares them: the e-mail-or-username test, then `required`. */
  function IdentifierErrors(v: string, isEmail: string -> bool): (r: seq<string>)
    ensures IdentifierRequired in r <==> v == ""
    ensures IdentifierInvalid in r <==> !isEmail(v) && !MatchesUsernamePattern(v)
    ensures v == "" && !isEmail(v) ==> r == [IdentifierInvalid, IdentifierRequired]
  {
    (if isEmail(v) || MatchesUsernamePattern(v) then [] else [IdentifierInvalid])
    + (if v == "" then [IdentifierRequired] else [])
  }

  /** The messages of every password rule the value breaks, in declaration order. */
  function PasswordErrors(p: string): (r: seq<string>)
    ensures PasswordRequired in r <==> p == ""
    ensures PasswordTooShort in r <==> Utf16Length(p) < 6
    ensures PasswordTooLong in r <==> Utf16Length(p) > 20
    ensures PasswordTooLong in r ==> PasswordTooShort !in r
    ensures |r| <= 5
  {
    (if p == "" then [PasswordRequired] else [])
    + (if Utf16Length(p) < 6 then [PasswordTooShort] else [])
    + (if Utf16Length(p) > 20 then [PasswordTooLong] else [])
    + (if Search(p, IsUpper) then [] else [PasswordNoUpper])
    + (if Search(p, IsLower) then [] else [PasswordNoLower])
    + (if Search(p, IsDigit) then [] else [PasswordNoDigit])
  }

  /** The form may be submitted when neither field has an error. */
  predicate LoginAccepted(values: LoginValues, isEmail: string -> bool)
    ensures LoginAccepted(values, isEmail) ==> values.emailOrUsername != "" && 3 <= |values.password| <= 20
  {
    IdentifierErrors(values.emailOrUsername, isEmail) == [] && PasswordErrors(values.password) == []
  }

  /** The username pattern matches exactly the non-empty strings made only of class characters. */
  lemma {:induction false} UsernamePatternMeaning(s: string)
    ensures MatchesUsernamePattern(s) <==> s != [] && forall i :: 0 <= i < |s| ==> InUsernameClass(s[i])
  {
    if |s| > 1 {
      UsernamePatternMeaning(s[1..]);
      assert forall i :: 1 <= i < |s| ==> s[i] == s[1..][i - 1];
    }
  }

  /** An unanchored class search succeeds exactly when some character is in the class. */
  lemma {:induction false} SearchMeaning(s: string, inClass: char -> bool)
    ensures Search(s, inClass) <==> exists i :: 0 <= i < |s| && inClass(s[i])
  {
    if s != [] {
      SearchMeaning(s[1..], inClass);
      if exists i :: 0 <= i < |s| && inClass(s[i]) {
        var j :| 0 <= j < |s| && inClass(s[j]);
        if j > 0 { assert inClass(s[1..][j - 1]); }
      }
    }
  }

  /** A password is accepted exactly when it is 6 to 20 UTF-16 code units long
      and holds an upper-case letter, a lower-case letter and a digit. */
  lemma PasswordAcceptedIff(p: string)
    ensures PasswordErrors(p) == [] <==>
      && 6 <= Utf16Length(p) <= 20
      && (exists i :: 0 <= i < |p| && IsUpper(p[i]))
      && (exists i :: 0 <= i < |p| && IsLower(p[i]))
      && (exists i :: 0 <= i < |p| && IsDigit(p[i]))
  {
    SearchMeaning(p, IsUpper);
    SearchMeaning(p, IsLower);
    SearchMeaning(p, IsDigit);
  }

  /** An empty password breaks `required` first, and the length rule too. */
  lemma EmptyPasswordRequired()
    ensures PasswordErrors("")[0] == PasswordRequired
    ensures PasswordTooShort in PasswordErrors("")
  {
  }

  /** The identifier is accepted exactly when it is non-empty and is an
      e-mail address or a string of characters from `[a-z0-9A_Z ]`. */
  lemma IdentifierAcceptedIff(v: string, isEmail: string -> bool)
    ensures IdentifierErrors(v, isEmail) == [] <==>
      v != "" && (isEmail(v) || forall i :: 0 <= i < |v| ==> InUsernameClass(v[i]))
  {
    UsernamePatternMeaning(v);
  }

  /** Because `A_Z` is not a range, a capitalised name such as "Bob" is not a
      username, while "bob" and "A_Z" are; "Bob" passes only as an e-mail. */
  lemma CapitalisedUsernameRejected(isEmail: string -> bool)
    ensures !MatchesUsernamePattern("Bob")
    ensures MatchesUsernamePattern("bob") && MatchesUsernamePattern("A_Z")
    ensures !isEmail("Bob") ==> IdentifierErrors("Bob", isEmail) == [IdentifierInvalid]
  {
    assert !InUsernameClass('B');
    assert MatchesUsernamePattern("b");
    assert MatchesUsernamePattern("ob");
    assert MatchesUsernamePattern("Z");
    assert MatchesUsernamePattern("_Z");
  }
}
