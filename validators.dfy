/** The value checks of reviews/validators.py and the field limits they sit beside. */
module Validators {
  import opened Common

  const ReservedUsername: string := "me"
  const MaxUsernameLength := 150

  /** `\w`, restricted to ASCII: letters, digits and the underscore. */
  predicate IsWordChar(c: char)
  {
    'a' <= c <= 'z' || 'A' <= c <= 'Z' || '0' <= c <= '9' || c == '_'
  }

  /** One character of the class `[\w.@+-]`. */
  predicate IsUsernameChar(c: char)
  {
    IsWordChar(c) || c == '.' || c == '@' || c == '+' || c == '-'
  }

  /** The pattern `^[\w.@+-]+\z`, matched one character at a time: at least one
      character from the class, then either the end of the string or more of the class. */
  function MatchesUsernamePattern(s: string): (r: bool)
    ensures r <==> |s| > 0 && forall i :: 0 <= i < |s| ==> IsUsernameChar(s[i])
  {
    |s| > 0 && IsUsernameChar(s[0]) && (|s| == 1 || MatchesUsernamePattern(s[1..]))
  }

  /** `\z` anchors at the very end, so a trailing newline is never accepted. */
  lemma NoTrailingNewline(s: string)
    ensures !MatchesUsernamePattern(s + "\n")
  {
    assert (s + "\n")[|s|] == '\n';
  }

  /** What `RegexUsernameValidator`, listed as a class in `validators=[...]`, does when called
      with the value: the call builds a new validator whose pattern IS the value and whose
      compilation is deferred, so no match is attempted and nothing is ever rejected. */
  function RegexUsernameValidatorAsWritten(value: string): (r: Result<()>)
    ensures r.Ok?
  {
    Ok(())
  }

  /** The check the validator is evidently meant to perform. */
  function ValidateUsernamePattern(value: string): (r: Result<()>)
    ensures r.Ok? <==> MatchesUsernamePattern(value)
    ensures r.Err? ==> r.error == BadRequest
  {
    if MatchesUsernamePattern(value) then Ok(()) else Err(BadRequest)
  }

  /** The as-written validator accepts a username the pattern rejects. */
  lemma AsWrittenAcceptsSpace()
    ensures RegexUsernameValidatorAsWritten("a b").Ok?
    ensures ValidateUsernamePattern("a b").Err?
  {
    assert !IsUsernameChar("a b"[1]);
  }

  /** `validate_username_not_me`: rejects exactly the string "me", returns every other value. */
  function ValidateUsernameNotMe(value: string): (r: Result<string>)
    ensures r.Err? <==> value == ReservedUsername
    ensures r.Ok? ==> r.value == value
  {
    if value == ReservedUsername then Err(BadRequest) else Ok(value)
  }

  /** The comparison is exact and case-sensitive. */
  lemma CapitalisedMePasses()
    ensures ValidateUsernameNotMe("Me") == Ok("Me")
    ensures ValidateUsernameNotMe("me").Err?
  {
  }

  /** Both validators attached to a username, as intended: the reserved word, then the
      corrected pattern check (the code as written applies only the first). */
  function ValidateUsername(value: string): (r: Result<string>)
    ensures r.Ok? <==> value != ReservedUsername && MatchesUsernamePattern(value)
    ensures r.Ok? ==> r.value == value
  {
    match ValidateUsernameNotMe(value)
    case Err(e) => Err(e)
    case Ok(v) => if ValidateUsernamePattern(v).Ok? then Ok(v) else Err(BadRequest)
  }

  /** "me" passes the pattern, so only the reserved-word check stops it; a username
      passing both validators is non-empty and is not "me". */
  lemma MeMatchesPattern()
    ensures MatchesUsernamePattern(ReservedUsername)
    ensures ValidateUsername(ReservedUsername).Err?
  {
  }

  lemma AcceptedUsernameShape(value: string)
    requires ValidateUsername(value).Ok?
    ensures |value| > 0 && value != ReservedUsername
  {
  }

  /** `validate_year` with the clock's current year passed in: rejects iff the year is
      later than the current one. */
  function ValidateYear(value: int, currentYear: int): (r: Result<()>)
    ensures r.Err? <==> value > currentYear
  {
    if value > currentYear then Err(BadRequest) else Ok(())
  }

  lemma CurrentYearAccepted(currentYear: int)
    ensures ValidateYear(currentYear, currentYear).Ok?
    ensures ValidateYear(currentYear + 1, currentYear).Err?
  {
  }
}
