/** Shared result types and small string helpers used by every other module. */
module Common {

  datatype Option<T> = None | Some(value: T)

  /** How a request fails, by the HTTP status the view answers with. */
  datatype Error =
    | BadRequest   // 400: a serializer validation error or a caught IntegrityError
    | NotFound     // 404: get_object_or_404 found nothing
    | ServerError  // 500: an exception the view does not catch (KeyError, IntegrityError)

  datatype Result<T> = Ok(value: T) | Err(error: Error)

  function GetOr<T>(o: Option<T>, default: T): T
  {
    match o
    case Some(v) => v
    case None => default
  }

  /** Lower-casing of one character, restricted to ASCII letters. */
  function ToLowerChar(c: char): char
  {
    if 'A' <= c <= 'Z' then (c as int + 32) as char else c
  }

  predicate IsLowerChar(c: char)
  {
    !('A' <= c <= 'Z')
  }

  function ToLower(s: string): (r: string)
    ensures |r| == |s|
    ensures forall i :: 0 <= i < |s| ==> IsLowerChar(r[i])
    ensures forall i :: 0 <= i < |s| && IsLowerChar(s[i]) ==> r[i] == s[i]
    ensures forall i :: 0 <= i < |s| && 'A' <= s[i] <= 'Z' ==> r[i] == (s[i] as int + 32) as char
  {
    seq(|s|, i requires 0 <= i < |s| => ToLowerChar(s[i]))
  }

  /** Lower-casing twice is lower-casing once, so a stored (lowered) email is a fixed point. */
  lemma ToLowerIdempotent(s: string)
    ensures ToLower(ToLower(s)) == ToLower(s)
  {
  }
}
