/** Typed error construction: every error message is padded with dots to a
    minimum length. */
module Errors {
  import opened Results
  import opened Text
  import opened Types

  const MinMessageLength: nat := 15

  /** `createError`: copies type, code and field, and pads a short message
      with '.' up to `MinMessageLength` characters. */
  function CreateError(errorType: ColorErrorType, code: string, message: string, field: Option<string>): (e: ColorError)
    ensures e.errorType == errorType && e.code == code && e.field == field
    ensures |e.message| >= MinMessageLength
    ensures |message| <= |e.message| && e.message[..|message|] == message
    ensures |message| >= MinMessageLength ==> e.message == message
    ensures |message| < MinMessageLength ==> |e.message| == MinMessageLength
    ensures forall i :: |message| <= i < |e.message| ==> e.message[i] == '.'
  {
    var normalized := if |message| >= MinMessageLength then message
      else message + Repeat('.', MinMessageLength - |message|);
    ColorError(code, errorType, field, normalized)
  }

  /** `throwError`: always throws, with exactly what `CreateError` builds. */
  function ThrowError<T>(errorType: ColorErrorType, code: string, message: string, field: Option<string>): (r: Result<T, ColorError>)
    ensures r.Failure? && r.error == CreateError(errorType, code, message, field)
  {
    Failure(CreateError(errorType, code, message, field))
  }

  /** Padding is idempotent: an error's message, fed back in, comes out
      unchanged. */
  lemma CreateErrorIdempotent(errorType: ColorErrorType, code: string, message: string, field: Option<string>)
    ensures var e := CreateError(errorType, code, message, field);
      CreateError(errorType, code, e.message, field) == e
  {
  }
}
