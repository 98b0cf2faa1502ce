/** The pseudo-validation status `mock_validation_status`. It is a
    placeholder, not a legal lookup: the status is read off the last hex digit
    of the MD5 digest of the text's UTF-8 encoding. The digest itself is a
    foreign computation, so the model takes "the last hex digit of the MD5
    digest" as a parameter `lastHexDigit` of each operation that needs it. */
module Validation {

  /** The value of one hexadecimal digit. */
  type HexDigit = d: int | 0 <= d < 16

  datatype Status = Valid | Review | Invalid {
    /** The string the source returns. */
    function Name(): string {
      match this
      case Valid => "valid"
      case Review => "review"
      case Invalid => "invalid"
    }
  }

  /** The status for a final hex digit `d`: its bucket is `d % 3`, bucket 0 is
      valid, bucket 1 is review, anything else invalid. Of the sixteen digits,
      six give valid and five each give review and invalid. */
  function StatusOfDigit(d: HexDigit): (st: Status)
    ensures st == Valid <==> d in {0, 3, 6, 9, 12, 15}
    ensures st == Review <==> d in {1, 4, 7, 10, 13}
    ensures st == Invalid <==> d in {2, 5, 8, 11, 14}
  {
    var bucket := d % 3;
    if bucket == 0 then Valid
    else if bucket == 1 then Review
    else Invalid
  }

  /** `mock_validation_status(text)`, given the digit function. */
  function MockValidationStatus(lastHexDigit: string -> HexDigit, text: string): Status {
    StatusOfDigit(lastHexDigit(text))
  }

  /** A text's status is decided by its digit modulo 3, and its name is one
      of the three strings the source returns. */
  lemma MockValidationStatusBuckets(lastHexDigit: string -> HexDigit, text: string)
    ensures MockValidationStatus(lastHexDigit, text).Name() in {"valid", "review", "invalid"}
    ensures MockValidationStatus(lastHexDigit, text) == Valid <==> lastHexDigit(text) % 3 == 0
    ensures MockValidationStatus(lastHexDigit, text) == Review <==> lastHexDigit(text) % 3 == 1
    ensures MockValidationStatus(lastHexDigit, text) == Invalid <==> lastHexDigit(text) % 3 == 2
  {
  }
}
