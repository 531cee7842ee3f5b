/** Reading numeric settings from the environment, as every server function does. */
module Config {

  import opened Wrappers
  import opened Crypto

  /** `parsePositiveInt(value, fallback)`: a missing or empty setting, and one that
      `Number()` does not read as a positive integer, give the fallback; otherwise the
      integer it denotes. */
  function ParsePositiveInt(number: string -> Option<real>, value: Option<string>, fallback: int): (r: int)
    ensures value.Some? && value.value != [] && IsPositiveInteger(number(value.value)) ==>
      r >= 1 && r as real == number(value.value).value
    ensures !(value.Some? && value.value != [] && IsPositiveInteger(number(value.value))) ==>
      r == fallback
  {
    if value.None? || value.value == [] then fallback
    else
      var parsed := number(value.value);
      if !IsPositiveInteger(parsed) then fallback else parsed.value.Floor
  }

  /** With a positive fallback, whatever the environment holds, the setting is positive. */
  lemma ParsePositiveIntPositive(number: string -> Option<real>, value: Option<string>, fallback: int)
    requires fallback >= 1
    ensures ParsePositiveInt(number, value, fallback) >= 1
  {
  }
}
