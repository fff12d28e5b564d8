/** The CLI's `StringExtensions.Truncate`: shortens a display string to a maximum width,
    marking the cut with "...". */
module StringExtensions {
  import opened Wrappers
  import opened Text

  /** The exception `value[..(maxLength - 3)]` throws when the end of the range is negative. */
  datatype TruncateError = RangeError

  const Ellipsis: string := "..."

  /** A null or empty value is returned as it is (even when a negative width is asked for); a value that fits is returned unchanged;
      otherwise the first `maxLength - 3` characters are kept and "..." appended, which throws
      when `maxLength < 3`. */
  function Truncate(value: Option<string>, maxLength: int): (r: Result<Option<string>, TruncateError>)
    ensures r.Err? <==> value.Some? && 0 < |value.value| && maxLength < |value.value| && maxLength < 3
    ensures r.Ok? ==> (r.value.None? <==> value.None?)
    ensures r.Ok? && value.Some? && |value.value| <= maxLength ==> r.value.value == value.value
    ensures r.Ok? && value.Some? && 0 < |value.value| && maxLength < |value.value| ==>
      |r.value.value| == maxLength
      && r.value.value[..maxLength - 3] == value.value[..maxLength - 3]
      && EndsWith(r.value.value, Ellipsis)
  {
    if IsNullOrEmpty(value) then Ok(value)
    else
      var v := value.value;
      if |v| <= maxLength then Ok(value)
      else if maxLength - 3 < 0 then Err(RangeError)
      else Ok(Some(v[..maxLength - 3] + Ellipsis))
  }

  /** Truncating a second time with the same width changes nothing. */
  lemma TruncateIdempotent(value: Option<string>, maxLength: int)
    requires Truncate(value, maxLength).Ok?
    ensures Truncate(Truncate(value, maxLength).value, maxLength) == Truncate(value, maxLength)
  {
  }

  /** Whatever comes out is never longer than the input or, when cut, than `maxLength`. */
  lemma TruncateNeverLonger(value: string, maxLength: int)
    requires Truncate(Some(value), maxLength).Ok?
    ensures |Truncate(Some(value), maxLength).value.value| <= |value|
    ensures 0 < |value| && maxLength < |value| ==> |Truncate(Some(value), maxLength).value.value| <= maxLength
  {
  }
}
