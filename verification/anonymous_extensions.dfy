/** `AnonymousExtensions`: a possibly-null value defaulted. */
module AnonymousExtensions {
  import opened Wrappers

  /**
   * `value ?? @default`. The default is itself nullable: for a reference type
   * the C# annotation `T` does not keep a caller from passing null.
   */
  function DefaultIfEmpty<T>(value: Option<T>, default: Option<T>): (r: Option<T>)
    ensures value != None ==> r == value
    ensures value == None ==> r == default
    ensures default != None ==> r != None
  {
    if value.Some? then value else default
  }

  /** Defaulting again with the same default changes nothing. */
  lemma DefaultIfEmptyIdempotent<T>(value: Option<T>, default: Option<T>)
    ensures DefaultIfEmpty(DefaultIfEmpty(value, default), default) == DefaultIfEmpty(value, default)
  {
  }
}
