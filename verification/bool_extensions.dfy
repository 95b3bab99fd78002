/** `BoolExtensions`: a `bool?` defaulted to a `bool`. */
module BoolExtensions {
  import opened Wrappers

  /** `value ?? @default`. */
  function DefaultIfNull(value: Option<bool>, default: bool): (r: bool)
    ensures value == None ==> r == default
    ensures value != None ==> r == value.value
  {
    match value
    case None => default
    case Some(b) => b
  }

  /** `value ?? false`. */
  function FalseIfNull(value: Option<bool>): (r: bool)
    ensures r == DefaultIfNull(value, false)
    ensures r <==> value == Some(true)
  {
    match value
    case None => false
    case Some(b) => b
  }

  /** `value ?? true`. */
  function TrueIfNull(value: Option<bool>): (r: bool)
    ensures r == DefaultIfNull(value, true)
    ensures !r <==> value == Some(false)
  {
    match value
    case None => true
    case Some(b) => b
  }
}
