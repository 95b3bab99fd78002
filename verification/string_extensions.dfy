/** `StringExtensions`: blank strings to null, and conditional replacement. */
module StringExtensions {
  import opened Wrappers

  /**
   * `char.IsWhiteSpace`, which `string.Trim()` strips: U+0009 to U+000D,
   * U+0085 and the Unicode space, line and paragraph separators.
   */
  predicate IsWhiteSpace(c: char) {
    || ('\t' <= c <= '\r')
    || c == ' ' || c == '\U{85}' || c == '\U{A0}' || c == '\U{1680}'
    || ('\U{2000}' <= c <= '\U{200A}')
    || c == '\U{2028}' || c == '\U{2029}' || c == '\U{202F}' || c == '\U{205F}' || c == '\U{3000}'
  }

  /** Every character is white space (the empty string included). */
  predicate IsBlank(s: string) {
    forall i :: 0 <= i < |s| ==> IsWhiteSpace(s[i])
  }

  /** `s` without its leading white space. */
  function TrimStart(s: string): (r: string)
    ensures |r| <= |s| && r == s[|s| - |r|..]
    ensures IsBlank(s[..|s| - |r|])
    ensures r == [] || !IsWhiteSpace(r[0])
    decreases |s|
  {
    if s != [] && IsWhiteSpace(s[0]) then
      var r := TrimStart(s[1..]);
      assert s[..|s| - |r|] == [s[0]] + s[1..][..|s[1..]| - |r|];
      r
    else s
  }

  /** `s` without its trailing white space. */
  function TrimEnd(s: string): (r: string)
    ensures |r| <= |s| && r == s[..|r|]
    ensures IsBlank(s[|r|..])
    ensures r == [] || !IsWhiteSpace(r[|r| - 1])
    decreases |s|
  {
    if s != [] && IsWhiteSpace(s[|s| - 1]) then
      var r := TrimEnd(s[..|s| - 1]);
      assert s[|r|..] == s[..|s| - 1][|r|..] + [s[|s| - 1]];
      r
    else s
  }

  /**
   * `string.Trim()`: `s` with only its leading and trailing white space cut
   * off, empty exactly when `s` is blank.
   */
  function Trim(s: string): (r: string)
    ensures exists i, j :: 0 <= i <= j <= |s| && r == s[i..j] && IsBlank(s[..i]) && IsBlank(s[j..])
    ensures r == [] <==> IsBlank(s)
    ensures r != [] ==> !IsWhiteSpace(r[0]) && !IsWhiteSpace(r[|r| - 1])
  {
    var start := TrimStart(s);
    var r := TrimEnd(start);
    var i := |s| - |start|;
    assert r == s[i..i + |r|];
    assert s[i + |r|..] == start[|r|..];
    assert r == [] ==> IsBlank(s) by {
      if r == [] {
        assert start == [];
        assert s[..i] == s;
      }
    }
    r
  }

  function IsNullOrEmpty(s: Option<string>): bool {
    s == None || s == Some("")
  }

  /** `EmptyToNullReplace`: null for null, empty or all-white-space input, otherwise the input itself, untrimmed. */
  function EmptyToNullReplace(value: Option<string>): (r: Option<string>)
    ensures r == None <==> value == None || IsBlank(value.value)
    ensures r != None ==> r == value
  {
    var trimmed := match value
      case None => None
      case Some(s) => Some(Trim(s));
    if IsNullOrEmpty(trimmed) then None else value
  }

  /** Applying `EmptyToNullReplace` twice is applying it once. */
  lemma EmptyToNullReplaceIdempotent(value: Option<string>)
    ensures EmptyToNullReplace(EmptyToNullReplace(value)) == EmptyToNullReplace(value)
  {
  }

  /** `ReplaceWithIf`: `newValue` when the condition holds of `value`, otherwise `value`. */
  function ReplaceWithIf(value: Option<string>, condition: Option<string> -> bool, newValue: Option<string>): (r: Option<string>)
    ensures condition(value) ==> r == newValue
    ensures !condition(value) ==> r == value
  {
    if condition(value) then newValue else value
  }
}
