/** The Jakarta Bean Validation constraints the request records use, as predicates on
    nullable values (`None` is null). A constraint other than `@NotNull` / `@NotBlank`
    accepts null, as the standard prescribes. */
module Validation {
  import opened Wrappers

  /** `String.trim`: drops every leading and trailing character at or below U+0020. */
  function Trim(s: string): (r: string)
    ensures |r| <= |s|
    ensures r != [] ==> r[0] > ' ' && r[|r| - 1] > ' '
  {
    TrimEnd(TrimStart(s))
  }

  /** Trimming leaves nothing exactly when every character is at or below U+0020. */
  lemma TrimEmptyIffBlank(s: string)
    ensures Trim(s) == [] <==> Blank(s)
  {
    var start := TrimStart(s);
    var k := |s| - |start|;
    if Trim(s) == [] {
      assert start == [];
    } else {
      assert Trim(s)[0] == start[0] == s[k];
    }
  }

  function TrimStart(s: string): (r: string)
    ensures |r| <= |s| && r == s[|s| - |r|..]
    ensures r != [] ==> r[0] > ' '
    ensures forall i :: 0 <= i < |s| - |r| ==> s[i] <= ' '
  {
    if s == [] || s[0] > ' ' then s
    else
      var r := TrimStart(s[1..]);
      assert forall i :: 1 <= i < |s| ==> s[i] == s[1..][i - 1];
      r
  }

  function TrimEnd(s: string): (r: string)
    ensures |r| <= |s| && r == s[..|r|]
    ensures r != [] ==> r[|r| - 1] > ' '
    ensures forall i :: |r| <= i < |s| ==> s[i] <= ' '
  {
    if s == [] || s[|s| - 1] > ' ' then s
    else TrimEnd(s[..|s| - 1])
  }

  /** Every character is at or below U+0020, so trimming removes them all. */
  predicate Blank(s: string) {
    forall i :: 0 <= i < |s| ==> s[i] <= ' '
  }

  /** `@NotBlank`: not null, and holding a character above U+0020. */
  predicate NotBlank(s: Option<string>) {
    s.Some? && !Blank(s.value)
  }

  /** `@NotBlank` is the validator's check: the value is present and not empty once trimmed. */
  lemma NotBlankIsTrimmedNonEmpty(s: Option<string>)
    ensures NotBlank(s) <==> s.Some? && |Trim(s.value)| > 0
  {
    if s.Some? {
      TrimEmptyIffBlank(s.value);
    }
  }

  /** `String.length()`: the number of UTF-16 code units, where a character above U+FFFF
      takes a surrogate pair. */
  function Utf16Length(s: string): (n: nat)
    ensures |s| <= n <= 2 * |s|
    ensures n == |s| <==> forall i :: 0 <= i < |s| ==> s[i] as int <= 0xFFFF
  {
    if s == [] then 0
    else (if s[0] as int <= 0xFFFF then 1 else 2) + Utf16Length(s[1..])
  }

  /** `@Size(max = n)` on a string, which measures `String.length()`. */
  predicate SizeAtMost(s: Option<string>, n: nat) {
    s.None? || Utf16Length(s.value) <= n
  }

  /** `@NotNull` together with `@Min(lo)` and `@Max(hi)`. */
  predicate PresentWithin(v: Option<int>, lo: int, hi: int) {
    v.Some? && lo <= v.value <= hi
  }

  /** `@NotNull` together with `@Min(lo)`. */
  predicate PresentAtLeast(v: Option<int>, lo: int) {
    v.Some? && lo <= v.value
  }
}
