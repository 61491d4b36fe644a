/** Conversion between snake_case attribute names and camelCase wire names (ASCII). */
module NameCase {
  predicate IsUpper(c: char) { 'A' <= c <= 'Z' }
  predicate IsLower(c: char) { 'a' <= c <= 'z' }
  predicate IsDigit(c: char) { '0' <= c <= '9' }

  function ToLower(c: char): char {
    if IsUpper(c) then c - 'A' + 'a' else c
  }

  function ToUpper(c: char): char {
    if IsLower(c) then c - 'a' + 'A' else c
  }

  function LowerAll(s: string): (r: string)
    ensures |r| == |s| && forall i :: 0 <= i < |s| ==> r[i] == ToLower(s[i])
  {
    seq(|s|, i requires 0 <= i < |s| => ToLower(s[i]))
  }

  // ------------------------------------------------------------- to camelCase

  /** The text up to the first underscore, and the components after it. */
  function Split(s: string): (r: seq<string>)
    ensures r != []
  {
    if s == "" then [""]
    else
      var rest := Split(s[1..]);
      if s[0] == '_' then [""] + rest else [[s[0]] + rest[0]] + rest[1..]
  }

  function Capitalized(s: string): string {
    if s == "" then "_" else [ToUpper(s[0])] + LowerAll(s[1..])
  }

  function CapitalizedAll(components: seq<string>): string {
    if components == [] then "" else Capitalized(components[0]) + CapitalizedAll(components[1..])
  }

  function ToCamelCase(s: string): string {
    var components := Split(s);
    components[0] + CapitalizedAll(components[1..])
  }

  // ------------------------------------------------------------- to snake_case

  /** Length of the run of capitals a text starts with: what the greedy "[A-Z]+" takes. */
  function CapitalRun(s: string): (n: nat)
    ensures n <= |s|
    ensures forall i :: 0 <= i < n ==> IsUpper(s[i])
    ensures n < |s| ==> !IsUpper(s[n])
  {
    if s == "" || !IsUpper(s[0]) then 0 else 1 + CapitalRun(s[1..])
  }

  /** The first substitution, "([A-Z]+)([A-Z][a-z])" to "\1_\2", leftmost and without overlaps:
      it applies where at least two capitals are followed by a lower-case letter. */
  function SplitAcronyms(s: string): string {
    if s == "" then ""
    else
      var n := CapitalRun(s);
      if 2 <= n < |s| && IsLower(s[n]) then s[..n - 1] + "_" + s[n - 1..n + 1] + SplitAcronyms(s[n + 1..])
      else [s[0]] + SplitAcronyms(s[1..])
  }

  /** The second substitution, "([a-z\d])([A-Z])" to "\1_\2". */
  function SplitWords(s: string): string {
    if |s| < 2 then s
    else if (IsLower(s[0]) || IsDigit(s[0])) && IsUpper(s[1]) then [s[0], '_', s[1]] + SplitWords(s[2..])
    else [s[0]] + SplitWords(s[1..])
  }

  function ToSnakeCase(s: string): string {
    LowerAll(SplitWords(SplitAcronyms(s)))
  }
}
