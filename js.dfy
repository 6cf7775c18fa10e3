/** JavaScript value semantics that the metadata extractor relies on:
    string-or-undefined values and their truthiness, `||`, `toLowerCase`
    (ASCII only), `trim`, `split(sep)[0]` and `slice(-n)`. */
module Js {

  datatype Option<+T> = None | Some(value: T)

  /** A JavaScript value that is a string or `undefined` (`None`). */
  type Val = Option<string>

  /** JavaScript truthiness of a string-or-undefined value: only a non-empty string is truthy. */
  predicate Truthy(v: Val) {
    v.Some? && v.value != ""
  }

  /** `a || b` on string-or-undefined values. */
  function Or(a: Val, b: Val): Val {
    if Truthy(a) then a else b
  }

  /** A JavaScript object used as a dictionary, such as a header object or `metaData`:
      every value a string or `undefined`. */
  type Dict = map<string, Val>

  /** The value of `key` in a dictionary (`undefined` when missing). */
  function Get(m: Dict, key: string): Val {
    if key in m then m[key] else None
  }

  predicate IsUpper(c: char) {
    'A' <= c <= 'Z'
  }

  function LowerChar(c: char): char {
    if IsUpper(c) then (c as int + 32) as char else c
  }

  /** No ASCII upper-case letter occurs in `s`. */
  predicate IsLowerCase(s: string) {
    forall i :: 0 <= i < |s| ==> !IsUpper(s[i])
  }

  /** `s.toLowerCase()`, restricted to the ASCII letters. */
  function Lower(s: string): (r: string)
    ensures |r| == |s|
    ensures forall i :: 0 <= i < |s| ==> r[i] == LowerChar(s[i])
    ensures IsLowerCase(r)
  {
    if s == [] then [] else [LowerChar(s[0])] + Lower(s[1..])
  }

  lemma LowerOfLowerCase(s: string)
    requires IsLowerCase(s)
    ensures Lower(s) == s
  {
  }

  /** The characters that JavaScript's `String.prototype.trim` removes:
      WhiteSpace (including every space separator) and LineTerminator. */
  predicate IsJsWhitespace(c: char) {
    || c == '\t' || c == '\n' || c == '\U{000B}' || c == '\U{000C}' || c == '\r'
    || c == ' ' || c == '\U{00A0}' || c == '\U{1680}'
    || ('\U{2000}' <= c <= '\U{200A}')
    || c == '\U{2028}' || c == '\U{2029}' || c == '\U{202F}' || c == '\U{205F}'
    || c == '\U{3000}' || c == '\U{FEFF}'
  }

  function TrimStart(s: string): string {
    if s != [] && IsJsWhitespace(s[0]) then TrimStart(s[1..]) else s
  }

  function TrimEnd(s: string): string {
    if s != [] && IsJsWhitespace(s[|s| - 1]) then TrimEnd(s[..|s| - 1]) else s
  }

  /** `s.trim()`. */
  function Trim(s: string): string {
    TrimEnd(TrimStart(s))
  }

  /** Every character of `s` is white space. */
  predicate Blank(s: string) {
    forall i :: 0 <= i < |s| ==> IsJsWhitespace(s[i])
  }

  lemma {:induction false} TrimStartEmpty(s: string)
    ensures TrimStart(s) == [] <==> Blank(s)
  {
    if s != [] && IsJsWhitespace(s[0]) {
      TrimStartEmpty(s[1..]);
      if Blank(s[1..]) {
        forall i | 0 <= i < |s| ensures IsJsWhitespace(s[i]) {
          if i > 0 { assert s[i] == s[1..][i - 1]; }
        }
      }
    }
  }

  lemma {:induction false} TrimEndEmpty(s: string)
    ensures TrimEnd(s) == [] <==> Blank(s)
  {
    if s != [] && IsJsWhitespace(s[|s| - 1]) {
      var p := s[..|s| - 1];
      TrimEndEmpty(p);
      if Blank(p) {
        forall i | 0 <= i < |s| ensures IsJsWhitespace(s[i]) {
          if i < |s| - 1 { assert s[i] == p[i]; }
        }
      }
    }
  }

  /** `s.trim().length` is 0 exactly when `s` consists of white space only. */
  lemma TrimEmptyIffBlank(s: string)
    ensures |Trim(s)| == 0 <==> Blank(s)
  {
    TrimStartEmpty(s);
    TrimEndEmpty(TrimStart(s));
    if TrimStart(s) != [] {
      TrimStartNotBlank(s);
    }
  }

  lemma {:induction false} TrimStartNotBlank(s: string)
    requires TrimStart(s) != []
    ensures !Blank(TrimStart(s))
  {
    if s != [] && IsJsWhitespace(s[0]) {
      TrimStartNotBlank(s[1..]);
    }
  }

  /** `s.split(sep)[0]`: the longest prefix of `s` that does not contain `sep`. */
  function SplitHead(s: string, sep: char): (r: string)
    ensures r <= s
    ensures sep !in r
    ensures |r| < |s| ==> s[|r|] == sep
  {
    if s == [] || s[0] == sep then [] else [s[0]] + SplitHead(s[1..], sep)
  }

  /** `s.slice(-n)` for a positive `n`: the last `n` characters, or all of `s` when shorter. */
  function SliceLast(s: string, n: nat): string {
    if |s| <= n then s else s[|s| - n..]
  }

  predicate EndsWith(s: string, suffix: string) {
    |suffix| <= |s| && s[|s| - |suffix|..] == suffix
  }

  /** Comparing `s.slice(-|t|)` with `t` is the same as asking whether `s` ends with `t`. */
  lemma SliceLastIsSuffix(s: string, t: string)
    requires |t| > 0
    ensures SliceLast(s, |t|) == t <==> EndsWith(s, t)
  {
  }
}
