/**
 The few JavaScript built-ins that the modelled TypeScript code relies on:
 `Array.prototype.find`, `String.prototype.substring`, `charAt`, `slice`
 and `toUpperCase`.
 */
module Js {
  import opened Wrappers

  /** `Array.prototype.findIndex`: the index of the first element satisfying `p`, if any. */
  function FindIndex<T>(s: seq<T>, p: T -> bool): (r: Option<nat>)
    ensures r.Some? ==> r.value < |s| && p(s[r.value])
    ensures r.Some? ==> forall k :: 0 <= k < r.value ==> !p(s[k])
    ensures r.None? ==> forall k :: 0 <= k < |s| ==> !p(s[k])
  {
    if |s| == 0 then None
    else if p(s[0]) then Some(0)
    else match FindIndex(s[1..], p)
      case None => None
      case Some(i) => Some(i + 1)
  }

  /** `Array.prototype.find`: the first element satisfying `p`, or `undefined` (`None`). */
  function Find<T>(s: seq<T>, p: T -> bool): (r: Option<T>)
    ensures r.Some? <==> exists k :: 0 <= k < |s| && p(s[k])
    ensures r.Some? ==> p(r.value) && r.value in s
    ensures r.Some? ==> exists k :: 0 <= k < |s| && r.value == s[k] && forall m :: 0 <= m < k ==> !p(s[m])
  {
    match FindIndex(s, p)
    case None => None
    case Some(i) => Some(s[i])
  }

  /** Clamps a string index into `[0, n]`, as the string methods do with their arguments. */
  function Clamp(x: int, n: nat): (r: nat)
    ensures r <= n
    ensures 0 <= x <= n ==> r == x
  {
    if x < 0 then 0 else if x > n then n else x
  }

  /**
   `String.prototype.substring(start, end)`: both indices are clamped into
   `[0, |s|]` and swapped when `start > end`. The one-argument form is
   `Substring(s, start, |s|)`.
   */
  function Substring(s: string, start: int, end: int): (r: string)
    ensures 0 <= start <= end <= |s| ==> r == s[start..end]
    ensures 0 <= start <= |s| && |s| <= end ==> r == s[start..]
    ensures |r| <= |s|
  {
    var a := Clamp(start, |s|);
    var b := Clamp(end, |s|);
    if a <= b then s[a..b] else s[b..a]
  }

  /** `String.prototype.charAt(i)`: the one-character string at `i`, or `""` out of range. */
  function CharAt(s: string, i: int): (r: string)
    ensures 0 <= i < |s| ==> r == [s[i]]
    ensures !(0 <= i < |s|) ==> r == ""
  {
    if 0 <= i < |s| then [s[i]] else ""
  }

  /** `String.prototype.slice(start)` for a non-negative `start`. */
  function Slice(s: string, start: nat): (r: string)
    ensures start <= |s| ==> r == s[start..]
    ensures |s| < start ==> r == ""
  {
    if start <= |s| then s[start..] else ""
  }

  predicate IsLowerAscii(c: char) { 'a' <= c <= 'z' }

  /** Upper-case mapping of one character, restricted to the ASCII letters. */
  function UpperCaseChar(c: char): (u: char)
    ensures IsLowerAscii(c) ==> u as int == c as int - 32
    ensures !IsLowerAscii(c) ==> u == c
    ensures !IsLowerAscii(u)
  {
    if IsLowerAscii(c) then (c as int - 32) as char else c
  }

  /** `String.prototype.toUpperCase`, character by character (ASCII letters only). */
  function ToUpperCase(s: string): (r: string)
    ensures |r| == |s|
    ensures forall i :: 0 <= i < |s| ==> r[i] == UpperCaseChar(s[i])
  {
    seq(|s|, i requires 0 <= i < |s| => UpperCaseChar(s[i]))
  }
}
