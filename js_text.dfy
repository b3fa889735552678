/**
 * The JavaScript string built-ins that the multihash split calls:
 * `substring`, `slice` with a negative start, `toLowerCase` and `join('')`.
 * JavaScript strings are sequences of UTF-16 code units; here a string is a
 * `seq<char>`, which is the same thing for every string the split produces.
 */
module JsText {

  /** An index argument clamped to `[0, len]`, as `substring` treats it. */
  function Clamp(x: int, len: nat): (r: nat)
    ensures r <= len
    ensures 0 <= x <= len ==> r == x
  {
    if x < 0 then 0 else if x > len then len else x
  }

  /**
   * `s.substring(start, end)`: both indices are clamped to `[0, |s|]`, and
   * swapped when the first exceeds the second; an omitted `end` is `|s|`.
   */
  function Substring(s: string, start: int, end: int): (r: string)
    ensures 0 <= start <= end <= |s| ==> r == s[start..end]
    ensures 0 <= end <= start <= |s| ==> r == s[end..start]
    ensures |s| <= start && |s| <= end ==> r == []
  {
    var a := Clamp(start, |s|);
    var b := Clamp(end, |s|);
    if a <= b then s[a..b] else s[b..a]
  }

  /**
   * `s.slice(start)`: a negative `start` counts from the end, so
   * `s.slice(-k)` is the last `k` characters, or all of `s` when it is shorter.
   */
  function Slice(s: string, start: int): (r: string)
    ensures start < 0 ==> |r| == (if -start < |s| then -start else |s|)
    ensures start < 0 ==> r == s[|s| - |r|..]
    ensures 0 <= start <= |s| ==> r == s[start..]
    ensures |s| <= start ==> r == []
  {
    var from := if start < 0 then (if |s| + start < 0 then 0 else |s| + start)
                else (if start < |s| then start else |s|);
    s[from..]
  }

  predicate IsUpper(c: char) {
    'A' <= c <= 'Z'
  }

  /** The lower-case form of one character (only the ASCII letters are mapped). */
  function LowerChar(c: char): (r: char)
    ensures !IsUpper(r)
    ensures !IsUpper(c) ==> r == c
    ensures IsUpper(c) ==> r as int - c as int == 'a' as int - 'A' as int
  {
    if IsUpper(c) then (c as int + ('a' as int - 'A' as int)) as char else c
  }

  /** `s.toLowerCase()`, restricted to the ASCII letters. */
  function ToLowerCase(s: string): (r: string)
    ensures |r| == |s|
    ensures forall i | 0 <= i < |r| :: !IsUpper(r[i])
    ensures forall i | 0 <= i < |s| && !IsUpper(s[i]) :: r[i] == s[i]
  {
    seq(|s|, i requires 0 <= i < |s| => LowerChar(s[i]))
  }

  /** `parts.join('')`: the parts concatenated in order. */
  function Join(parts: seq<string>): string
  {
    if |parts| == 0 then "" else parts[0] + Join(parts[1..])
  }

  /** Lower-casing a string with no upper-case letter changes nothing. */
  lemma ToLowerCaseNoUpper(s: string)
    requires forall i | 0 <= i < |s| :: !IsUpper(s[i])
    ensures ToLowerCase(s) == s
  {
  }
}
