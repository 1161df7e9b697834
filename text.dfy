/** Character classes and substring tests on Python `str` values, modelled as
    `seq<char>`. Both scripts test report text with Python's `in` operator;
    `Contains` is that test, and `FirstContaining` is the "first candidate in
    priority order that occurs" rule both of them apply to crop names. */
module Text {

  /** The characters the pattern class `[0-9]` accepts. */
  predicate IsDigit(c: char) {
    '0' <= c <= '9'
  }

  /** The pattern class `\s`, restricted to ASCII: the characters for which
      `str.isspace()` holds, that is space, tab, line feed, vertical tab, form
      feed, carriage return and the four separators U+001C to U+001F. */
  predicate IsSpace(c: char) {
    || c == ' ' || c == '\t' || c == '\n' || c == '\U{000B}' || c == '\U{000C}' || c == '\r'
    || '\U{001C}' <= c <= '\U{001F}'
  }

  /** `p` occurs in `s` starting at index `i`. */
  ghost predicate OccursAt(s: string, p: string, i: int) {
    0 <= i && i + |p| <= |s| && s[i..i + |p|] == p
  }

  /** Python's `p in s` for strings: tries every start position from the left. */
  function Contains(s: string, p: string): (r: bool)
    ensures |p| == 0 ==> r
    ensures r ==> |p| <= |s|
    decreases |s|
  {
    |p| <= |s| && (s[..|p|] == p || Contains(s[1..], p))
  }

  /** `Contains` holds exactly when the pattern occurs at some position. */
  lemma {:induction false} ContainsIff(s: string, p: string)
    ensures Contains(s, p) <==> exists i :: OccursAt(s, p, i)
    decreases |s|
  {
    if |p| <= |s| && s[..|p|] != p {
      ContainsIff(s[1..], p);
      if Contains(s[1..], p) {
        var i :| OccursAt(s[1..], p, i);
        assert s[i + 1..i + 1 + |p|] == s[1..][i..i + |p|];
        assert OccursAt(s, p, i + 1);
      } else {
        forall i | OccursAt(s, p, i) ensures false {
          assert i != 0;
          assert s[1..][i - 1..i - 1 + |p|] == s[i..i + |p|];
          assert OccursAt(s[1..], p, i - 1);
        }
      }
    } else if |p| <= |s| {
      assert OccursAt(s, p, 0);
    } else {
      forall i | OccursAt(s, p, i) ensures false {
      }
    }
  }

  /** `str.lower` on one character, restricted to ASCII letters. */
  function AsciiLower(c: char): (d: char)
    ensures 'A' <= c <= 'Z' ==> 'a' <= d <= 'z'
    ensures !('A' <= c <= 'Z') ==> d == c
  {
    if 'A' <= c <= 'Z' then (c as int + 32) as char else c
  }

  /** `str.lower` on a string, character by character. */
  function Lower(s: string): (t: string)
    ensures |t| == |s|
    ensures forall i :: 0 <= i < |s| ==> t[i] == AsciiLower(s[i])
  {
    seq(|s|, i requires 0 <= i < |s| => AsciiLower(s[i]))
  }

  /** The index of the first candidate that occurs in `text`, if any. This is
      the rule of an `if`/`elif` cascade of `in` tests, and of a `for` loop over
      candidates that stops at the first one found. */
  function FirstContaining(text: string, candidates: seq<string>): (r: Option<nat>)
    ensures r.Some? ==> r.value < |candidates| && Contains(text, candidates[r.value])
    ensures r.Some? ==> forall k :: 0 <= k < r.value ==> !Contains(text, candidates[k])
    ensures r.None? <==> forall k :: 0 <= k < |candidates| ==> !Contains(text, candidates[k])
  {
    if |candidates| == 0 then None
    else if Contains(text, candidates[0]) then Some(0)
    else match FirstContaining(text, candidates[1..])
      case None => None
      case Some(k) => Some(k + 1)
  }

  datatype Option<+T> = None | Some(value: T)
}
