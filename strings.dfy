/** The .NET string operations the codec relies on, written out over Dafny
    strings: ordinal `Contains` and `Replace`, `TrimEnd`, `ToLower` on the
    dialect's element names, `IsNullOrWhiteSpace`, and a reference `Join`. */
module Strings {
  import opened Wrappers

  /** Ordinal `string.Contains`: `sub` occurs at some offset of `s`. */
  predicate Contains(s: string, sub: string) {
    exists i | 0 <= i <= |s| - |sub| :: OccursAt(s, sub, i)
  }

  /** `sub` occurs in `s` starting at offset `i`. */
  predicate OccursAt(s: string, sub: string, i: int) {
    0 <= i <= |s| - |sub| && s[i..i + |sub|] == sub
  }

  /** Ordinal `string.Replace(pattern, replacement)`: scanning left to right,
      every non-overlapping occurrence of `pattern` is replaced. .NET rejects
      an empty pattern, hence the precondition. */
  function ReplaceAll(s: string, pattern: string, replacement: string): string
    requires |pattern| > 0
    decreases |s|
  {
    if |s| < |pattern| then s
    else if s[..|pattern|] == pattern then replacement + ReplaceAll(s[|pattern|..], pattern, replacement)
    else [s[0]] + ReplaceAll(s[1..], pattern, replacement)
  }

  /** Reference definition of a one-character replacement: each character of
      `s` is kept, except `c`, which becomes `replacement`. */
  function ReplaceChar(s: string, c: char, replacement: string): string {
    if s == [] then []
    else (if s[0] == c then replacement else [s[0]]) + ReplaceChar(s[1..], c, replacement)
  }

  /** Replacing a pattern that does not occur leaves the string as it was. */
  lemma {:induction false} ReplaceAllAbsent(s: string, pattern: string, replacement: string)
    requires |pattern| > 0
    requires !Contains(s, pattern)
    ensures ReplaceAll(s, pattern, replacement) == s
    decreases |s|
  {
    if |s| >= |pattern| {
      assert !OccursAt(s, pattern, 0);
      if Contains(s[1..], pattern) {
        var i :| 0 <= i <= |s[1..]| - |pattern| && OccursAt(s[1..], pattern, i);
        assert s[i + 1..i + 1 + |pattern|] == s[1..][i..i + |pattern|];
        assert OccursAt(s, pattern, i + 1);
      }
      ReplaceAllAbsent(s[1..], pattern, replacement);
    }
  }

  /** For a one-character pattern, `Replace` works character by character. */
  lemma {:induction false} ReplaceAllOneChar(s: string, c: char, replacement: string)
    ensures ReplaceAll(s, [c], replacement) == ReplaceChar(s, c, replacement)
    decreases |s|
  {
    if s != [] {
      ReplaceAllOneChar(s[1..], c, replacement);
      assert s[..1] == [s[0]];
      assert s[1..] == s[|[c]|..];
    }
  }

  /** A character-by-character replacement removes every `c` when the
      replacement itself does not contain `c`. */
  lemma {:induction false} ReplaceCharRemoves(s: string, c: char, replacement: string)
    requires c !in replacement
    ensures c !in ReplaceChar(s, c, replacement)
    decreases |s|
  {
    if s != [] {
      ReplaceCharRemoves(s[1..], c, replacement);
    }
  }

  /** Characters that are neither `c` nor in `replacement` survive a
      one-character replacement in their original count. */
  lemma {:induction false} ReplaceCharKeeps(s: string, c: char, replacement: string, d: char)
    requires d != c && d !in replacement
    ensures multiset(ReplaceChar(s, c, replacement))[d] == multiset(s)[d]
    decreases |s|
  {
    if s != [] {
      ReplaceCharKeeps(s[1..], c, replacement, d);
      assert s == [s[0]] + s[1..];
    }
  }

  /** `string.TrimEnd(c)`: drops every trailing `c`. */
  function TrimEnd(s: string, c: char): (r: string)
    ensures r <= s
    ensures r == [] || r[|r| - 1] != c
    ensures forall i | |r| <= i < |s| :: s[i] == c
    decreases |s|
  {
    if |s| > 0 && s[|s| - 1] == c then TrimEnd(s[..|s| - 1], c) else s
  }

  /** A single trailing `c` after text that does not end in `c` is all
      `TrimEnd` removes. */
  lemma TrimEndOne(s: string, c: char)
    requires s == [] || s[|s| - 1] != c
    ensures TrimEnd(s + [c], c) == s
  {
    assert (s + [c])[..|s|] == s;
  }

  /** Reference definition of `string.Join(separator, parts)`. */
  function Join(parts: seq<string>, separator: string): string
    decreases |parts|
  {
    if |parts| == 0 then ""
    else if |parts| == 1 then parts[0]
    else parts[0] + separator + Join(parts[1..], separator)
  }

  /** Joining one more part adds the separator and the part. */
  lemma {:induction false} JoinSnoc(parts: seq<string>, last: string, sep: string)
    requires parts != []
    ensures Join(parts + [last], sep) == Join(parts, sep) + sep + last
    decreases |parts|
  {
    if |parts| > 1 {
      assert (parts + [last])[1..] == parts[1..] + [last];
      JoinSnoc(parts[1..], last, sep);
    } else {
      assert (parts + [last])[1..] == [last];
    }
  }

  /** `Name.ToLower()` on element names, for the ASCII letters that make up
      the dialect's names. */
  function LowerAscii(s: string): (r: string)
    ensures |r| == |s|
    ensures forall i | 0 <= i < |s| :: ('A' <= s[i] <= 'Z') == (r[i] != s[i])
  {
    seq(|s|, i requires 0 <= i < |s| => if 'A' <= s[i] <= 'Z' then (s[i] as int + 32) as char else s[i])
  }

  /** `char.IsWhiteSpace`: the Unicode White_Space characters. */
  predicate IsWhiteSpace(c: char) {
    var n := c as int;
    || 0x09 <= n <= 0x0D || n == 0x20 || n == 0x85 || n == 0xA0 || n == 0x1680
    || 0x2000 <= n <= 0x200A || n == 0x2028 || n == 0x2029 || n == 0x202F
    || n == 0x205F || n == 0x3000
  }

  /** `string.IsNullOrWhiteSpace`. */
  predicate IsNullOrWhiteSpace(s: Option<string>) {
    s.None? || forall i | 0 <= i < |s.value| :: IsWhiteSpace(s.value[i])
  }
}
