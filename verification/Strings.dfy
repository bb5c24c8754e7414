/** Text operations of the Python runtime that several components rely on. */
module Strings {
  import opened Sequences
  import opened Utf8

  /** The characters `str.strip` removes. */
  predicate IsSpace(c: char) {
    var n := c as int;
    9 <= n <= 13 || 28 <= n <= 32 || n == 0x85 || n == 0xA0 || n == 0x1680 || 0x2000 <= n <= 0x200A
    || n == 0x2028 || n == 0x2029 || n == 0x202F || n == 0x205F || n == 0x3000
  }

  const CONTROLS := "\t\n\U{0B}\U{0C}\r\U{1C}\U{1D}\U{1E}\U{1F}"
  const BLANKS := " \U{85}\U{A0}\U{1680}\U{2000}\U{2001}\U{2002}\U{2003}\U{2004}\U{2005}\U{2006}\U{2007}\U{2008}\U{2009}\U{200A}\U{2028}\U{2029}\U{202F}\U{205F}\U{3000}"

  /** Those characters one by one. */
  lemma SpacesAre(c: char)
    ensures IsSpace(c) <==> c in CONTROLS || c in BLANKS
  {
  }

  /** The bytes `bytes.strip` removes. */
  predicate Blank(b: Bytes) {
    forall x :: x in b ==> 9 <= x <= 13 || x == 32
  }

  /** `str.lower`, as far as it can produce ASCII letters (U+212A is the Kelvin sign). */
  function Lower(s: string): string {
    seq(|s|, i requires 0 <= i < |s| =>
      if 'A' <= s[i] <= 'Z' then (s[i] as int + 32) as char else if s[i] == '\U{212A}' then 'k' else s[i])
  }

  function StripRight(s: string): (r: string)
    ensures r <= s && (r != "" ==> !IsSpace(r[|r| - 1]))
    ensures s != "" && !IsSpace(s[|s| - 1]) ==> r == s
    ensures s != "" && IsSpace(s[|s| - 1]) ==> |r| < |s|
  {
    if s != "" && IsSpace(s[|s| - 1]) then StripRight(s[..|s| - 1]) else s
  }

  function StripLeft(s: string): (r: string)
    ensures |r| <= |s| && (s != "" && !IsSpace(s[0]) ==> r == s)
  {
    if s != "" && IsSpace(s[0]) then StripLeft(s[1..]) else s
  }

  function Strip(s: string): string {
    StripRight(StripLeft(s))
  }

  /** `split("\n")`. */
  function Lines(s: string): (r: seq<string>)
    ensures |r| > 0
  {
    if s == "" then [""]
    else if s[0] == '\n' then [""] + Lines(s[1..])
    else var r := Lines(s[1..]); [[s[0]] + r[0]] + r[1..]
  }

  function Join(parts: seq<string>): string {
    if parts == [] then "" else if |parts| == 1 then parts[0] else parts[0] + "\n" + Join(parts[1..])
  }

  /** Characters in all the lines, counting one separator for each. */
  function Weight(lines: seq<string>): nat {
    if lines == [] then 0 else |lines[0]| + 1 + Weight(lines[1..])
  }

  lemma {:induction false} WeightOfLines(s: string)
    ensures Weight(Lines(s)) == |s| + 1
  {
    if s != "" {
      WeightOfLines(s[1..]);
      var r := Lines(s[1..]);
      if s[0] == '\n' {
        assert ([""] + r)[1..] == r;
      } else {
        assert ([[s[0]] + r[0]] + r[1..])[1..] == r[1..];
      }
    }
  }

  lemma {:induction false} WeightOfJoin(parts: seq<string>)
    ensures Weight(parts) == if parts == [] then 0 else |Join(parts)| + 1
  {
    if parts != [] {
      WeightOfJoin(parts[1..]);
    }
  }

  lemma {:induction false} SingleLine(s: string)
    requires '\n' !in s
    ensures Lines(s) == [s]
  {
    if s != "" {
      SingleLine(s[1..]);
      assert [s[0]] + s[1..] == s;
    }
  }

  /** Text without a newline leads to the first line break or the end of the text. */
  lemma {:induction false} FirstLine(head: string, s: string)
    requires '\n' !in head
    ensures Lines(head + s) == [head + Lines(s)[0]] + Lines(s)[1..]
  {
    if head == "" {
      assert head + s == s && "" + Lines(s)[0] == Lines(s)[0];
    } else {
      assert (head + s)[1..] == head[1..] + s && (head + s)[0] == head[0];
      FirstLine(head[1..], s);
      assert [head[0]] + (head[1..] + Lines(s)[0]) == head + Lines(s)[0];
    }
  }

  lemma {:induction false} SeveralLines(s: string)
    requires '\n' in s
    ensures |Lines(s)| > 1
  {
    if s[0] != '\n' {
      SeveralLines(s[1..]);
    }
  }
}
