/** The string operations the application relies on: SQLite's LOWER, the
    substring test behind `LIKE '%term%'`, Python's `str.strip()` and
    `str.split(":", 1)`. */
module Text {
  import opened Optional

  predicate IsUpper(c: char) {
    'A' <= c <= 'Z'
  }

  /** Case folding of one character, ASCII letters only (what SQLite's LOWER does). */
  function LowerChar(c: char): char {
    if IsUpper(c) then (c as int - 'A' as int + 'a' as int) as char else c
  }

  /** SQLite's LOWER: A-Z become a-z and every other character is kept. */
  function Lower(s: string): (r: string)
    ensures |r| == |s|
    ensures forall i :: 0 <= i < |s| && IsUpper(s[i]) ==> r[i] as int == s[i] as int + 32
    ensures forall i :: 0 <= i < |s| && !IsUpper(s[i]) ==> r[i] == s[i]
    ensures forall i :: 0 <= i < |r| ==> !IsUpper(r[i])
  {
    seq(|s|, i requires 0 <= i < |s| => LowerChar(s[i]))
  }

  /** The capital letters Python's `str.lower()` maps to one other character,
      in the blocks the model covers: Basic Latin, Latin-1 Supplement, Latin
      Extended-A, Greek and Coptic, and Cyrillic (U+0130, which lowers to two
      characters, is left out). */
  predicate IsCapital(c: char) {
    var n := c as int;
    || IsUpper(c)
    || (0xC0 <= n <= 0xDE && n != 0xD7)
    || (0x100 <= n <= 0x12E && n % 2 == 0)
    || (0x132 <= n <= 0x136 && n % 2 == 0)
    || (0x139 <= n <= 0x147 && n % 2 == 1)
    || (0x14A <= n <= 0x176 && n % 2 == 0)
    || n == 0x178
    || (0x179 <= n <= 0x17D && n % 2 == 1)
    || n == 0x370 || n == 0x372 || n == 0x376 || n == 0x37F
    || n == 0x386 || 0x388 <= n <= 0x38A || n == 0x38C || n == 0x38E || n == 0x38F
    || (0x391 <= n <= 0x3AB && n != 0x3A2)
    || n == 0x3CF
    || (0x3D8 <= n <= 0x3EE && n % 2 == 0)
    || n == 0x3F4 || n == 0x3F7 || n == 0x3F9 || n == 0x3FA
    || 0x3FD <= n <= 0x3FF
    || 0x400 <= n <= 0x42F
    || (0x460 <= n <= 0x480 && n % 2 == 0)
    || (0x48A <= n <= 0x4BE && n % 2 == 0)
    || n == 0x4C0
    || (0x4C1 <= n <= 0x4CD && n % 2 == 1)
    || (0x4D0 <= n <= 0x4FE && n % 2 == 0)
  }

  /** Python's `str.lower()` on one character. */
  function PyLowerChar(c: char): (r: char)
    ensures IsCapital(c) ==> r != c && !IsCapital(r)
    ensures !IsCapital(c) ==> r == c
    ensures IsUpper(c) ==> r == LowerChar(c)
  {
    var n := c as int;
    if !IsCapital(c) then c
    else if IsUpper(c) || 0xC0 <= n <= 0xDE || 0x391 <= n <= 0x3AB || 0x410 <= n <= 0x42F then (n + 32) as char
    else if 0x400 <= n <= 0x40F then (n + 80) as char
    else if n == 0x178 then 0xFF as char
    else if n == 0x37F then 0x3F3 as char
    else if n == 0x386 then 0x3AC as char
    else if 0x388 <= n <= 0x38A then (n + 37) as char
    else if n == 0x38C then 0x3CC as char
    else if n == 0x38E || n == 0x38F then (n + 63) as char
    else if n == 0x3CF then 0x3D7 as char
    else if n == 0x3F4 then 0x3B8 as char
    else if n == 0x3F9 then 0x3F2 as char
    else if 0x3FD <= n <= 0x3FF then (n - 130) as char
    else if n == 0x4C0 then 0x4CF as char
    else (n + 1) as char
  }

  /** Python's `str.lower()`, which the handlers apply to request parameters. */
  function PyLower(s: string): (r: string)
    ensures |r| == |s|
    ensures forall i :: 0 <= i < |s| && !IsCapital(s[i]) ==> r[i] == s[i]
    ensures forall i :: 0 <= i < |s| && IsCapital(s[i]) ==> r[i] != s[i]
    ensures forall i :: 0 <= i < |r| ==> !IsCapital(r[i])
  {
    seq(|s|, i requires 0 <= i < |s| => PyLowerChar(s[i]))
  }

  /** On ASCII text Python's `lower()` and SQLite's LOWER agree. */
  lemma PyLowerAscii(s: string)
    requires forall i :: 0 <= i < |s| ==> s[i] as int < 0x80
    ensures PyLower(s) == Lower(s)
  {
    forall i | 0 <= i < |s| ensures PyLower(s)[i] == Lower(s)[i] {
      assert IsCapital(s[i]) <==> IsUpper(s[i]);
    }
  }

  /** Beyond ASCII they differ: SQLite keeps a capital that Python lowers. */
  lemma LowerKeepsNonAsciiCapital()
    ensures Lower("\U{C9}") == "\U{C9}" && PyLower("\U{C9}") == "\U{E9}"
    ensures Lower("\U{386}") == "\U{386}" && PyLower("\U{386}") == "\U{3AC}"
    ensures Lower("\U{490}") == "\U{490}" && PyLower("\U{490}") == "\U{491}"
  {
    assert PyLowerChar('\U{C9}') == '\U{E9}';
    assert PyLowerChar('\U{386}') == '\U{3AC}';
    assert PyLowerChar('\U{490}') == '\U{491}';
  }

  /** Lowering twice is lowering once. */
  lemma PyLowerIdempotent(s: string)
    ensures PyLower(PyLower(s)) == PyLower(s)
  {
  }

  /** `t` occurs in `s` as a contiguous run of characters starting at index `i`. */
  predicate OccursAt(t: string, s: string, i: int) {
    0 <= i <= |s| - |t| && s[i..i + |t|] == t
  }

  /** `t` occurs in `s` as a contiguous run of characters. */
  ghost predicate Occurs(t: string, s: string) {
    exists i :: OccursAt(t, s, i)
  }

  /** The substring test `s LIKE '%t%'` performs for a pattern without wildcards. */
  function Contains(s: string, t: string): (b: bool)
    ensures b <==> Occurs(t, s)
    decreases |s|
  {
    if t <= s then
      assert OccursAt(t, s, 0);
      true
    else if |s| <= |t| then
      false
    else
      var b := Contains(s[1..], t);
      assert Occurs(t, s) ==> Occurs(t, s[1..]) by {
        if Occurs(t, s) {
          var i :| OccursAt(t, s, i);
          assert i != 0 by { assert s[..|t|] == s[0..0 + |t|]; }
          assert s[1..][i - 1..i - 1 + |t|] == s[i..i + |t|];
          assert OccursAt(t, s[1..], i - 1);
        }
      }
      assert Occurs(t, s[1..]) ==> Occurs(t, s) by {
        if Occurs(t, s[1..]) {
          var i :| OccursAt(t, s[1..], i);
          assert s[i + 1..i + 1 + |t|] == s[1..][i..i + |t|];
          assert OccursAt(t, s, i + 1);
        }
      }
      b
  }

  /** The characters Python's `str.isspace()` accepts, by code point. */
  predicate IsSpace(c: char) {
    var n := c as int;
    || n == 0x20 || 0x09 <= n <= 0x0D || 0x1C <= n <= 0x1F
    || n == 0x85 || n == 0xA0 || n == 0x1680 || 0x2000 <= n <= 0x200A
    || n == 0x2028 || n == 0x2029 || n == 0x202F || n == 0x205F || n == 0x3000
  }

  predicate AllSpace(s: string) {
    forall k :: 0 <= k < |s| ==> IsSpace(s[k])
  }

  function LeadingSpaces(s: string): (n: nat)
    ensures n <= |s| && AllSpace(s[..n])
    ensures n < |s| ==> !IsSpace(s[n])
  {
    if |s| > 0 && IsSpace(s[0]) then
      var m := LeadingSpaces(s[1..]);
      assert s[..m + 1] == [s[0]] + s[1..][..m];
      m + 1
    else
      0
  }

  function TrailingSpaces(s: string): (n: nat)
    ensures n <= |s| && AllSpace(s[|s| - n..])
    ensures n < |s| ==> !IsSpace(s[|s| - 1 - n])
  {
    if |s| > 0 && IsSpace(s[|s| - 1]) then
      var p := s[..|s| - 1];
      var m := TrailingSpaces(p);
      assert s[|s| - (m + 1)..] == p[|p| - m..] + [s[|s| - 1]];
      m + 1
    else
      0
  }

  /** Python's `str.strip()` with no argument: the text between the leading
      and the trailing whitespace. */
  function Strip(s: string): (r: string)
    ensures exists i, j :: 0 <= i <= j <= |s| && r == s[i..j] && AllSpace(s[..i]) && AllSpace(s[j..])
    ensures r == [] || (!IsSpace(r[0]) && !IsSpace(r[|r| - 1]))
  {
    var i := LeadingSpaces(s);
    var u := s[i..];
    var t := TrailingSpaces(u);
    var j := |s| - t;
    assert s[j..] == u[|u| - t..];
    var r := s[i..j];
    assert r == u[..|u| - t];
    assert r != [] ==> r[0] == s[i] && r[|r| - 1] == u[|u| - 1 - t];
    r
  }

  /** A title is blank after `strip()` exactly when it is all whitespace. */
  lemma StripBlank(s: string)
    ensures Strip(s) == [] <==> AllSpace(s)
  {
    var i := LeadingSpaces(s);
    if AllSpace(s) {
      assert i == |s|;
    } else {
      var k :| 0 <= k < |s| && !IsSpace(s[k]);
      assert i <= k;
      var t := TrailingSpaces(s[i..]);
      assert s[i..][|s[i..]| - 1 - (|s| - 1 - k)] == s[k];
      assert t <= |s| - 1 - k;
    }
  }

  /** The text after the first occurrence of `c`, as `s.split(c, 1)[1]`
      gives it; `None` when `c` does not occur. */
  function AfterFirst(s: string, c: char): (r: Option<string>)
    ensures r.None? <==> c !in s
    ensures r.Some? ==>
              && |r.value| < |s|
              && var i := |s| - |r.value| - 1;
                 s[i] == c && c !in s[..i] && s[i + 1..] == r.value
  {
    if s == [] then None
    else if s[0] == c then Some(s[1..])
    else
      var r := AfterFirst(s[1..], c);
      assert r.Some? ==> s[..|s| - |r.value| - 1] == [s[0]] + s[1..][..|s| - 1 - |r.value| - 1];
      r
  }
}
