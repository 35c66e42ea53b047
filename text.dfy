/**
  The two string operations of Python that the core relies on:
  `str.strip()` without arguments and `str.split(sep, 1)`.
 */
module Text {

  /** Python's `str.isspace` for one character: the code points that
      `str.strip()` with no argument removes. */
  predicate IsSpace(c: char) {
    var n := c as int;
    (0x09 <= n <= 0x0D) || (0x1C <= n <= 0x20) || n == 0x85 || n == 0xA0
    || n == 0x1680 || (0x2000 <= n <= 0x200A) || n == 0x2028 || n == 0x2029
    || n == 0x202F || n == 0x205F || n == 0x3000
  }

  predicate AllSpace(s: string) {
    forall k :: 0 <= k < |s| ==> IsSpace(s[k])
  }

  /** Neither end of `s` is whitespace: `s` is a fixed point of `strip()`. */
  predicate IsStripped(s: string) {
    s == [] || (!IsSpace(s[0]) && !IsSpace(s[|s| - 1]))
  }

  /** How many whitespace characters `s` starts with. */
  function LeadingSpaces(s: string): (n: nat)
    ensures n <= |s|
    ensures forall k :: 0 <= k < n ==> IsSpace(s[k])
    ensures n < |s| ==> !IsSpace(s[n])
  {
    if s != [] && IsSpace(s[0]) then
      var n := LeadingSpaces(s[1..]);
      assert forall k :: 0 <= k < |s| - 1 ==> s[1..][k] == s[k + 1];
      1 + n
    else 0
  }

  /** The length of `s` without the whitespace it ends with. */
  function TextEnd(s: string): (n: nat)
    ensures n <= |s|
    ensures forall k :: n <= k < |s| ==> IsSpace(s[k])
    ensures 0 < n ==> !IsSpace(s[n - 1])
  {
    if s != [] && IsSpace(s[|s| - 1]) then
      var n := TextEnd(s[..|s| - 1]);
      assert forall k :: 0 <= k < |s| - 1 ==> s[..|s| - 1][k] == s[k];
      n
    else |s|
  }

  /** `s.lstrip()`. */
  function TrimStart(s: string): string {
    s[LeadingSpaces(s)..]
  }

  /** `s.rstrip()`. */
  function TrimEnd(s: string): string {
    s[..TextEnd(s)]
  }

  /** `s.strip()`: what is left of `s` once the whitespace at both ends is gone. */
  function Strip(s: string): (r: string)
    ensures IsStripped(r)
    ensures |r| <= |s|
    ensures IsStripped(s) ==> r == s
  {
    TrimEnd(TrimStart(s))
  }

  /** Stripping removes exactly the surrounding whitespace: a stripped core
      with whitespace on either side strips back to that core. */
  lemma {:induction false} StripSurrounded(before: string, core: string, after: string)
    requires AllSpace(before) && AllSpace(after) && IsStripped(core)
    ensures Strip(before + core + after) == core
  {
    if core == [] {
      assert before + core + after == (before + after) + [];
      assert AllSpace(before + after);
      TrimStartSpaces(before + after, []);
    } else {
      assert before + core + after == before + (core + after);
      TrimStartSpaces(before, core + after);
      TrimEndSpaces(core, after);
    }
  }

  lemma {:induction false} TrimStartSpaces(spaces: string, rest: string)
    requires AllSpace(spaces) && (rest == [] || !IsSpace(rest[0]))
    ensures TrimStart(spaces + rest) == rest
  {
    if spaces != [] {
      assert (spaces + rest)[1..] == spaces[1..] + rest;
      TrimStartSpaces(spaces[1..], rest);
    }
  }

  lemma {:induction false} TrimEndSpaces(rest: string, spaces: string)
    requires AllSpace(spaces) && (rest == [] || !IsSpace(rest[|rest| - 1]))
    ensures TrimEnd(rest + spaces) == rest
  {
    if spaces != [] {
      var n := |spaces|;
      assert (rest + spaces)[..|rest| + n - 1] == rest + spaces[..n - 1];
      TrimEndSpaces(rest, spaces[..n - 1]);
    } else {
      assert rest + spaces == rest;
    }
  }

  /** `s.split(sep, 1)`: one part when `sep` does not occur, otherwise the text
      before the first `sep` and everything after it. */
  function SplitOnce(s: string, sep: char): (parts: seq<string>)
    ensures |parts| == 1 || |parts| == 2
    ensures |parts| == 1 <==> sep !in s
    ensures |parts| == 1 ==> parts[0] == s
    ensures |parts| == 2 ==> sep !in parts[0] && parts[0] + [sep] + parts[1] == s
  {
    if s == [] then [s]
    else if s[0] == sep then ["", s[1..]]
    else
      var rest := SplitOnce(s[1..], sep);
      assert s == [s[0]] + s[1..];
      if |rest| == 1 then [s] else [[s[0]] + rest[0], rest[1]]
  }

  /** The split is on the first separator only: whatever follows it,
      separators included, is the second part. */
  lemma {:induction false} SplitOnceFirst(head: string, sep: char, tail: string)
    requires sep !in head
    ensures SplitOnce(head + [sep] + tail, sep) == [head, tail]
  {
    var s := head + [sep] + tail;
    if head != [] {
      assert s[1..] == head[1..] + [sep] + tail;
      SplitOnceFirst(head[1..], sep, tail);
      assert [s[0]] + head[1..] == head;
    } else {
      assert s[1..] == tail;
    }
  }
}
