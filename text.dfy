/** The few pieces of Python's `str` behaviour that the calculator relies on:
    `strip`, `in` (substring), `startswith`/`endswith`, `lower`, `split(sep, 1)`,
    and iterating a text file line by line. */
module Text {
  import opened Wrappers

  /** Python's `str.isspace` for one character (the Unicode whitespace set). */
  predicate IsSpace(c: char) {
    var n := c as int;
    (9 <= n <= 13) || (28 <= n <= 32) || n == 0x85 || n == 0xA0 || n == 0x1680
    || (0x2000 <= n <= 0x200A) || n == 0x2028 || n == 0x2029 || n == 0x202F
    || n == 0x205F || n == 0x3000
  }

  predicate AllSpace(s: string) {
    forall i :: 0 <= i < |s| ==> IsSpace(s[i])
  }

  /** No whitespace at either end: what `strip()` leaves behind. */
  predicate IsStripped(s: string) {
    s == [] || (!IsSpace(s[0]) && !IsSpace(s[|s| - 1]))
  }

  /** Leading whitespace removed. */
  function TrimStart(s: string): (r: string)
    ensures |r| <= |s| && r == s[|s| - |r|..]
    ensures forall i :: 0 <= i < |s| - |r| ==> IsSpace(s[i])
    ensures r == [] || !IsSpace(r[0])
  {
    if s != [] && IsSpace(s[0]) then
      var r := TrimStart(s[1..]);
      var dropped := s[..|s| - |r|];
      forall i | 0 <= i < |dropped|
        ensures IsSpace(dropped[i])
      {
        if i > 0 {
          assert dropped[i] == s[1..][..|s| - 1 - |r|][i - 1];
        }
      }
      r
    else
      assert s[..0] == [];
      s
  }

  /** Trailing whitespace removed. */
  function TrimEnd(s: string): (r: string)
    ensures |r| <= |s| && r == s[..|r|]
    ensures forall i :: |r| <= i < |s| ==> IsSpace(s[i])
    ensures r == [] || !IsSpace(r[|r| - 1])
  {
    if s != [] && IsSpace(s[|s| - 1]) then
      var r := TrimEnd(s[..|s| - 1]);
      assert s[|r|..] == s[..|s| - 1][|r|..] + [s[|s| - 1]];
      r
    else
      assert s[|s|..] == [];
      s
  }

  /** Python's `s.strip()`: whitespace removed at both ends, nothing else. */
  function Strip(s: string): (r: string)
    ensures IsStripped(r)
    ensures |r| <= |s|
    ensures r == [] <==> AllSpace(s)
  {
    var t := TrimStart(s);
    assert t == [] ==> AllSpace(s) by {
      if t == [] { assert s[..|s|] == s; }
    }
    assert AllSpace(s) ==> t == [];
    TrimEnd(t)
  }

  /** `strip()` only removes characters: whatever it returns occurs in `s`. */
  lemma StripSubset(s: string)
    ensures forall c :: c in Strip(s) ==> c in s
  {
    var t := TrimStart(s);
    var u := TrimEnd(t);
    var off := |s| - |t|;
    assert u == s[off..][..|u|];
  }

  lemma StripStripped(s: string)
    requires IsStripped(s)
    ensures Strip(s) == s
  {
  }

  /** `strip()` is idempotent. */
  lemma StripIdempotent(s: string)
    ensures Strip(Strip(s)) == Strip(s)
  {
    StripStripped(Strip(s));
  }

  /** A text that starts with a non-space character keeps it under `strip()`. */
  lemma StripKeepsFirst(s: string)
    requires s != [] && !IsSpace(s[0])
    ensures Strip(s) != [] && Strip(s)[0] == s[0]
  {
    assert TrimStart(s) == s;
    assert !AllSpace(s);
  }

  /** Whitespace in front of a text that starts with something else is
      exactly what `TrimStart` removes. */
  lemma {:induction false} TrimStartPadded(lead: string, u: string)
    requires AllSpace(lead) && (u == [] || !IsSpace(u[0]))
    ensures TrimStart(lead + u) == u
    decreases |lead|
  {
    if lead != [] {
      assert (lead + u)[1..] == lead[1..] + u;
      TrimStartPadded(lead[1..], u);
    }
  }

  /** Whitespace after a text that ends with something else is exactly
      what `TrimEnd` removes. */
  lemma {:induction false} TrimEndPadded(u: string, trail: string)
    requires AllSpace(trail) && (u == [] || !IsSpace(u[|u| - 1]))
    ensures TrimEnd(u + trail) == u
    decreases |trail|
  {
    if trail != [] {
      var init := trail[..|trail| - 1];
      assert (u + trail)[..|u + trail| - 1] == u + init;
      TrimEndPadded(u, init);
    }
  }

  /** `strip()` returns exactly what is left between the whitespace it
      removes: a stripped text padded with whitespace on either side strips
      back to itself. */
  lemma StripPadded(lead: string, core: string, trail: string)
    requires AllSpace(lead) && AllSpace(trail) && IsStripped(core)
    ensures Strip(lead + core + trail) == core
  {
    var s := lead + core + trail;
    if core == [] {
      assert s == lead + trail;
      assert AllSpace(s);
    } else {
      assert s == lead + (core + trail);
      TrimStartPadded(lead, core + trail);
      TrimEndPadded(core, trail);
    }
  }

  /** Every text is what `strip()` returns with whitespace on either side,
      so `StripPadded` pins down the value of `strip()` on every input. */
  lemma StripSplits(s: string) returns (lead: string, trail: string)
    ensures AllSpace(lead) && AllSpace(trail)
    ensures s == lead + Strip(s) + trail
  {
    var t := TrimStart(s);
    var r := TrimEnd(t);
    assert Strip(s) == r;
    Splits(s, t, r);
    lead := s[..|s| - |t|];
    trail := t[|r|..];
  }

  /** The arithmetic behind `StripSplits`, over plain variables: `t` is a
      suffix of `s` after whitespace, and `r` a prefix of `t` before
      whitespace. */
  lemma Splits(s: string, t: string, r: string)
    requires |t| <= |s| && t == s[|s| - |t|..]
    requires forall i :: 0 <= i < |s| - |t| ==> IsSpace(s[i])
    requires |r| <= |t| && r == t[..|r|]
    requires forall i :: |r| <= i < |t| ==> IsSpace(t[i])
    ensures AllSpace(s[..|s| - |t|]) && AllSpace(t[|r|..])
    ensures s == s[..|s| - |t|] + r + t[|r|..]
  {
    assert s == s[..|s| - |t|] + t;
    assert t == r + t[|r|..];
  }

  /** A trailing whitespace character (such as the newline a file line ends
      with) makes no difference to `strip()`. */
  lemma {:induction false} StripTrailingSpace(s: string, c: char)
    requires IsSpace(c)
    ensures Strip(s + [c]) == Strip(s)
  {
    TrimStartAppend(s, c);
    var t := TrimStart(s);
    if t == [] {
      assert TrimStart(s + [c]) == [];
    } else {
      assert TrimStart(s + [c]) == t + [c];
      assert (t + [c])[..|t|] == t;
    }
  }

  lemma {:induction false} TrimStartAppend(s: string, c: char)
    requires IsSpace(c)
    ensures TrimStart(s + [c]) == (if TrimStart(s) == [] then [] else TrimStart(s) + [c])
  {
    if s == [] {
    } else if IsSpace(s[0]) {
      assert (s + [c])[1..] == s[1..] + [c];
      TrimStartAppend(s[1..], c);
    } else {
    }
  }

  predicate StartsWith(s: string, prefix: string) {
    |prefix| <= |s| && s[..|prefix|] == prefix
  }

  predicate EndsWith(s: string, suffix: string) {
    |suffix| <= |s| && s[|s| - |suffix|..] == suffix
  }

  /** `sub` occurs in `s` starting at position `i`. */
  predicate OccursAt(s: string, sub: string, i: int) {
    0 <= i && i + |sub| <= |s| && s[i..i + |sub|] == sub
  }

  /** The first position, at or after `from`, where `sub` occurs in `s`. */
  function IndexFrom(s: string, sub: string, from: nat): (r: Option<nat>)
    requires from <= |s|
    ensures r.Some? ==> from <= r.value && OccursAt(s, sub, r.value)
    ensures r.Some? ==> forall j :: from <= j < r.value ==> !OccursAt(s, sub, j)
    ensures r.None? ==> forall j :: from <= j ==> !OccursAt(s, sub, j)
    decreases |s| - from
  {
    if OccursAt(s, sub, from) then Some(from)
    else if from + |sub| >= |s| then None
    else IndexFrom(s, sub, from + 1)
  }

  /** Python's `s.find(sub)`, with None for -1. */
  function IndexOf(s: string, sub: string): (r: Option<nat>)
    ensures r.Some? ==> OccursAt(s, sub, r.value)
    ensures r.Some? ==> forall j :: 0 <= j < r.value ==> !OccursAt(s, sub, j)
    ensures r.None? <==> forall j :: !OccursAt(s, sub, j)
  {
    IndexFrom(s, sub, 0)
  }

  /** Python's `sub in s` for strings: `sub` occurs somewhere in `s`. */
  predicate Contains(s: string, sub: string) {
    exists i :: 0 <= i <= |s| - |sub| && OccursAt(s, sub, i)
  }

  /** `find` succeeds exactly when the text occurs. */
  lemma ContainsMeans(s: string, sub: string)
    ensures Contains(s, sub) <==> IndexOf(s, sub).Some?
  {
    if IndexOf(s, sub).Some? {
      assert OccursAt(s, sub, IndexOf(s, sub).value);
    }
  }

  /** Python's `s.split(sep, 1)`: the parts before and after the first `sep`,
      or None when `sep` does not occur (the split then has one part only). */
  function SplitOnce(s: string, sep: string): (r: Option<(string, string)>)
    ensures r.None? <==> !Contains(s, sep)
    ensures r.Some? ==> r.value.0 + sep + r.value.1 == s
    ensures r.Some? ==> forall j :: 0 <= j < |r.value.0| ==> !OccursAt(s, sep, j)
  {
    ContainsMeans(s, sep);
    match IndexOf(s, sep)
    case None => None
    case Some(i) =>
      assert s[..i] + sep + s[i + |sep|..] == s by {
        assert s == s[..i] + s[i..i + |sep|] + s[i + |sep|..];
      }
      Some((s[..i], s[i + |sep|..]))
  }

  /** Splitting at the first occurrence of `sep`, when it is at `k`. */
  lemma SplitOnceAt(s: string, sep: string, k: nat)
    requires OccursAt(s, sep, k)
    requires forall j :: 0 <= j < k ==> !OccursAt(s, sep, j)
    ensures SplitOnce(s, sep) == Some((s[..k], s[k + |sep|..]))
  {
    var i := IndexOf(s, sep).value;
    assert i == k;
  }

  /** ASCII lower-casing of one character. */
  function LowerChar(c: char): char {
    if 'A' <= c <= 'Z' then (c as int + 32) as char else c
  }

  /** Python's `s.lower()`, restricted to the ASCII letters. */
  function Lower(s: string): (r: string)
    ensures |r| == |s|
    ensures forall i :: 0 <= i < |s| ==> r[i] == LowerChar(s[i])
  {
    seq(|s|, i requires 0 <= i < |s| => LowerChar(s[i]))
  }

  /** The position of the first occurrence of `c`. */
  function FindChar(s: string, c: char): (r: Option<nat>)
    ensures r.Some? ==> r.value < |s| && s[r.value] == c && c !in s[..r.value]
    ensures r.None? <==> c !in s
  {
    if s == [] then None
    else if s[0] == c then Some(0)
    else match FindChar(s[1..], c)
      case None => None
      case Some(i) => assert s[..i + 1] == [s[0]] + s[1..][..i]; Some(i + 1)
  }

  /** Iterating a text file: every line keeps its terminating newline; only the
      last one may lack it; an empty file has no lines. */
  function SplitLines(text: string): (lines: seq<string>)
    ensures text == [] <==> lines == []
    ensures forall k :: 0 <= k < |lines| ==> lines[k] != []
    ensures forall k :: 0 <= k < |lines| - 1 ==> lines[k][|lines[k]| - 1] == '\n'
    decreases |text|
  {
    if text == [] then []
    else match FindChar(text, '\n')
      case None => [text]
      case Some(i) =>
        var first, rest := text[..i + 1], SplitLines(text[i + 1..]);
        assert forall k :: 1 <= k < |rest| + 1 ==> ([first] + rest)[k] == rest[k - 1];
        [first] + rest
  }

  /** A line holds no newline except at its end. */
  lemma {:induction false} SplitLinesAtNewlines(text: string)
    ensures forall k :: 0 <= k < |SplitLines(text)| ==>
      var line := SplitLines(text)[k];
      line != [] && '\n' !in line[..|line| - 1]
    decreases |text|
  {
    var lines := SplitLines(text);
    if text != [] && FindChar(text, '\n').Some? {
      var i := FindChar(text, '\n').value;
      var rest := SplitLines(text[i + 1..]);
      SplitLinesAtNewlines(text[i + 1..]);
      assert lines == [text[..i + 1]] + rest;
      assert text[..i + 1][..i] == text[..i];
      forall k | 1 <= k < |lines|
        ensures lines[k] == rest[k - 1]
      {
      }
    }
  }

  /** The lines laid end to end. */
  function Concat(lines: seq<string>): string {
    if lines == [] then [] else lines[0] + Concat(lines[1..])
  }

  /** Reading a text line by line loses nothing: the lines put back together
      are the text. */
  lemma {:induction false} SplitLinesConcat(text: string)
    ensures Concat(SplitLines(text)) == text
    decreases |text|
  {
    if text != [] && FindChar(text, '\n').Some? {
      var i := FindChar(text, '\n').value;
      var first, rest := text[..i + 1], text[i + 1..];
      assert SplitLines(text) == [first] + SplitLines(rest);
      ConcatCons(first, SplitLines(rest));
      SplitLinesConcat(rest);
      assert text == first + rest;
    }
  }

  lemma ConcatCons(line: string, lines: seq<string>)
    ensures Concat([line] + lines) == line + Concat(lines)
  {
    assert ([line] + lines)[1..] == lines;
  }

  /** What writing every line followed by a newline puts into a file. */
  function JoinLines(lines: seq<string>): (text: string)
    ensures |text| >= |lines|
  {
    if lines == [] then [] else lines[0] + "\n" + JoinLines(lines[1..])
  }

  /** Each line terminated by its newline. */
  function Terminated(lines: seq<string>): (r: seq<string>)
    ensures |r| == |lines|
    ensures forall i :: 0 <= i < |lines| ==> r[i] == lines[i] + "\n"
  {
    seq(|lines|, i requires 0 <= i < |lines| => lines[i] + "\n")
  }

  lemma {:induction false} JoinLinesAppend(lines: seq<string>, line: string)
    ensures JoinLines(lines + [line]) == JoinLines(lines) + line + "\n"
  {
    if lines == [] {
      assert [line][1..] == [];
    } else {
      assert (lines + [line])[1..] == lines[1..] + [line];
      JoinLinesAppend(lines[1..], line);
    }
  }

  /** A line without a newline of its own, followed by one, is read back as the
      first line of the text. */
  lemma SplitLinesFirst(l: string, rest: string)
    requires '\n' !in l
    ensures SplitLines(l + "\n" + rest) == [l + "\n"] + SplitLines(rest)
  {
    var text := l + "\n" + rest;
    assert text[|l|] == '\n';
    assert text[..|l|] == l;
    assert FindChar(text, '\n') == Some(|l|);
    assert text[..|l| + 1] == l + "\n";
    assert text[|l| + 1..] == rest;
  }

  /** Reading back what was written line by line gives the lines back, each with
      its newline, provided no line holds a newline of its own. */
  lemma {:induction false} SplitJoinLines(lines: seq<string>)
    requires forall i :: 0 <= i < |lines| ==> '\n' !in lines[i]
    ensures SplitLines(JoinLines(lines)) == Terminated(lines)
  {
    if lines != [] {
      assert JoinLines(lines) == lines[0] + "\n" + JoinLines(lines[1..]);
      SplitLinesFirst(lines[0], JoinLines(lines[1..]));
      SplitJoinLines(lines[1..]);
      TerminatedCons(lines);
    }
  }

  lemma TerminatedCons(lines: seq<string>)
    requires lines != []
    ensures Terminated(lines) == [lines[0] + "\n"] + Terminated(lines[1..])
  {
  }
}
