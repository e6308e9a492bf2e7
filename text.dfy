/** Python string operations the application relies on, restricted to ASCII:
    `strip`, `startswith`, `in`, `replace`, `split`, `splitlines`, `upper`, `lower`,
    `capitalize` and `str(int)`. */
module Text {

  /** The ASCII characters `str.split()` and `str.strip()` treat as whitespace. */
  predicate IsSpace(c: char) {
    c == ' ' || c == '\t' || c == '\n' || c == '\r' || c == '\U{000B}' || c == '\U{000C}'
  }

  function LStrip(s: string): (r: string)
    ensures |r| <= |s| && r == s[|s| - |r|..]
    ensures r != [] ==> !IsSpace(r[0])
  {
    if s != [] && IsSpace(s[0]) then LStrip(s[1..]) else s
  }

  function RStrip(s: string): (r: string)
    ensures |r| <= |s| && r == s[..|r|]
    ensures r != [] ==> !IsSpace(r[|r| - 1])
  {
    if s != [] && IsSpace(s[|s| - 1]) then RStrip(s[..|s| - 1]) else s
  }

  /** `s.strip()`. */
  function Strip(s: string): string {
    RStrip(LStrip(s))
  }

  /** `s.startswith(p)`. */
  predicate StartsWith(s: string, p: string) {
    |p| <= |s| && s[..|p|] == p
  }

  predicate EndsWith(s: string, p: string) {
    |p| <= |s| && s[|s| - |p|..] == p
  }

  /** A text ends with what was appended to it. */
  lemma EndsWithAppend(a: string, b: string)
    ensures EndsWith(a + b, b)
  {
    assert (a + b)[|a|..] == b;
  }

  /** `sub in s`. */
  predicate Contains(s: string, sub: string) {
    StartsWith(s, sub) || (s != [] && Contains(s[1..], sub))
  }

  lemma {:induction false} ContainsPrefix(s: string, p: string)
    requires StartsWith(s, p)
    ensures Contains(s, p)
  {
  }

  lemma {:induction false} ContainsAppend(a: string, b: string, sub: string)
    requires Contains(a, sub)
    ensures Contains(a + b, sub)
  {
    if StartsWith(a, sub) {
      assert (a + b)[..|sub|] == a[..|sub|];
    } else {
      assert (a + b)[1..] == a[1..] + b;
      ContainsAppend(a[1..], b, sub);
    }
  }

  /** `s.replace(a, b)` for single characters. */
  function ReplaceChar(s: string, a: char, b: char): (r: string)
    ensures |r| == |s|
    ensures forall i :: 0 <= i < |s| ==> r[i] == (if s[i] == a then b else s[i])
  {
    if s == [] then [] else [if s[0] == a then b else s[0]] + ReplaceChar(s[1..], a, b)
  }

  function UpperChar(c: char): char {
    if 'a' <= c <= 'z' then (c as int - 32) as char else c
  }

  function LowerChar(c: char): char {
    if 'A' <= c <= 'Z' then (c as int + 32) as char else c
  }

  /** `s.upper()`. */
  function Upper(s: string): (r: string)
    ensures |r| == |s|
    ensures forall i :: 0 <= i < |s| ==> r[i] == UpperChar(s[i])
  {
    if s == [] then [] else [UpperChar(s[0])] + Upper(s[1..])
  }

  /** `s.lower()`. */
  function Lower(s: string): (r: string)
    ensures |r| == |s|
    ensures forall i :: 0 <= i < |s| ==> r[i] == LowerChar(s[i])
  {
    if s == [] then [] else [LowerChar(s[0])] + Lower(s[1..])
  }

  /** `s.capitalize()`: first character upper-cased, the rest lower-cased. */
  function Capitalize(s: string): (r: string)
    ensures |r| == |s|
  {
    if s == [] then [] else [UpperChar(s[0])] + Lower(s[1..])
  }

  /** Lower-casing twice is lower-casing once. */
  lemma LowerIdempotent(s: string)
    ensures Lower(Lower(s)) == Lower(s)
  {
  }

  /** `capitalize` ignores the case its argument had. */
  lemma CapitalizeIgnoresCase(s: string)
    ensures Capitalize(Lower(s)) == Capitalize(s)
    ensures Lower(Capitalize(s)) == Lower(s)
  {
    if s != [] {
      assert Lower(s)[1..] == Lower(s[1..]);
      LowerIdempotent(s[1..]);
      assert Lower(Capitalize(s)) == [LowerChar(UpperChar(s[0]))] + Lower(Lower(s[1..]));
      assert Lower(s) == [LowerChar(s[0])] + Lower(s[1..]);
    }
  }

  /** Index of the first occurrence of `c`, or |s| when there is none. */
  function IndexOf(s: string, c: char): (i: nat)
    ensures i <= |s|
    ensures forall k :: 0 <= k < i ==> s[k] != c
    ensures i < |s| ==> s[i] == c
  {
    if s == [] then 0 else if s[0] == c then 0 else 1 + IndexOf(s[1..], c)
  }

  /** `s.split(c)` for a single-character separator: always at least one piece. */
  function SplitOn(s: string, c: char): (r: seq<string>)
    ensures |r| >= 1
    decreases |s|
  {
    var i := IndexOf(s, c);
    if i == |s| then [s] else [s[..i]] + SplitOn(s[i + 1..], c)
  }

  /** Length of the leading run of non-whitespace characters. */
  function TokenLength(s: string): (n: nat)
    ensures n <= |s|
    ensures forall k :: 0 <= k < n ==> !IsSpace(s[k])
    ensures n < |s| ==> IsSpace(s[n])
  {
    if s == [] || IsSpace(s[0]) then 0 else 1 + TokenLength(s[1..])
  }

  /** `s.split()`: the maximal runs of non-whitespace characters. */
  function Split(s: string): (r: seq<string>)
    ensures forall k :: 0 <= k < |r| ==> r[k] != []
    decreases |s|
  {
    var t := LStrip(s);
    if t == [] then [] else
      var n := TokenLength(t);
      [t[..n]] + Split(t[n..])
  }

  /** Text that starts with a non-whitespace character has a first token. */
  lemma SplitNonEmpty(s: string)
    requires s != [] && !IsSpace(s[0])
    ensures Split(s) != []
  {
    assert LStrip(s) == s;
  }

  /** A stripped text starts and ends with non-whitespace characters. */
  lemma StripEnds(s: string)
    ensures Strip(s) != [] ==> !IsSpace(Strip(s)[0]) && !IsSpace(Strip(s)[|Strip(s)| - 1])
  {
    var t := LStrip(s);
    assert Strip(s) == t[..|Strip(s)|];
  }

  /** `s.splitlines()` for text whose only line break is '\n'. */
  function Lines(s: string): (r: seq<string>)
    ensures forall k :: 0 <= k < |r| ==> '\n' !in r[k]
    decreases |s|
  {
    if s == [] then [] else
      var i := IndexOf(s, '\n');
      if i == |s| then [s] else [s[..i]] + Lines(s[i + 1..])
  }

  /** `f.readlines()`: the lines with their line breaks kept, so that they concatenate back. */
  function ReadLines(s: string): (r: seq<string>)
    ensures Concat(r) == s
    ensures forall k :: 0 <= k < |r| ==> r[k] != []
    decreases |s|
  {
    if s == [] then [] else
      var i := IndexOf(s, '\n');
      if i == |s| then [s] else
        assert s == s[..i + 1] + s[i + 1..];
        [s[..i + 1]] + ReadLines(s[i + 1..])
  }

  /** `"".join(parts)`. */
  function Concat(parts: seq<string>): string {
    if parts == [] then [] else parts[0] + Concat(parts[1..])
  }

  lemma {:induction false} ConcatAppend(a: seq<string>, b: seq<string>)
    ensures Concat(a + b) == Concat(a) + Concat(b)
  {
    if a == [] {
      assert a + b == b;
    } else {
      assert (a + b)[1..] == a[1..] + b;
      ConcatAppend(a[1..], b);
    }
  }

  /** `sep.join(parts)`. */
  function Join(sep: string, parts: seq<string>): string {
    if parts == [] then []
    else if |parts| == 1 then parts[0]
    else parts[0] + sep + Join(sep, parts[1..])
  }

  function DigitChar(d: nat): char
    requires d < 10
  {
    ('0' as int + d) as char
  }

  /** `str(n)` for a non-negative integer. */
  function NatToString(n: nat): (r: string)
    ensures |r| >= 1
  {
    if n < 10 then [DigitChar(n)] else NatToString(n / 10) + [DigitChar(n % 10)]
  }

  /** `str(n)` for any integer. */
  function IntToString(n: int): string {
    if n < 0 then "-" + NatToString(-n) else NatToString(n)
  }

  /** A line as `readlines()` produces it: not empty, and a line break can only end it. */
  predicate LineOk(l: string) {
    l != [] && forall j :: 0 <= j < |l| - 1 ==> l[j] != '\n'
  }

  predicate Terminated(l: string) {
    l != [] && l[|l| - 1] == '\n'
  }

  /** A list of lines as `readlines()` produces them: only the last may lack its break. */
  predicate WellSplit(lines: seq<string>) {
    (forall k :: 0 <= k < |lines| ==> LineOk(lines[k])) &&
    (forall k :: 0 <= k < |lines| - 1 ==> Terminated(lines[k]))
  }

  lemma WellSplitCons(x: string, rest: seq<string>)
    ensures WellSplit([x] + rest) <==> LineOk(x) && (rest != [] ==> Terminated(x)) && WellSplit(rest)
  {
    var l := [x] + rest;
    assert l[0] == x;
    assert forall k :: 0 < k < |l| ==> l[k] == rest[k - 1];
    if LineOk(x) && (rest != [] ==> Terminated(x)) && WellSplit(rest) {
      forall k | 0 <= k < |l|
        ensures LineOk(l[k])
      {
        if k > 0 { assert l[k] == rest[k - 1]; }
      }
      forall k | 0 <= k < |l| - 1
        ensures Terminated(l[k])
      {
        if k > 0 { assert l[k] == rest[k - 1]; }
      }
    }
    if WellSplit(l) {
      forall k | 0 <= k < |rest|
        ensures LineOk(rest[k])
      {
        assert rest[k] == l[k + 1];
      }
      forall k | 0 <= k < |rest| - 1
        ensures Terminated(rest[k])
      {
        assert rest[k] == l[k + 1];
      }
    }
  }

  lemma {:induction false} ReadLinesWellSplit(s: string)
    ensures WellSplit(ReadLines(s))
    decreases |s|
  {
    if s != [] {
      var i := IndexOf(s, '\n');
      if i < |s| {
        ReadLinesWellSplit(s[i + 1..]);
        assert ReadLines(s) == [s[..i + 1]] + ReadLines(s[i + 1..]);
        WellSplitCons(s[..i + 1], ReadLines(s[i + 1..]));
      } else {
        assert ReadLines(s) == [s] + [];
        WellSplitCons(s, []);
      }
    }
  }

  /** Writing lines out and reading them back gives the same lines. */
  lemma {:induction false} ReadLinesConcat(lines: seq<string>)
    requires WellSplit(lines)
    ensures ReadLines(Concat(lines)) == lines
  {
    if lines != [] {
      var head := lines[0];
      var rest := lines[1..];
      assert lines == [head] + rest;
      WellSplitCons(head, rest);
      ReadLinesConcat(rest);
      var s := Concat(lines);
      assert s == head + Concat(rest);
      if head[|head| - 1] == '\n' {
        IndexOfPrefix(head, Concat(rest), |head| - 1);
        assert s[..|head|] == head;
        assert s[|head|..] == Concat(rest);
      } else {
        assert rest == [];
        assert forall j :: 0 <= j < |head| ==> head[j] != '\n';
        assert s == head;
      }
    }
  }

  lemma IndexOfPrefix(a: string, b: string, i: nat)
    requires i < |a| && a[i] == '\n' && forall j :: 0 <= j < i ==> a[j] != '\n'
    ensures IndexOf(a + b, '\n') == i
  {
    var s := a + b;
    var k := IndexOf(s, '\n');
    assert s[i] == '\n';
  }

  /** `RStrip` keeps at least up to the last non-whitespace character. */
  lemma {:induction false} RStripKeeps(s: string, k: nat)
    requires k < |s| && !IsSpace(s[k])
    ensures |RStrip(s)| > k
    decreases |s|
  {
    if IsSpace(s[|s| - 1]) {
      RStripKeeps(s[..|s| - 1], k);
    }
  }
}
