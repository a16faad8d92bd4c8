/**
 * The parts of java.lang.String and java.util.Scanner the dictionaries rely on:
 * the natural order of strings (`compareTo`), `equals`, `indexOf`, `lastIndexOf`,
 * `contains`, `substring`, `equalsIgnoreCase`, and `Scanner.hasNext()` over a
 * file given as its lines.
 */
module JavaString {
  import opened Outcomes

  /** `a.compareTo(b) < 0`: lexicographic order by character, a proper prefix first. */
  predicate Less(a: string, b: string)
    decreases |a|
  {
    if a == [] then b != []
    else if b == [] then false
    else if a[0] != b[0] then a[0] < b[0]
    else Less(a[1..], b[1..])
  }

  lemma {:induction false} LessIrreflexive(a: string)
    ensures !Less(a, a)
  {
    if a != [] {
      LessIrreflexive(a[1..]);
    }
  }

  lemma {:induction false} LessAsymmetric(a: string, b: string)
    requires Less(a, b)
    ensures !Less(b, a)
  {
    if a != [] && b != [] && a[0] == b[0] {
      LessAsymmetric(a[1..], b[1..]);
    }
  }

  lemma {:induction false} LessTransitive(a: string, b: string, c: string)
    requires Less(a, b) && Less(b, c)
    ensures Less(a, c)
  {
    if a != [] && b != [] && c != [] && a[0] == b[0] && b[0] == c[0] {
      LessTransitive(a[1..], b[1..], c[1..]);
    }
  }

  lemma {:induction false} LessTotal(a: string, b: string)
    ensures a == b || Less(a, b) || Less(b, a)
  {
    if a != [] && b != [] && a[0] == b[0] {
      LessTotal(a[1..], b[1..]);
      assert a == [a[0]] + a[1..] && b == [b[0]] + b[1..];
    }
  }

  /**
   * `String.compareTo`: the difference of the first differing characters,
   * otherwise the difference of the lengths.
   */
  function CompareTo(a: string, b: string): (r: int)
    ensures r == 0 <==> a == b
    ensures r < 0 <==> Less(a, b)
    ensures r > 0 <==> Less(b, a)
    decreases |a|
  {
    if a == [] || b == [] then |a| - |b|
    else if a[0] != b[0] then a[0] as int - b[0] as int
    else
      assert a == [a[0]] + a[1..] && b == [b[0]] + b[1..];
      CompareTo(a[1..], b[1..])
  }

  lemma {:induction false} CompareToAntisymmetric(a: string, b: string)
    ensures CompareTo(a, b) == -CompareTo(b, a)
  {
    if a != [] && b != [] && a[0] == b[0] {
      CompareToAntisymmetric(a[1..], b[1..]);
    }
  }

  /** `a.equals(b)`: the same length and the same characters, compared from the front. */
  predicate Equals(a: string, b: string) {
    |a| == |b| && EqualsFrom(a, b, 0)
  }

  predicate EqualsFrom(a: string, b: string, i: nat)
    requires |a| == |b|
    decreases |a| - i
  {
    i >= |a| || (a[i] == b[i] && EqualsFrom(a, b, i + 1))
  }

  lemma {:induction false} EqualsFromSpec(a: string, b: string, i: nat)
    requires |a| == |b|
    ensures EqualsFrom(a, b, i) <==> forall k :: i <= k < |a| ==> a[k] == b[k]
    decreases |a| - i
  {
    if i < |a| {
      EqualsFromSpec(a, b, i + 1);
    }
  }

  /** `equals` is equality of strings. */
  lemma EqualsSpec(a: string, b: string)
    ensures Equals(a, b) <==> a == b
  {
    if |a| == |b| {
      EqualsFromSpec(a, b, 0);
    }
  }

  /** `s.indexOf(c, from)`: the first position from `from` on that holds `c`, or -1. */
  function IndexOfFrom(s: string, c: char, from: nat): (r: int)
    ensures r == -1 || from <= r < |s|
    decreases |s| - from
  {
    if from >= |s| then -1
    else if s[from] == c then from
    else IndexOfFrom(s, c, from + 1)
  }

  /** `s.indexOf(c)`. */
  function IndexOf(s: string, c: char): (r: int)
    ensures -1 <= r < |s|
  {
    IndexOfFrom(s, c, 0)
  }

  lemma {:induction false} IndexOfFromSpec(s: string, c: char, from: nat)
    ensures IndexOfFrom(s, c, from) == -1 <==> forall k :: from <= k < |s| ==> s[k] != c
    ensures 0 <= IndexOfFrom(s, c, from) ==>
      s[IndexOfFrom(s, c, from)] == c && forall k :: from <= k < IndexOfFrom(s, c, from) ==> s[k] != c
    decreases |s| - from
  {
    if from < |s| && s[from] != c {
      IndexOfFromSpec(s, c, from + 1);
    }
  }

  /** `indexOf` gives -1 exactly when `c` does not occur, and otherwise its first occurrence. */
  lemma IndexOfSpec(s: string, c: char)
    ensures IndexOf(s, c) == -1 <==> c !in s
    ensures 0 <= IndexOf(s, c) ==> s[IndexOf(s, c)] == c && c !in s[..IndexOf(s, c)]
  {
    IndexOfFromSpec(s, c, 0);
  }

  /** The position `indexOf` reports is fixed by an occurrence with none before it. */
  lemma IndexOfAt(s: string, c: char, i: nat)
    requires i < |s| && s[i] == c
    requires forall k :: 0 <= k < i ==> s[k] != c
    ensures IndexOf(s, c) == i
  {
    IndexOfFromSpec(s, c, 0);
  }

  /** `s.lastIndexOf(c, end - 1)`: the last position before `end` that holds `c`, or -1. */
  function LastIndexOfBefore(s: string, c: char, end: nat): (r: int)
    requires end <= |s|
    ensures -1 <= r < end
  {
    if end == 0 then -1
    else if s[end - 1] == c then end - 1
    else LastIndexOfBefore(s, c, end - 1)
  }

  /** `s.lastIndexOf(c)`. */
  function LastIndexOf(s: string, c: char): (r: int)
    ensures -1 <= r < |s|
  {
    LastIndexOfBefore(s, c, |s|)
  }

  lemma {:induction false} LastIndexOfBeforeSpec(s: string, c: char, end: nat)
    requires end <= |s|
    ensures LastIndexOfBefore(s, c, end) == -1 <==> forall k :: 0 <= k < end ==> s[k] != c
    ensures 0 <= LastIndexOfBefore(s, c, end) ==>
      s[LastIndexOfBefore(s, c, end)] == c && forall k :: LastIndexOfBefore(s, c, end) < k < end ==> s[k] != c
  {
    if end > 0 && s[end - 1] != c {
      LastIndexOfBeforeSpec(s, c, end - 1);
    }
  }

  /** `lastIndexOf` gives -1 exactly when `c` does not occur, and otherwise its last occurrence. */
  lemma LastIndexOfSpec(s: string, c: char)
    ensures LastIndexOf(s, c) == -1 <==> c !in s
    ensures 0 <= LastIndexOf(s, c) ==> s[LastIndexOf(s, c)] == c && c !in s[LastIndexOf(s, c) + 1..]
  {
    LastIndexOfBeforeSpec(s, c, |s|);
  }

  /** The position `lastIndexOf` reports is fixed by an occurrence with none after it. */
  lemma LastIndexOfAt(s: string, c: char, i: nat)
    requires i < |s| && s[i] == c
    requires forall k :: i < k < |s| ==> s[k] != c
    ensures LastIndexOf(s, c) == i
  {
    LastIndexOfBeforeSpec(s, c, |s|);
  }

  /** `s.startsWith(p, from)`: `p` occurs in `s` at position `from`. */
  predicate MatchesAt(s: string, from: nat, p: string) {
    from + |p| <= |s| && forall k :: 0 <= k < |p| ==> s[from + k] == p[k]
  }

  /** `s.indexOf(p, from)`: the first position from `from` on where `p` occurs, or -1. */
  function IndexOfStringFrom(s: string, p: string, from: nat): (r: int)
    ensures r == -1 || (from <= r <= |s| && MatchesAt(s, r, p))
    decreases |s| + 1 - from
  {
    if from > |s| then -1
    else if MatchesAt(s, from, p) then from
    else IndexOfStringFrom(s, p, from + 1)
  }

  /** `s.indexOf(p)`. */
  function IndexOfString(s: string, p: string): (r: int)
    ensures r == -1 || (0 <= r <= |s| && MatchesAt(s, r, p))
  {
    IndexOfStringFrom(s, p, 0)
  }

  lemma {:induction false} IndexOfStringFromSpec(s: string, p: string, from: nat)
    ensures IndexOfStringFrom(s, p, from) == -1 <==> forall k :: from <= k <= |s| ==> !MatchesAt(s, k, p)
    ensures 0 <= IndexOfStringFrom(s, p, from) ==>
      forall k :: from <= k < IndexOfStringFrom(s, p, from) ==> !MatchesAt(s, k, p)
    decreases |s| + 1 - from
  {
    if from <= |s| && !MatchesAt(s, from, p) {
      IndexOfStringFromSpec(s, p, from + 1);
    }
  }

  /** `indexOf` gives -1 exactly when `p` occurs nowhere, and otherwise its first occurrence. */
  lemma IndexOfStringSpec(s: string, p: string)
    ensures IndexOfString(s, p) == -1 <==> forall k :: 0 <= k <= |s| ==> !MatchesAt(s, k, p)
    ensures 0 <= IndexOfString(s, p) ==> forall k :: 0 <= k < IndexOfString(s, p) ==> !MatchesAt(s, k, p)
  {
    IndexOfStringFromSpec(s, p, 0);
  }

  /** The position `indexOf` reports is fixed by an occurrence with none before it. */
  lemma IndexOfStringAt(s: string, p: string, i: nat)
    requires MatchesAt(s, i, p)
    requires forall k :: 0 <= k < i ==> !MatchesAt(s, k, p)
    ensures IndexOfString(s, p) == i
  {
    IndexOfStringFromSpec(s, p, 0);
  }

  /** `s.contains(p)`, which Java defines as `s.indexOf(p) >= 0`. */
  predicate Contains(s: string, p: string) {
    IndexOfString(s, p) >= 0
  }

  /** Any occurrence makes `contains` true. */
  lemma ContainsAt(s: string, p: string, i: nat)
    requires MatchesAt(s, i, p)
    ensures Contains(s, p)
  {
    IndexOfStringFromSpec(s, p, 0);
  }

  /**
   * `s.substring(begin, end)`: a copy of the characters from `begin` up to `end`,
   * throwing on bounds out of order or out of range.
   */
  function Substring(s: string, begin: int, end: int): (r: Result<string>)
    ensures r.Success? <==> 0 <= begin <= end <= |s|
    ensures r.Failure? ==> r.error == IndexOutOfBounds
    ensures r.Success? ==> |r.value| == end - begin
    decreases end - begin
  {
    if !(0 <= begin <= end <= |s|) then Failure(IndexOutOfBounds)
    else if begin == end then Success([])
    else Success([s[begin]] + Substring(s, begin + 1, end).value)
  }

  /** The copy is the slice of `s` between the bounds. */
  lemma {:induction false} SubstringSpec(s: string, begin: int, end: int)
    requires 0 <= begin <= end <= |s|
    ensures Substring(s, begin, end) == Success(s[begin..end])
    decreases end - begin
  {
    if begin < end {
      SubstringSpec(s, begin + 1, end);
      assert s[begin..end] == [s[begin]] + s[begin + 1..end];
      assert Substring(s, begin, end) == Success([s[begin]] + Substring(s, begin + 1, end).value);
    } else {
      assert s[begin..end] == [];
    }
  }

  /** ASCII part of `Character.toLowerCase`. */
  function ToLowerAscii(c: char): char {
    if 'A' <= c <= 'Z' then (c as int + 32) as char else c
  }

  /** `a.equalsIgnoreCase(b)`, with case folding restricted to ASCII letters. */
  predicate EqualsIgnoreCase(a: string, b: string) {
    |a| == |b| && forall i :: 0 <= i < |a| ==> ToLowerAscii(a[i]) == ToLowerAscii(b[i])
  }

  /** `Character.isWhitespace`, the default delimiter of `Scanner`. */
  predicate IsWhitespace(c: char) {
    var n := c as int;
    n == 0x20 || 0x09 <= n <= 0x0D || 0x1C <= n <= 0x1F || n == 0x1680
    || (0x2000 <= n <= 0x200A && n != 0x2007) || n == 0x2028 || n == 0x2029
    || n == 0x205F || n == 0x3000
  }

  predicate Blank(line: string) {
    forall i :: 0 <= i < |line| ==> IsWhitespace(line[i])
  }

  /** The characters that end a line for `Scanner.nextLine()`. */
  predicate IsLineTerminator(c: char) {
    var n := c as int;
    n == 0x0A || n == 0x0D || n == 0x85 || n == 0x2028 || n == 0x2029
  }

  /** Text that a writer and a line-reading scanner keep on one line. */
  predicate OneLine(s: string) {
    forall i :: 0 <= i < |s| ==> !IsLineTerminator(s[i])
  }

  /**
   * `Scanner.hasNext()` for a scanner positioned at the start of line `from`:
   * skipping the lines that hold only whitespace, some line remains.
   */
  predicate HasNext(lines: seq<string>, from: nat)
    decreases |lines| - from
  {
    from < |lines| && (!Blank(lines[from]) || HasNext(lines, from + 1))
  }

  /** `hasNext` holds exactly when some line from `from` on is not blank. */
  lemma {:induction false} HasNextSpec(lines: seq<string>, from: nat)
    ensures HasNext(lines, from) <==> exists k :: from <= k < |lines| && !Blank(lines[k])
    decreases |lines| - from
  {
    if from < |lines| {
      HasNextSpec(lines, from + 1);
      if exists k :: from <= k < |lines| && !Blank(lines[k]) {
        var k :| from <= k < |lines| && !Blank(lines[k]);
        assert k == from || (from + 1 <= k < |lines| && !Blank(lines[k]));
      }
    }
  }

  /** A scanner with a non-blank line ahead still has one at any earlier line. */
  lemma {:induction false} HasNextBefore(lines: seq<string>, k: nat, j: nat)
    requires k <= j && HasNext(lines, j)
    ensures HasNext(lines, k)
    decreases j - k
  {
    if k < j {
      HasNextBefore(lines, k + 1, j);
    }
  }

  /** The first line terminator at or after `from`, or `|text|` when there is none. */
  function LineEnd(text: string, from: nat): (r: nat)
    requires from <= |text|
    ensures from <= r <= |text|
    ensures r < |text| ==> IsLineTerminator(text[r])
    ensures forall k :: from <= k < r ==> !IsLineTerminator(text[k])
    decreases |text| - from
  {
    if from == |text| || IsLineTerminator(text[from]) then from else LineEnd(text, from + 1)
  }

  /** The separator `nextLine()` skips at `i`: `\r\n` is one separator of two characters. */
  function SeparatorLength(text: string, i: nat): (r: nat)
    requires i < |text| && IsLineTerminator(text[i])
    ensures r == 1 || (r == 2 && i + 1 < |text| && text[i] == '\r' && text[i + 1] == '\n')
  {
    if text[i] == '\r' && i + 1 < |text| && text[i + 1] == '\n' then 2 else 1
  }

  /**
   * The lines successive `nextLine()` calls return from `text`: each runs up to the
   * next line terminator, and a last line without one is a line too.
   */
  function ReadLines(text: string): (r: seq<string>)
    ensures forall k :: 0 <= k < |r| ==> OneLine(r[k])
    decreases |text|
  {
    if text == [] then []
    else
      var i := LineEnd(text, 0);
      if i == |text| then [text]
      else [text[..i]] + ReadLines(text[i + SeparatorLength(text, i)..])
  }

  /** The text a `FileWriter` holds after writing each line followed by `\n`. */
  function WriteLines(lines: seq<string>): (r: string)
    ensures |r| >= |lines|
  {
    if lines == [] then [] else lines[0] + "\n" + WriteLines(lines[1..])
  }

  /** A line without terminators followed by `\n` is read as that line, and reading goes on after the `\n`. */
  lemma ReadLinesStep(line: string, rest: string)
    requires OneLine(line)
    ensures ReadLines(line + "\n" + rest) == [line] + ReadLines(rest)
  {
    var text := line + "\n" + rest;
    assert forall k :: 0 <= k < |line| ==> text[k] == line[k];
    assert text[|line|] == '\n';
    LineEndAt(text, 0, |line|);
    assert text[..|line|] == line && text[|line| + 1..] == rest;
  }

  /** Lines without terminators are read back exactly as they were written. */
  lemma {:induction false} ReadWriteLines(lines: seq<string>)
    requires forall k :: 0 <= k < |lines| ==> OneLine(lines[k])
    ensures ReadLines(WriteLines(lines)) == lines
  {
    if lines != [] {
      ReadLinesStep(lines[0], WriteLines(lines[1..]));
      ReadWriteLines(lines[1..]);
      assert [lines[0]] + lines[1..] == lines;
    }
  }

  /** The first terminator from `from` is at `i` when there is one at `i` and none before it. */
  lemma {:induction false} LineEndAt(text: string, from: nat, i: nat)
    requires from <= i < |text| && IsLineTerminator(text[i])
    requires forall k :: from <= k < i ==> !IsLineTerminator(text[k])
    ensures LineEnd(text, from) == i
    decreases i - from
  {
    if from < i {
      LineEndAt(text, from + 1, i);
    }
  }

  /** A line holding a line feed is read back as two lines. */
  lemma LineFeedSplitsLine()
    ensures ReadLines(WriteLines(["a\nb"])) == ["a", "b"]
  {
    assert WriteLines(["a\nb"]) == "a" + "\n" + ("b" + "\n" + "") by {
      assert ["a\nb"][1..] == [];
    }
    ReadLinesStep("a", "b" + "\n" + "");
    ReadLinesStep("b", "");
  }
}
