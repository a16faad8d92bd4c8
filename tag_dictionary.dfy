/**
 * The tag revision (src/Dictionary.java): a `TreeSet<Term>` ordered by key, read
 * from and written to lines of the form `<term>explanation</term>`.
 */
module TagDictionary {
  import opened Outcomes
  import opened JavaString
  import opened Terms
  import opened OrderedTerms

  /** The line `exportToFile` writes for one term (the newline ends the line). */
  function TagLine(t: Term): (r: string)
    ensures |r| == 2 * |t.term| + |t.explanation| + 5
    ensures r[0] == '<' && r[|t.term| + 1] == '>' && r[|r| - 1] == '>'
  {
    "<" + t.term + ">" + t.explanation + "</" + t.term + ">"
  }

  /** The lines `exportToFile` writes, one per entry in iteration order. */
  function ExportTag(s: seq<Term>): (r: seq<string>)
    ensures |r| == |s|
    ensures forall i :: 0 <= i < |s| ==> r[i] == TagLine(s[i])
  {
    seq(|s|, i requires 0 <= i < |s| => TagLine(s[i]))
  }

  /** The lines `getTermFromFile` accepts as holding a term. */
  predicate Qualifies(line: string) {
    Contains(line, "<") && Contains(line, "</") && Contains(line, ">")
  }

  /**
   * The substring extraction of `getTermFromFile`: the term lies between the first
   * `<` and the first `>`, the closing name between the first `</` and the last `>`,
   * the explanation between the first `>` and the first `</`.
   */
  function ParseTagLine(line: string): (r: Result<Term>)
    ensures r.Failure? ==> r.error == IndexOutOfBounds || r.error == IllegalArgument(InvalidFormat)
    ensures r.Success? ==> '>' !in r.value.term
  {
    var open := IndexOf(line, '<');
    var close := IndexOf(line, '>');
    var slash := IndexOfString(line, "</");
    var last := LastIndexOf(line, '>');
    var term :- Substring(line, open + 1, close);
    // The term ends at the first `>`.
    assert '>' !in term by {
      IndexOfSpec(line, '>');
      SubstringSpec(line, open + 1, close);
      assert forall k :: 0 <= k < |term| ==> term[k] == line[..close][open + 1 + k];
    }
    var closing :- Substring(line, slash + 2, last);
    if !Equals(term, closing) then Failure(IllegalArgument(InvalidFormat))
    else
      var explanation :- Substring(line, close + 1, slash);
      Success(Term(term, explanation))
  }

  /** The line the scan of `getTermFromFile` stops at: the first qualifying one from `from` on. */
  function FindTagLine(lines: seq<string>, from: nat): (r: Option<nat>)
    ensures r.Some? ==> from <= r.value < |lines| && Qualifies(lines[r.value])
    decreases |lines| - from
  {
    if from >= |lines| then None
    else if Qualifies(lines[from]) then Some(from)
    else FindTagLine(lines, from + 1)
  }

  /**
   * `createDictionaryFromFile` from line `from` on, with the entries `acc` read so far:
   * while some non-blank line remains, read one term and add it; a repeated term
   * is an invalid file.
   */
  function ImportTagFrom(lines: seq<string>, from: nat, acc: seq<Term>): (r: Result<seq<Term>>)
    ensures r.Failure? ==> r.error == IllegalArgument(InvalidFormat) || r.error == IndexOutOfBounds
    decreases |lines| - from
  {
    if !HasNext(lines, from) then Success(acc)
    else
      match FindTagLine(lines, from)
      case None => Failure(IllegalArgument(InvalidFormat))
      case Some(k) =>
        var t :- ParseTagLine(lines[k]);
        if HasKey(acc, t.term) then Failure(IllegalArgument(InvalidFormat))
        else ImportTagFrom(lines, k + 1, Put(acc, t))
  }

  function ImportTag(lines: seq<string>): (r: Result<seq<Term>>)
    ensures r.Failure? ==> r.error == IllegalArgument(InvalidFormat) || r.error == IndexOutOfBounds
  {
    ImportTagFrom(lines, 0, [])
  }

  /** The entries whose exported line parses back into the same key and explanation. */
  predicate TagSplits(t: Term) {
    '<' !in t.term && '>' !in t.term && (t.term == [] || t.term[0] != '/') && '<' !in t.explanation
  }

  /**
   * The entries the tag format carries through an export and an import: the line
   * parses back, and no line terminator cuts it into several lines on the way.
   */
  predicate TagSafe(t: Term) {
    TagSplits(t) && OneLine(t.term) && OneLine(t.explanation)
  }

  /** A line without `<` never qualifies. */
  lemma NoOpenNotQualifies(line: string)
    requires '<' !in line
    ensures !Qualifies(line)
  {
    forall k | 0 <= k <= |line|
      ensures !MatchesAt(line, k, "<")
    {
      if k < |line| {
        assert line[k + 0] != "<"[0];
      }
    }
    IndexOfStringSpec(line, "<");
  }

  /** The scan stops exactly at the first qualifying line, and finds none only when none qualifies. */
  lemma {:induction false} FindTagLineFirst(lines: seq<string>, from: nat, k: nat)
    ensures FindTagLine(lines, from) == Some(k) <==>
      from <= k < |lines| && Qualifies(lines[k]) && forall j :: from <= j < k ==> !Qualifies(lines[j])
    ensures FindTagLine(lines, from).None? <==> forall j :: from <= j < |lines| ==> !Qualifies(lines[j])
    decreases |lines| - from
  {
    if from < |lines| && !Qualifies(lines[from]) {
      FindTagLineFirst(lines, from + 1, k);
      if from + 1 <= k < |lines| && forall j :: from + 1 <= j < k ==> !Qualifies(lines[j]) {
        assert forall j :: from <= j < k ==> !Qualifies(lines[j]);
      }
      if forall j :: from + 1 <= j < |lines| ==> !Qualifies(lines[j]) {
        assert forall j :: from <= j < |lines| ==> !Qualifies(lines[j]);
      }
    }
  }

  /** The text from the first `<` to the last `>`, cut at the delimiters in between. */
  lemma TagLineOfSlices(line: string, open: nat, close: nat, slash: nat, last: nat)
    requires open < close < slash && slash + 2 <= last < |line|
    requires line[open] == '<' && line[close] == '>' && line[slash] == '<' && line[slash + 1] == '/' && line[last] == '>'
    requires forall k :: 0 <= k < open ==> line[k] != '<'
    requires forall k :: last < k < |line| ==> line[k] != '>'
    ensures line[open..last + 1] ==
      "<" + line[open + 1..close] + ">" + line[close + 1..slash] + "</" + line[slash + 2..last] + ">"
    ensures '<' !in line[..open] && '>' !in line[last + 1..]
  {
    assert line[open..open + 1] == "<" && line[close..close + 1] == ">" && line[last..last + 1] == ">";
    assert line[slash..slash + 2] == "</";
    assert line[open..last + 1] == line[open..open + 1] + line[open + 1..close] + line[close..close + 1]
      + line[close + 1..slash] + line[slash..slash + 2] + line[slash + 2..last] + line[last..last + 1];
  }

  /** What `getTermFromFile` checked on a line it accepts: the substring bounds and the name match. */
  lemma ParseTagLineSuccess(line: string)
    requires ParseTagLine(line).Success?
    ensures var open, close, slash, last :=
        IndexOf(line, '<'), IndexOf(line, '>'), IndexOfString(line, "</"), LastIndexOf(line, '>');
      0 <= open + 1 <= close && close + 1 <= slash && slash + 2 <= last
      && Substring(line, open + 1, close) == Substring(line, slash + 2, last)
      && ParseTagLine(line).value == Term(Substring(line, open + 1, close).value, Substring(line, close + 1, slash).value)
  {
    var open, close, slash, last := IndexOf(line, '<'), IndexOf(line, '>'), IndexOfString(line, "</"), LastIndexOf(line, '>');
    EqualsSpec(Substring(line, open + 1, close).value, Substring(line, slash + 2, last).value);
  }

  /**
   * The converse of `ParseTagLineSuccess`: a line parses exactly when the three
   * `substring` calls are in bounds and the opening and closing names are equal.
   */
  lemma ParseTagLineIff(line: string)
    ensures var open, close, slash, last :=
        IndexOf(line, '<'), IndexOf(line, '>'), IndexOfString(line, "</"), LastIndexOf(line, '>');
      ParseTagLine(line).Success? <==>
        (0 <= open + 1 <= close && close + 1 <= slash && slash + 2 <= last
         && Substring(line, open + 1, close) == Substring(line, slash + 2, last))
  {
    var open, close, slash, last := IndexOf(line, '<'), IndexOf(line, '>'), IndexOfString(line, "</"), LastIndexOf(line, '>');
    if 0 <= open + 1 <= close && close + 1 <= slash && slash + 2 <= last {
      EqualsSpec(Substring(line, open + 1, close).value, Substring(line, slash + 2, last).value);
    }
    if ParseTagLine(line).Success? {
      ParseTagLineSuccess(line);
    }
  }

  /** Names cut out in bounds that differ fail the name check with `Invalid file format`, not an index error. */
  lemma NamesDifferFails(line: string)
    requires var open, close, slash, last :=
        IndexOf(line, '<'), IndexOf(line, '>'), IndexOfString(line, "</"), LastIndexOf(line, '>');
      0 <= open + 1 <= close && 0 <= slash + 2 <= last
      && Substring(line, open + 1, close) != Substring(line, slash + 2, last)
    ensures ParseTagLine(line) == Failure(IllegalArgument(InvalidFormat))
  {
    var open, close, slash, last := IndexOf(line, '<'), IndexOf(line, '>'), IndexOfString(line, "</"), LastIndexOf(line, '>');
    EqualsSpec(Substring(line, open + 1, close).value, Substring(line, slash + 2, last).value);
  }

  /** A term or closing name whose bounds are out of range fails with the index error of `substring`. */
  lemma NameBoundsFail(line: string)
    requires var open, close, slash, last :=
        IndexOf(line, '<'), IndexOf(line, '>'), IndexOfString(line, "</"), LastIndexOf(line, '>');
      !(0 <= open + 1 <= close) || !(0 <= slash + 2 <= last)
    ensures ParseTagLine(line) == Failure(IndexOutOfBounds)
  {
  }

  /**
   * Where those searches land: the delimiters of an exported line, between the
   * first `<` and the last `>`; with the names equal, the exported line of the entry read.
   */
  lemma CheckedLineShape(line: string, open: int, close: int, slash: int, last: int, t: Term)
    requires open == IndexOf(line, '<') && close == IndexOf(line, '>')
    requires slash == IndexOfString(line, "</") && last == LastIndexOf(line, '>')
    requires 0 <= open + 1 <= close && close + 1 <= slash && slash + 2 <= last
    requires Substring(line, open + 1, close) == Substring(line, slash + 2, last)
    requires t == Term(Substring(line, open + 1, close).value, Substring(line, close + 1, slash).value)
    ensures 0 <= open < last < |line| && line[open..last + 1] == TagLine(t)
    ensures '<' !in line[..open] && '>' !in line[last + 1..]
  {
    assert line[slash] == '<' && line[slash + 1] == '/' by {
      assert MatchesAt(line, slash, "</");
      assert line[slash + 0] == "</"[0] && line[slash + 1] == "</"[1];
    }
    // The `</` found makes `<` occur, so the first `<` exists.
    assert 0 <= open && line[open] == '<' && forall k :: 0 <= k < open ==> line[k] != '<' by {
      IndexOfFromSpec(line, '<', 0);
    }
    assert line[close] == '>' by {
      IndexOfFromSpec(line, '>', 0);
    }
    assert line[last] == '>' && forall k :: last < k < |line| ==> line[k] != '>' by {
      LastIndexOfBeforeSpec(line, '>', |line|);
    }
    TagLineOfSlices(line, open, close, slash, last);
    NamesMatch(line, open, close, slash, last, t);
  }

  /**
   * What a successful parse found: the line holds an exported entry between its
   * first `<` and its last `>`.
   */
  lemma ParsedLineShape(line: string)
    requires ParseTagLine(line).Success?
    ensures var i, j := IndexOf(line, '<'), LastIndexOf(line, '>');
      0 <= i < j < |line| && line[i..j + 1] == TagLine(ParseTagLine(line).value)
      && '<' !in line[..i] && '>' !in line[j + 1..]
  {
    var open, close, slash, last := IndexOf(line, '<'), IndexOf(line, '>'), IndexOfString(line, "</"), LastIndexOf(line, '>');
    ParseTagLineSuccess(line);
    CheckedLineShape(line, open, close, slash, last, ParseTagLine(line).value);
  }

  /** With the opening and closing names equal, the cut text is the exported line of the parsed entry. */
  lemma NamesMatch(line: string, open: nat, close: nat, slash: nat, last: nat, t: Term)
    requires open < close < slash && slash + 2 <= last < |line|
    requires Substring(line, open + 1, close) == Substring(line, slash + 2, last)
    requires t == Term(Substring(line, open + 1, close).value, Substring(line, close + 1, slash).value)
    requires line[open..last + 1] ==
      "<" + line[open + 1..close] + ">" + line[close + 1..slash] + "</" + line[slash + 2..last] + ">"
    ensures line[open..last + 1] == TagLine(t)
  {
    SubstringSpec(line, open + 1, close);
    SubstringSpec(line, slash + 2, last);
    SubstringSpec(line, close + 1, slash);
  }

  /** Where the four searches of `getTermFromFile` land on an exported line. */
  lemma TagLineIndices(t: Term)
    requires TagSplits(t)
    ensures var line, n, m := TagLine(t), |t.term|, |t.explanation|;
      IndexOf(line, '<') == 0 && IndexOf(line, '>') == n + 1
      && IndexOfString(line, "</") == n + m + 2 && LastIndexOf(line, '>') == |line| - 1
  {
    var line := TagLine(t);
    var n, m := |t.term|, |t.explanation|;
    assert forall k :: 0 <= k < n ==> line[k + 1] == t.term[k];
    assert forall k :: 0 <= k < m ==> line[k + n + 2] == t.explanation[k];
    assert line[n + 1] == '>' && line[n + m + 2] == '<' && line[n + m + 3] == '/';
    IndexOfAt(line, '<', 0);
    IndexOfAt(line, '>', n + 1);
    LastIndexOfAt(line, '>', |line| - 1);
    forall k | 0 <= k < n + m + 2
      ensures !MatchesAt(line, k, "</")
    {
      if k == 0 {
        if n > 0 {
          assert line[1] == t.term[0];
        }
      } else if k <= n {
        assert line[k] == t.term[k - 1];
      } else if k > n + 1 {
        assert line[k] == t.explanation[k - n - 2];
      }
    }
    IndexOfStringAt(line, "</", n + m + 2);
  }

  lemma TagLineQualifies(t: Term)
    ensures Qualifies(TagLine(t))
  {
    var line := TagLine(t);
    var n, m := |t.term|, |t.explanation|;
    assert line[n + 1] == '>' && line[n + m + 2] == '<' && line[n + m + 3] == '/';
    ContainsAt(line, "<", 0);
    ContainsAt(line, ">", n + 1);
    ContainsAt(line, "</", n + m + 2);
  }

  /** A line parses to `t` once the four searches land where an exported line has them. */
  lemma ParseAtIndices(line: string, t: Term)
    requires IndexOf(line, '<') == 0 && IndexOf(line, '>') == |t.term| + 1
    requires IndexOfString(line, "</") == |t.term| + |t.explanation| + 2
    requires LastIndexOf(line, '>') == |line| - 1 == 2 * |t.term| + |t.explanation| + 4
    requires line[1..|t.term| + 1] == t.term == line[|t.term| + |t.explanation| + 4..|line| - 1]
    requires line[|t.term| + 2..|t.term| + |t.explanation| + 2] == t.explanation
    ensures ParseTagLine(line) == Success(t)
  {
    var n, m := |t.term|, |t.explanation|;
    SubstringSpec(line, 1, n + 1);
    SubstringSpec(line, n + m + 4, |line| - 1);
    SubstringSpec(line, n + 2, n + m + 2);
    EqualsSpec(t.term, t.term);
  }

  lemma TagLineSlices(t: Term)
    ensures var line, n, m := TagLine(t), |t.term|, |t.explanation|;
      |line| == 2 * n + m + 5 && line[1..n + 1] == t.term == line[n + m + 4..|line| - 1]
      && line[n + 2..n + m + 2] == t.explanation
  {
  }

  /** An exported line qualifies and parses back to its entry. */
  lemma ParseTagLineRoundTrip(t: Term)
    requires TagSplits(t)
    ensures Qualifies(TagLine(t))
    ensures ParseTagLine(TagLine(t)) == Success(t)
  {
    TagLineIndices(t);
    TagLineSlices(t);
    ParseAtIndices(TagLine(t), t);
    TagLineQualifies(t);
  }

  lemma TagLineNotBlank(t: Term)
    ensures !Blank(TagLine(t))
  {
    assert TagLine(t)[0] == '<';
  }

  /** Every term read so far, and every term in a file that loads, comes out in ascending key order. */
  lemma {:induction false} ImportTagFromSorted(lines: seq<string>, from: nat, acc: seq<Term>)
    requires Sorted(acc)
    ensures ImportTagFrom(lines, from, acc).Success? ==> Sorted(ImportTagFrom(lines, from, acc).value)
    decreases |lines| - from
  {
    if HasNext(lines, from) {
      match FindTagLine(lines, from)
      case None =>
      case Some(k) =>
        match ParseTagLine(lines[k])
        case Failure(_) =>
        case Success(t) =>
          if !HasKey(acc, t.term) {
            PutSorted(acc, t);
            ImportTagFromSorted(lines, k + 1, Put(acc, t));
          }
    }
  }

  /** A line that qualifies and parses to an entry with a new key is read at once and the entry added. */
  lemma ImportLineStep(lines: seq<string>, from: nat, acc: seq<Term>, t: Term)
    requires from < |lines| && !Blank(lines[from]) && Qualifies(lines[from])
    requires ParseTagLine(lines[from]) == Success(t) && !HasKey(acc, t.term)
    ensures ImportTagFrom(lines, from, acc) == ImportTagFrom(lines, from + 1, Put(acc, t))
  {
    assert HasNext(lines, from);
    assert FindTagLine(lines, from) == Some(from);
  }

  /** A qualifying line holds a `<`, so it is not blank. */
  lemma QualifiesNotBlank(line: string)
    requires Qualifies(line)
    ensures !Blank(line)
  {
    var k := IndexOfString(line, "<");
    assert line[k + 0] == "<"[0];
  }

  /**
   * One term read: the scan stops at line `k`, which parses to `t`; a repeated key
   * fails the load, a new one is added and the load goes on after line `k`.
   */
  lemma ImportTagStep(lines: seq<string>, from: nat, acc: seq<Term>, k: nat, t: Term)
    requires HasNext(lines, from) && FindTagLine(lines, from) == Some(k)
    requires ParseTagLine(lines[k]) == Success(t)
    ensures ImportTagFrom(lines, from, acc) ==
      if HasKey(acc, t.term) then Failure(IllegalArgument(InvalidFormat)) else ImportTagFrom(lines, k + 1, Put(acc, t))
  {
    var parsed := ParseTagLine(lines[k]);
    assert !parsed.IsFailure() && parsed.Extract() == t;
  }

  /** With a qualifying line at `j` ahead, the scan from `from` stops at the first qualifying line, at or before `j`. */
  lemma ScanStopsBy(lines: seq<string>, from: nat, j: nat)
    requires from <= j < |lines| && Qualifies(lines[j])
    ensures HasNext(lines, from) && FindTagLine(lines, from).Some?
    ensures var k := FindTagLine(lines, from).value;
      k <= j && forall m :: from <= m < k ==> !Qualifies(lines[m])
  {
    QualifiesNotBlank(lines[j]);
    HasNextBefore(lines, from, j);
    FindTagLineFirst(lines, from, j);
    var k := FindTagLine(lines, from).value;
    FindTagLineFirst(lines, from, k);
  }

  /** Every qualifying line from `from` through `last` parses to an entry. */
  ghost predicate TagParsesThrough(lines: seq<string>, from: nat, last: nat)
    requires last < |lines|
    decreases last + 1 - from
  {
    from > last
    || ((Qualifies(lines[from]) ==> ParseTagLine(lines[from]).Success?) && TagParsesThrough(lines, from + 1, last))
  }

  lemma {:induction false} TagParsesThroughAll(lines: seq<string>, from: nat, last: nat)
    requires last < |lines|
    requires forall k :: from <= k <= last && Qualifies(lines[k]) ==> ParseTagLine(lines[k]).Success?
    ensures TagParsesThrough(lines, from, last)
    decreases last + 1 - from
  {
    if from <= last {
      TagParsesThroughAll(lines, from + 1, last);
    }
  }

  lemma {:induction false} TagParsesThroughAt(lines: seq<string>, from: nat, last: nat, k: nat)
    requires last < |lines| && TagParsesThrough(lines, from, last)
    requires from <= k
    ensures TagParsesThrough(lines, k, last)
    ensures k <= last && Qualifies(lines[k]) ==> ParseTagLine(lines[k]).Success?
    decreases k - from
  {
    if from < k && from <= last {
      TagParsesThroughAt(lines, from + 1, last, k);
    }
  }

  /**
   * From line `from` on, with `acc` read, a load whose qualifying lines parse
   * through line `j` fails with `Invalid file format` when the key of line `j` is
   * already read.
   */
  lemma {:induction false} ImportTagFromRepeatHeld(lines: seq<string>, from: nat, acc: seq<Term>, j: nat, key: string)
    requires from <= j < |lines| && TagParsesThrough(lines, from, j)
    requires Qualifies(lines[j]) && ParseTagLine(lines[j]).Success? && ParseTagLine(lines[j]).value.term == key
    requires HasKey(acc, key)
    ensures ImportTagFrom(lines, from, acc) == Failure(IllegalArgument(InvalidFormat))
    decreases j - from
  {
    ScanStopsBy(lines, from, j);
    var k := FindTagLine(lines, from).value;
    TagParsesThroughAt(lines, from, j, k);
    var t := ParseTagLine(lines[k]).value;
    ImportTagStep(lines, from, acc, k, t);
    PutHasKey(acc, t, key);
    if k == j {
      assert HasKey(acc, t.term);
    } else if !HasKey(acc, t.term) {
      TagParsesThroughAt(lines, from, j, k + 1);
      ImportTagFromRepeatHeld(lines, k + 1, Put(acc, t), j, key);
    }
  }

  /**
   * From line `from` on, a load whose qualifying lines parse through line `j` fails
   * with `Invalid file format` when a qualifying line `i` before `j` has the same key.
   */
  lemma {:induction false} ImportTagFromRepeat(lines: seq<string>, from: nat, acc: seq<Term>, i: nat, j: nat)
    requires from <= i < j < |lines| && TagParsesThrough(lines, from, j)
    requires Qualifies(lines[i]) && Qualifies(lines[j])
    requires ParseTagLine(lines[i]).Success? && ParseTagLine(lines[j]).Success?
    requires ParseTagLine(lines[i]).value.term == ParseTagLine(lines[j]).value.term
    ensures ImportTagFrom(lines, from, acc) == Failure(IllegalArgument(InvalidFormat))
    decreases i - from
  {
    var key := ParseTagLine(lines[j]).value.term;
    ScanStopsBy(lines, from, i);
    var k := FindTagLine(lines, from).value;
    TagParsesThroughAt(lines, from, j, k);
    var t := ParseTagLine(lines[k]).value;
    ImportTagStep(lines, from, acc, k, t);
    PutHasKey(acc, t, key);
    if !HasKey(acc, t.term) {
      TagParsesThroughAt(lines, from, j, k + 1);
      if k == i {
        assert HasKey(Put(acc, t), key);
        ImportTagFromRepeatHeld(lines, k + 1, Put(acc, t), j, key);
      } else {
        ImportTagFromRepeat(lines, k + 1, Put(acc, t), i, j);
      }
    }
  }

  /**
   * Two qualifying lines with the same key make the load fail with `Invalid file
   * format`, once the qualifying lines up to the second parse.
   */
  lemma ImportTagRejectsRepeat(lines: seq<string>, i: nat, j: nat)
    requires i < j < |lines| && Qualifies(lines[i]) && Qualifies(lines[j])
    requires forall k :: 0 <= k <= j && Qualifies(lines[k]) ==> ParseTagLine(lines[k]).Success?
    requires ParseTagLine(lines[i]).value.term == ParseTagLine(lines[j]).value.term
    ensures ImportTag(lines) == Failure(IllegalArgument(InvalidFormat))
  {
    TagParsesThroughAll(lines, 0, j);
    ImportTagFromRepeat(lines, 0, [], i, j);
  }

  /** A load that succeeds keeps the entries it started from. */
  lemma {:induction false} ImportTagFromKeeps(lines: seq<string>, from: nat, acc: seq<Term>, key: string)
    requires ImportTagFrom(lines, from, acc).Success? && key in ToMap(acc)
    ensures key in ToMap(ImportTagFrom(lines, from, acc).value)
    ensures ToMap(ImportTagFrom(lines, from, acc).value)[key] == ToMap(acc)[key]
    decreases |lines| - from
  {
    if HasNext(lines, from) {
      var k := FindTagLine(lines, from).value;
      var t := ParseTagLine(lines[k]).value;
      ImportTagStep(lines, from, acc, k, t);
      PutHasKey(acc, t, key);
      PutContents(acc, t);
      ToMapHasKey(acc, t.term);
      ImportTagFromKeeps(lines, k + 1, Put(acc, t), key);
    }
  }

  /** A load that succeeds holds the entry of every qualifying line from `from` on. */
  lemma {:induction false} ImportTagFromLoadsLine(lines: seq<string>, from: nat, acc: seq<Term>, j: nat)
    requires ImportTagFrom(lines, from, acc).Success? && from <= j < |lines| && Qualifies(lines[j])
    ensures ParseTagLine(lines[j]).Success?
    ensures var t, m := ParseTagLine(lines[j]).value, ToMap(ImportTagFrom(lines, from, acc).value);
      t.term in m && m[t.term] == t.explanation
    decreases j - from
  {
    ScanStopsBy(lines, from, j);
    var k := FindTagLine(lines, from).value;
    var t := ParseTagLine(lines[k]).value;
    ImportTagStep(lines, from, acc, k, t);
    PutHasKey(acc, t, t.term);
    if k == j {
      PutContents(acc, t);
      ImportTagFromKeeps(lines, k + 1, Put(acc, t), t.term);
    } else {
      ImportTagFromLoadsLine(lines, k + 1, Put(acc, t), j);
    }
  }

  /** Every key of a load that succeeds was there at the start or comes from a qualifying line. */
  lemma {:induction false} ImportTagFromOrigin(lines: seq<string>, from: nat, acc: seq<Term>, key: string)
    requires ImportTagFrom(lines, from, acc).Success?
    requires key in ToMap(ImportTagFrom(lines, from, acc).value)
    ensures key in ToMap(acc) || exists k :: (from <= k < |lines| && Qualifies(lines[k])
      && ParseTagLine(lines[k]).Success? && ParseTagLine(lines[k]).value.term == key)
    decreases |lines| - from
  {
    if HasNext(lines, from) {
      var k := FindTagLine(lines, from).value;
      var t := ParseTagLine(lines[k]).value;
      ImportTagStep(lines, from, acc, k, t);
      PutHasKey(acc, t, key);
      PutContents(acc, t);
      ImportTagFromOrigin(lines, k + 1, Put(acc, t), key);
    }
  }

  /**
   * A file that loads gives exactly the entries of its qualifying lines: each such
   * line parses and its entry is present, and every key comes from one.
   */
  lemma ImportTagLoaded(lines: seq<string>)
    requires ImportTag(lines).Success?
    ensures var m := ToMap(ImportTag(lines).value);
      (forall k :: 0 <= k < |lines| && Qualifies(lines[k]) ==>
            ParseTagLine(lines[k]).Success? && ParseTagLine(lines[k]).value.term in m
            && m[ParseTagLine(lines[k]).value.term] == ParseTagLine(lines[k]).value.explanation)
      && (forall key :: key in m ==>
            exists k :: (0 <= k < |lines| && Qualifies(lines[k]) && ParseTagLine(lines[k]).Success?
              && ParseTagLine(lines[k]).value.term == key))
  {
    forall k | 0 <= k < |lines| && Qualifies(lines[k])
      ensures ParseTagLine(lines[k]).Success? && ParseTagLine(lines[k]).value.term in ToMap(ImportTag(lines).value)
      ensures ToMap(ImportTag(lines).value)[ParseTagLine(lines[k]).value.term] == ParseTagLine(lines[k]).value.explanation
    {
      ImportTagFromLoadsLine(lines, 0, [], k);
    }
    forall key | key in ToMap(ImportTag(lines).value)
      ensures exists k :: (0 <= k < |lines| && Qualifies(lines[k]) && ParseTagLine(lines[k]).Success?
        && ParseTagLine(lines[k]).value.term == key)
    {
      ImportTagFromOrigin(lines, 0, [], key);
    }
  }

  /** In a file that loads, no two qualifying lines have the same key. */
  lemma ImportTagKeysDistinct(lines: seq<string>, i: nat, j: nat)
    requires ImportTag(lines).Success?
    requires i < j < |lines| && Qualifies(lines[i]) && Qualifies(lines[j])
    ensures ParseTagLine(lines[i]).Success? && ParseTagLine(lines[j]).Success?
    ensures ParseTagLine(lines[i]).value.term != ParseTagLine(lines[j]).value.term
  {
    forall k | 0 <= k <= j && Qualifies(lines[k])
      ensures ParseTagLine(lines[k]).Success?
    {
      ImportTagFromLoadsLine(lines, 0, [], k);
    }
    if ParseTagLine(lines[i]).value.term == ParseTagLine(lines[j]).value.term {
      ImportTagRejectsRepeat(lines, i, j);
      assert false;
    }
  }

  /** Line `from` of an export is read as entry `from`. */
  lemma ExportedLineReads(s: seq<Term>, from: nat, acc: seq<Term>)
    requires from < |s| && TagSplits(s[from]) && !HasKey(acc, s[from].term)
    ensures ImportTagFrom(ExportTag(s), from, acc) == ImportTagFrom(ExportTag(s), from + 1, Put(acc, s[from]))
  {
    var lines, t := ExportTag(s), s[from];
    assert lines[from] == TagLine(t);
    TagLineNotBlank(t);
    ParseTagLineRoundTrip(t);
    ImportLineStep(lines, from, acc, t);
  }

  /** Reading line `from` of an export extends the entries read so far by entry `from`. */
  lemma ExportedLineStep(s: seq<Term>, from: nat)
    requires Sorted(s) && from < |s| && TagSplits(s[from])
    ensures ImportTagFrom(ExportTag(s), from, s[..from]) == ImportTagFrom(ExportTag(s), from + 1, s[..from + 1])
  {
    PutNextOfSorted(s, from);
    ExportedLineReads(s, from, s[..from]);
  }

  lemma {:induction false} ImportExportedFrom(s: seq<Term>, from: nat)
    requires Sorted(s) && from <= |s|
    requires forall i :: 0 <= i < |s| ==> TagSplits(s[i])
    ensures ImportTagFrom(ExportTag(s), from, s[..from]) == Success(s)
    decreases |s| - from
  {
    if from == |s| {
      assert s[..from] == s;
    } else {
      ExportedLineStep(s, from);
      ImportExportedFrom(s, from + 1);
    }
  }

  /** Export then import gives back the same entries, for entries whose lines parse back. */
  lemma ExportImportTag(s: seq<Term>)
    requires Sorted(s)
    requires forall i :: 0 <= i < |s| ==> TagSplits(s[i])
    ensures ImportTag(ExportTag(s)) == Success(s)
  {
    ImportExportedFrom(s, 0);
    assert s[..0] == [];
  }

  /** An exported line is one line of the file when its key and explanation are. */
  lemma TagLineOneLine(t: Term)
    requires OneLine(t.term) && OneLine(t.explanation)
    ensures OneLine(TagLine(t))
  {
    var line, n, m := TagLine(t), |t.term|, |t.explanation|;
    forall k | 0 <= k < |line|
      ensures !IsLineTerminator(line[k])
    {
      if 0 < k <= n {
        assert line[k] == t.term[k - 1];
      } else if n + 1 < k < n + m + 2 {
        assert line[k] == t.explanation[k - n - 2];
      } else if n + m + 3 < k < |line| - 1 {
        assert line[k] == t.term[k - n - m - 4];
      }
    }
  }

  /**
   * Writing the exported lines to a file and reading the file back line by line
   * gives back the same entries, for entries the format can carry.
   */
  lemma ExportImportTagFile(s: seq<Term>)
    requires Sorted(s)
    requires forall i :: 0 <= i < |s| ==> TagSafe(s[i])
    ensures ImportTag(ReadLines(WriteLines(ExportTag(s)))) == Success(s)
  {
    forall i | 0 <= i < |s|
      ensures OneLine(ExportTag(s)[i])
    {
      TagLineOneLine(s[i]);
    }
    ReadWriteLines(ExportTag(s));
    ExportImportTag(s);
  }

  /** A key that starts with `/` does not survive export and import: its line no longer parses. */
  lemma SlashKeyNotReadBack(t: Term)
    requires t.term != [] && t.term[0] == '/'
    ensures ParseTagLine(TagLine(t)) == Failure(IllegalArgument(InvalidFormat))
    ensures ImportTag(ExportTag([t])) == Failure(IllegalArgument(InvalidFormat))
  {
    var line := TagLine(t);
    var n := |t.term|;
    assert line[0] == '<' && line[1] == '/' && line[n + 1] == '>';
    IndexOfAt(line, '<', 0);
    IndexOfStringAt(line, "</", 0);
    LastIndexOfAt(line, '>', |line| - 1);
    var close := IndexOf(line, '>');
    IndexOfSpec(line, '>');
    assert 0 <= close <= n + 1;
    var lines := ExportTag([t]);
    assert lines == [line] && lines[0] == line;
    TagLineNotBlank(t);
    assert HasNext(lines, 0);
    TagLineQualifies(t);
    assert FindTagLine(lines, 0) == Some(0);
  }

  /** The opening line `<key>` of a multi-line entry fails to parse whenever it qualifies. */
  lemma OpeningTagLineRejected(key: string)
    requires '<' !in key && '>' !in key
    ensures Qualifies("<" + key + ">") ==> ParseTagLine("<" + key + ">") == Failure(IllegalArgument(InvalidFormat))
  {
    var first := "<" + key + ">";
    var n := |key|;
    assert forall k :: 0 <= k < n ==> first[k + 1] == key[k];
    assert first[0] == '<' && first[n + 1] == '>';
    IndexOfAt(first, '<', 0);
    IndexOfAt(first, '>', n + 1);
    LastIndexOfAt(first, '>', n + 1);
    if Qualifies(first) {
      var slash := IndexOfString(first, "</");
      assert first[slash + 0] == "</"[0] && first[slash + 1] == "</"[1];
      assert slash == 0 && n >= 1;
    }
  }

  /** A line whose opening and closing names differ in length is rejected. */
  lemma NameLengthsDiffer(line: string, open: int, close: int, slash: int, last: int)
    requires open == IndexOf(line, '<') && close == IndexOf(line, '>')
    requires slash == IndexOfString(line, "</") && last == LastIndexOf(line, '>')
    requires 0 <= open + 1 <= close && 0 <= slash + 2 <= last && close - open - 1 != last - slash - 2
    ensures ParseTagLine(line) == Failure(IllegalArgument(InvalidFormat))
  {
  }

  /** The closing line `</key>` of a multi-line entry qualifies and fails to parse. */
  lemma ClosingTagLineRejected(key: string)
    requires '>' !in key
    ensures Qualifies("</" + key + ">")
    ensures ParseTagLine("</" + key + ">") == Failure(IllegalArgument(InvalidFormat))
  {
    var last := "</" + key + ">";
    var n := |key|;
    assert forall k :: 0 <= k < n ==> last[k + 2] == key[k];
    assert last[0] == '<' && last[1] == '/' && last[n + 2] == '>';
    IndexOfAt(last, '<', 0);
    IndexOfAt(last, '>', n + 2);
    IndexOfStringAt(last, "</", 0);
    LastIndexOfAt(last, '>', n + 2);
    ContainsAt(last, "<", 0);
    ContainsAt(last, "</", 0);
    ContainsAt(last, ">", n + 2);
    NameLengthsDiffer(last, 0, n + 2, 0, n + 2);
  }

  /**
   * The multi-line layout that the documentation of `createDictionaryFromFile`
   * shows, an opening tag, explanation lines, then a closing tag, is rejected:
   * the first qualifying line is the closing tag, whose "opening" name is `/key`.
   */
  lemma MultiLineEntryRejected(key: string, body: seq<string>)
    requires '<' !in key && '>' !in key
    requires forall i :: 0 <= i < |body| ==> '<' !in body[i]
    ensures ImportTag(["<" + key + ">"] + body + ["</" + key + ">"]) == Failure(IllegalArgument(InvalidFormat))
  {
    var first, last := "<" + key + ">", "</" + key + ">";
    var lines := [first] + body + [last];
    assert lines[0] == first && lines[|lines| - 1] == last;
    assert !Blank(first) by {
      assert !IsWhitespace(first[0]);
    }
    assert HasNext(lines, 0);
    OpeningTagLineRejected(key);
    ClosingTagLineRejected(key);
    if Qualifies(first) {
      FindTagLineFirst(lines, 0, 0);
    } else {
      forall j | 0 <= j < |lines| - 1
        ensures !Qualifies(lines[j])
      {
        if j > 0 {
          assert lines[j] == body[j - 1];
          NoOpenNotQualifies(lines[j]);
        }
      }
      FindTagLineFirst(lines, 0, |lines| - 1);
    }
  }

  /** The dictionary: `dictionary` holds the tree's entries in ascending key order. */
  class Dictionary {
    var dictionary: seq<Term>

    ghost predicate Valid()
      reads this
    {
      Sorted(dictionary)
    }

    /** The dictionary as a map from term to explanation. */
    ghost function Contents(): map<string, string>
      reads this
    {
      ToMap(dictionary)
    }

    constructor ()
      ensures Valid() && dictionary == [] && Contents() == map[]
    {
      dictionary := [];
    }

    /**
     * `createDictionaryFromFile`: `file` is the scanner's input as lines, `None`
     * for a null scanner. The whole load succeeds or nothing is returned.
     */
    static method CreateDictionaryFromFile(file: Option<seq<string>>) returns (r: Result<Dictionary>)
      ensures file.None? ==> r == Failure(IllegalArgument(NullArgument))
      ensures file.Some? && ImportTag(file.value).Failure? ==> r == Failure(ImportTag(file.value).error)
      ensures file.Some? && ImportTag(file.value).Success? ==>
        r.Success? && fresh(r.value) && r.value.Valid() && r.value.dictionary == ImportTag(file.value).value
    {
      if file.None? {
        return Failure(IllegalArgument(NullArgument));
      }
      var lines := file.value;
      var d := new Dictionary();
      var pos := 0;
      while HasNext(lines, pos)
        invariant pos <= |lines|
        invariant fresh(d) && d.Valid()
        invariant ImportTagFrom(lines, pos, d.dictionary) == ImportTag(lines)
        decreases |lines| - pos
      {
        var t, next := GetTermFromFile(lines, pos);
        if t.Failure? {
          return Failure(t.error);
        }
        ToMapHasKey(d.dictionary, t.value.term);
        var added := d.AddEntry(Some(t.value));
        if added.Fail? {
          return Failure(IllegalArgument(InvalidFormat));
        }
        pos := next;
      }
      r := Success(d);
    }

    /**
     * `getTermFromFile`: skip lines until one holds `<`, `</` and `>`, then
     * extract the term from it. `next` is the line after the one read.
     */
    static method GetTermFromFile(lines: seq<string>, from: nat) returns (r: Result<Term>, next: nat)
      requires from <= |lines|
      ensures FindTagLine(lines, from).None? ==> r == Failure(IllegalArgument(InvalidFormat))
      ensures FindTagLine(lines, from).Some? ==>
        r == ParseTagLine(lines[FindTagLine(lines, from).value]) && next == FindTagLine(lines, from).value + 1
    {
      var result := "";
      var isTermFound := false;
      next := from;
      while next < |lines|
        invariant from <= next <= |lines|
        invariant FindTagLine(lines, next) == FindTagLine(lines, from)
      {
        result := lines[next];
        next := next + 1;
        if Qualifies(result) {
          isTermFound := true;
          break;
        }
      }
      if !isTermFound {
        return Failure(IllegalArgument(InvalidFormat)), next;
      }
      r := ParseTagLine(result);
    }

    /** `addTerm(String, String)`. */
    method AddTerm(term: string, explanation: string) returns (r: Outcome)
      requires Valid()
      modifies this
      ensures Valid()
      ensures term in old(Contents()) ==> r == Fail(TermExists(term)) && dictionary == old(dictionary)
      ensures term !in old(Contents()) ==> r == Pass && Contents() == old(Contents())[term := explanation]
    {
      r := AddEntry(Some(Term(term, explanation)));
    }

    /** `addTerm(Term)`: `None` stands for a null term. */
    method AddEntry(t: Option<Term>) returns (r: Outcome)
      requires Valid()
      modifies this
      ensures Valid()
      ensures t.None? ==> r == Fail(IllegalArgument(NullArgument)) && dictionary == old(dictionary)
      ensures t.Some? && t.value.term in old(Contents()) ==>
        r == Fail(TermExists(t.value.term)) && dictionary == old(dictionary)
      ensures t.Some? && t.value.term !in old(Contents()) ==>
        r == Pass && dictionary == Put(old(dictionary), t.value)
        && Contents() == old(Contents())[t.value.term := t.value.explanation]
        && |dictionary| == |old(dictionary)| + 1
    {
      if t.None? {
        return Fail(IllegalArgument(NullArgument));
      }
      ToMapHasKey(dictionary, t.value.term);
      if HasKey(dictionary, t.value.term) {
        return Fail(TermExists(t.value.term));
      }
      PutSorted(dictionary, t.value);
      PutContents(dictionary, t.value);
      SortedSize(dictionary);
      SortedSize(Put(dictionary, t.value));
      dictionary := Put(dictionary, t.value);
      r := Pass;
    }

    /** `updateTerm(String, String)`: look the term up, then update it. */
    method UpdateTerm(term: string, explanation: string) returns (r: Outcome)
      requires Valid()
      modifies this
      ensures Valid()
      ensures term !in old(Contents()) ==> r == Fail(TermNotExists(term)) && dictionary == old(dictionary)
      ensures term in old(Contents()) ==>
        r == Pass && Contents() == old(Contents())[term := explanation]
        && |dictionary| == |old(dictionary)|
        && forall i :: 0 <= i < |dictionary| ==> dictionary[i].term == old(dictionary)[i].term
    {
      var found := GetTerm(term);
      if found.Failure? {
        return Fail(found.error);
      }
      r := UpdateEntry(found.value, explanation);
    }

    /**
     * `updateTerm(Term, String)`: remove the entry with that key and add a new
     * one with the new explanation; every entry keeps its place.
     */
    method UpdateEntry(t: Term, explanation: string) returns (r: Outcome)
      requires Valid()
      modifies this
      ensures Valid()
      ensures t.term !in old(Contents()) ==> r == Fail(TermNotExists(t.term)) && dictionary == old(dictionary)
      ensures t.term in old(Contents()) ==>
        r == Pass && Contents() == old(Contents())[t.term := explanation]
        && |dictionary| == |old(dictionary)|
        && forall i :: 0 <= i < |dictionary| ==> dictionary[i].term == old(dictionary)[i].term
    {
      ToMapHasKey(dictionary, t.term);
      if !HasKey(dictionary, t.term) {
        return Fail(TermNotExists(t.term));
      }
      ghost var i :| 0 <= i < |dictionary| && dictionary[i].term == t.term;
      UpdateInPlace(dictionary, i, explanation);
      ReplaceSorted(dictionary, i, explanation);
      ReplaceContents(dictionary, i, explanation);
      dictionary := Delete(dictionary, t.term);
      dictionary := Put(dictionary, Term(t.term, explanation));
      r := Pass;
    }

    /** `removeTerm(String)`: look the term up, then remove it. */
    method RemoveTerm(term: string) returns (r: Outcome)
      requires Valid()
      modifies this
      ensures Valid()
      ensures term !in old(Contents()) ==> r == Fail(TermNotExists(term)) && dictionary == old(dictionary)
      ensures term in old(Contents()) ==> r == Pass && Contents() == old(Contents()) - {term}
    {
      var found := GetTerm(term);
      if found.Failure? {
        return Fail(found.error);
      }
      r := RemoveEntry(found.value);
    }

    /** `removeTerm(Term)`. */
    method RemoveEntry(t: Term) returns (r: Outcome)
      requires Valid()
      modifies this
      ensures Valid()
      ensures t.term !in old(Contents()) ==> r == Fail(TermNotExists(t.term)) && dictionary == old(dictionary)
      ensures t.term in old(Contents()) ==>
        r == Pass && dictionary == Delete(old(dictionary), t.term)
        && Contents() == old(Contents()) - {t.term}
        && |dictionary| == |old(dictionary)| - 1
    {
      ToMapHasKey(dictionary, t.term);
      if !HasKey(dictionary, t.term) {
        return Fail(TermNotExists(t.term));
      }
      DeleteSorted(dictionary, t.term);
      DeleteContents(dictionary, t.term);
      SortedSize(dictionary);
      SortedSize(Delete(dictionary, t.term));
      dictionary := Delete(dictionary, t.term);
      r := Pass;
    }

    /** `getTerm`: scan the entries in order for one whose key equals `term`. */
    method GetTerm(term: string) returns (r: Result<Term>)
      ensures term in Contents() ==> r == Success(Term(term, Contents()[term]))
      ensures term !in Contents() ==> r == Failure(TermNotExists(term))
    {
      var i := 0;
      while i < |dictionary|
        invariant i <= |dictionary|
        invariant forall j :: 0 <= j < i ==> dictionary[j].term != term
      {
        if term == dictionary[i].term {
          ToMapFirst(dictionary, i);
          return Success(dictionary[i]);
        }
        i := i + 1;
      }
      ToMapHasKey(dictionary, term);
      r := Failure(TermNotExists(term));
    }

    /** `isTermExists`: whether `getTerm` succeeds. */
    method IsTermExists(term: string) returns (b: bool)
      ensures b <==> term in Contents()
    {
      var found := GetTerm(term);
      b := found.Success?;
    }

    /** `exportToFile`: one line per entry, in iteration order. */
    method ExportToFile() returns (lines: seq<string>)
      ensures lines == ExportTag(dictionary)
    {
      lines := [];
      for i := 0 to |dictionary|
        invariant lines == ExportTag(dictionary[..i])
      {
        assert ExportTag(dictionary[..i + 1]) == ExportTag(dictionary[..i]) + [TagLine(dictionary[i])];
        lines := lines + [TagLine(dictionary[i])];
      }
      assert dictionary[..|dictionary|] == dictionary;
    }

    /** `iterator`: the entries in ascending key order, each key once, exactly the contents. */
    function Iterator(): (entries: seq<Term>)
      reads this
      requires Valid()
      ensures Sorted(entries) && ToMap(entries) == Contents() && |entries| == |Contents()|
    {
      SortedSize(dictionary);
      dictionary
    }
  }
}
