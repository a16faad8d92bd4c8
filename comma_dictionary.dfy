/**
 * The comma revision (src/com/moti/Dictionary.java): a `TreeMap<String,String>`
 * read from and written to lines of the form `term,explanation`. A map entry is
 * represented by a `Term` (key = term, value = explanation).
 */
module CommaDictionary {
  import opened Outcomes
  import opened JavaString
  import opened Terms
  import opened OrderedTerms

  /** The line `exportToFile` writes for one entry (the newline ends the line). */
  function CommaLine(t: Term): (r: string)
    ensures |r| == |t.term| + |t.explanation| + 1 && r[|t.term|] == ','
  {
    t.term + "," + t.explanation
  }

  /** The lines `exportToFile` writes, one per entry in ascending key order. */
  function ExportComma(s: seq<Term>): (r: seq<string>)
    ensures |r| == |s|
    ensures forall i :: 0 <= i < |s| ==> r[i] == CommaLine(s[i])
  {
    seq(|s|, i requires 0 <= i < |s| => CommaLine(s[i]))
  }

  predicate OnlyCommas(line: string) {
    forall i :: 0 <= i < |line| ==> line[i] == ','
  }

  /**
   * `line.split(",")[0]`. Java drops the trailing empty fields of a split, so a
   * non-empty line made only of commas splits into no fields at all and reading
   * field 0 throws; otherwise field 0 is the text before the first comma.
   */
  function SplitHead(line: string): (r: Result<string>)
    ensures r.Failure? <==> line != [] && OnlyCommas(line)
    ensures r.Failure? ==> r.error == IndexOutOfBounds
    ensures r.Success? ==> ',' !in r.value && |r.value| <= |line| && line[..|r.value|] == r.value
    ensures r.Success? && |r.value| < |line| ==> line[|r.value|] == ','
  {
    if line != [] && OnlyCommas(line) then Failure(IndexOutOfBounds)
    else
      var comma := IndexOf(line, ',');
      IndexOfSpec(line, ',');
      if comma == -1 then Success(line) else Success(line[..comma])
  }

  /**
   * One loop iteration of `createDictionaryFromFile` up to the insertion: the key
   * from the split, then the explanation after the first comma.
   */
  function ParseCommaLine(line: string): (r: Result<Term>)
    ensures r.Success? ==> CommaLine(r.value) == line && ',' !in r.value.term
    ensures line != [] && OnlyCommas(line) ==> r == Failure(IndexOutOfBounds)
    ensures ',' !in line ==> r == Failure(IllegalArgument(InvalidFormat))
    ensures ',' in line && !OnlyCommas(line) ==> r.Success?
  {
    assert line != [] && OnlyCommas(line) ==> line[0] == ',';
    var term :- SplitHead(line);
    var comma := IndexOf(line, ',');
    IndexOfSpec(line, ',');
    if comma == -1 then Failure(IllegalArgument(InvalidFormat))
    else
      assert line == line[..comma] + "," + line[comma + 1..];
      Success(Term(term, line[comma + 1..]))
  }

  /**
   * `createDictionaryFromFile` from line `from` on, with the entries `acc` read so
   * far: while some non-blank line remains, read the next line (blank or not) and
   * add its entry; a repeated key is an invalid file.
   */
  function ImportCommaFrom(lines: seq<string>, from: nat, acc: seq<Term>): (r: Result<seq<Term>>)
    ensures r.Failure? ==> r.error == IllegalArgument(InvalidFormat) || r.error == IndexOutOfBounds
    decreases |lines| - from
  {
    if !HasNext(lines, from) then Success(acc)
    else
      var t :- ParseCommaLine(lines[from]);
      if HasKey(acc, t.term) then Failure(IllegalArgument(InvalidFormat))
      else ImportCommaFrom(lines, from + 1, Put(acc, t))
  }

  function ImportComma(lines: seq<string>): (r: Result<seq<Term>>)
    ensures r.Failure? ==> r.error == IllegalArgument(InvalidFormat) || r.error == IndexOutOfBounds
  {
    ImportCommaFrom(lines, 0, [])
  }

  /** The entries whose exported line splits back into the same key and explanation. */
  predicate CommaSplits(t: Term) {
    ',' !in t.term && (t.term != [] || !OnlyCommas(t.explanation))
  }

  /**
   * The entries the comma format carries through an export and an import: the line
   * splits back, and no line terminator cuts it into several lines on the way.
   */
  predicate CommaSafe(t: Term) {
    CommaSplits(t) && OneLine(t.term) && OneLine(t.explanation)
  }

  /** Lines of keys without commas tell their entries apart. */
  lemma CommaLineInjective(a: Term, b: Term)
    requires ',' !in a.term && ',' !in b.term
    requires CommaLine(a) == CommaLine(b)
    ensures a == b
  {
    var line := CommaLine(a);
    assert forall j :: 0 <= j < |a.term| ==> line[j] == a.term[j];
    assert forall j :: 0 <= j < |b.term| ==> line[j] == b.term[j];
    IndexOfAt(line, ',', |a.term|);
    IndexOfAt(line, ',', |b.term|);
    assert a.term == line[..|a.term|] && b.term == line[..|b.term|];
    assert a.explanation == line[|a.term| + 1..] && b.explanation == line[|b.term| + 1..];
  }

  /** An exported line parses back to its entry exactly when the entry splits back. */
  lemma ParseCommaLineRoundTrip(t: Term)
    ensures ParseCommaLine(CommaLine(t)) == Success(t) <==> CommaSplits(t)
  {
    var line := CommaLine(t);
    var n := |t.term|;
    if CommaSplits(t) {
      assert !OnlyCommas(line) by {
        if n > 0 {
          assert line[0] == t.term[0];
        } else {
          var i :| 0 <= i < |t.explanation| && t.explanation[i] != ',';
          assert line[i + 1] == t.explanation[i];
        }
      }
      CommaLineInjective(ParseCommaLine(line).value, t);
    } else if ',' !in t.term {
      assert OnlyCommas(line) by {
        forall i | 0 <= i < |line|
          ensures line[i] == ','
        {
          if i > 0 {
            assert line[i] == t.explanation[i - 1];
          }
        }
      }
    }
  }

  /** Exported lines hold a comma, so none of them is blank. */
  lemma CommaLineNotBlank(t: Term)
    ensures !Blank(CommaLine(t))
  {
    assert CommaLine(t)[|t.term|] == ',';
  }

  /** Every term read so far, and every term in a file that loads, comes out in ascending key order. */
  lemma {:induction false} ImportCommaFromSorted(lines: seq<string>, from: nat, acc: seq<Term>)
    requires Sorted(acc)
    ensures ImportCommaFrom(lines, from, acc).Success? ==> Sorted(ImportCommaFrom(lines, from, acc).value)
    decreases |lines| - from
  {
    if HasNext(lines, from) {
      match ParseCommaLine(lines[from])
      case Failure(_) =>
      case Success(t) =>
        if !HasKey(acc, t.term) {
          PutSorted(acc, t);
          ImportCommaFromSorted(lines, from + 1, Put(acc, t));
        }
    }
  }

  /** A line that parses holds a comma, so it is not blank. */
  lemma ParsedCommaLineNotBlank(line: string)
    requires ParseCommaLine(line).Success?
    ensures !Blank(line)
  {
    CommaLineNotBlank(ParseCommaLine(line).value);
  }

  /** A line that parses is read: a repeated key fails the load, a new one is added. */
  lemma ImportCommaStep(lines: seq<string>, from: nat, acc: seq<Term>, t: Term)
    requires from < |lines| && !Blank(lines[from])
    requires ParseCommaLine(lines[from]) == Success(t)
    ensures ImportCommaFrom(lines, from, acc) ==
      if HasKey(acc, t.term) then Failure(IllegalArgument(InvalidFormat))
      else ImportCommaFrom(lines, from + 1, Put(acc, t))
  {
    assert HasNext(lines, from);
  }

  /** Reading a line that parses to `t`: a repeated key fails the load, a new one is added. */
  lemma ImportCommaReadsLine(lines: seq<string>, from: nat, acc: seq<Term>, t: Term, key: string)
    requires from < |lines| && ParseCommaLine(lines[from]) == Success(t)
    ensures if HasKey(acc, t.term) then ImportCommaFrom(lines, from, acc) == Failure(IllegalArgument(InvalidFormat))
      else (ImportCommaFrom(lines, from, acc) == ImportCommaFrom(lines, from + 1, Put(acc, t))
        && (HasKey(Put(acc, t), key) <==> HasKey(acc, key) || key == t.term))
  {
    ParsedCommaLineNotBlank(lines[from]);
    ImportCommaStep(lines, from, acc, t);
    PutHasKey(acc, t, key);
  }

  /** Every line from `from` through `last` parses to an entry. */
  ghost predicate ParsesThrough(lines: seq<string>, from: nat, last: nat)
    requires last < |lines|
    decreases last + 1 - from
  {
    from > last || (ParseCommaLine(lines[from]).Success? && ParsesThrough(lines, from + 1, last))
  }

  lemma {:induction false} ParsesThroughAll(lines: seq<string>, from: nat, last: nat)
    requires last < |lines|
    requires forall k :: from <= k <= last ==> ParseCommaLine(lines[k]).Success?
    ensures ParsesThrough(lines, from, last)
    decreases last + 1 - from
  {
    if from <= last {
      ParsesThroughAll(lines, from + 1, last);
    }
  }

  /**
   * From line `from` on, with `acc` read, a load whose lines parse through line `j`
   * fails with `Invalid file format` when the key of line `j` is already read or is
   * also the key of a line `i` in between.
   */
  lemma {:induction false} ImportCommaFromRepeat(lines: seq<string>, from: nat, acc: seq<Term>, i: nat, j: nat, key: string)
    requires from <= j < |lines| && ParsesThrough(lines, from, j)
    requires ParseCommaLine(lines[j]).Success? && ParseCommaLine(lines[j]).value.term == key
    requires HasKey(acc, key) || (from <= i < j && ParseCommaLine(lines[i]).Success? && ParseCommaLine(lines[i]).value.term == key)
    ensures ImportCommaFrom(lines, from, acc) == Failure(IllegalArgument(InvalidFormat))
    decreases j - from
  {
    var t := ParseCommaLine(lines[from]).value;
    ImportCommaReadsLine(lines, from, acc, t, key);
    if !HasKey(acc, t.term) {
      assert from < j;
      assert HasKey(Put(acc, t), key) || (from + 1 <= i < j && ParseCommaLine(lines[i]).value.term == key);
      ImportCommaFromRepeat(lines, from + 1, Put(acc, t), i, j, key);
    }
  }

  /** Two lines with the same key make the load fail with `Invalid file format`, once the lines up to the second parse. */
  lemma ImportCommaRejectsRepeat(lines: seq<string>, i: nat, j: nat)
    requires i < j < |lines|
    requires forall k :: 0 <= k <= j ==> ParseCommaLine(lines[k]).Success?
    requires ParseCommaLine(lines[i]).value.term == ParseCommaLine(lines[j]).value.term
    ensures ImportComma(lines) == Failure(IllegalArgument(InvalidFormat))
  {
    ParsesThroughAll(lines, 0, j);
    ImportCommaFromRepeat(lines, 0, [], i, j, ParseCommaLine(lines[j]).value.term);
  }

  /** A load that succeeds keeps the entries it started from. */
  lemma {:induction false} ImportCommaFromKeeps(lines: seq<string>, from: nat, acc: seq<Term>, key: string)
    requires ImportCommaFrom(lines, from, acc).Success? && key in ToMap(acc)
    ensures key in ToMap(ImportCommaFrom(lines, from, acc).value)
    ensures ToMap(ImportCommaFrom(lines, from, acc).value)[key] == ToMap(acc)[key]
    decreases |lines| - from
  {
    if HasNext(lines, from) {
      var t := ParseCommaLine(lines[from]).value;
      ImportCommaReadsLine(lines, from, acc, t, key);
      PutContents(acc, t);
      ToMapHasKey(acc, t.term);
      ImportCommaFromKeeps(lines, from + 1, Put(acc, t), key);
    }
  }

  /** A load that succeeds holds the entry of every line the scanner reads. */
  lemma {:induction false} ImportCommaFromLoadsLine(lines: seq<string>, from: nat, acc: seq<Term>, k: nat)
    requires ImportCommaFrom(lines, from, acc).Success? && from <= k < |lines| && HasNext(lines, k)
    ensures ParseCommaLine(lines[k]).Success?
    ensures var t, m := ParseCommaLine(lines[k]).value, ToMap(ImportCommaFrom(lines, from, acc).value);
      t.term in m && m[t.term] == t.explanation
    decreases k - from
  {
    HasNextBefore(lines, from, k);
    var t := ParseCommaLine(lines[from]).value;
    ImportCommaReadsLine(lines, from, acc, t, t.term);
    if k == from {
      PutContents(acc, t);
      ImportCommaFromKeeps(lines, from + 1, Put(acc, t), t.term);
    } else {
      ImportCommaFromLoadsLine(lines, from + 1, Put(acc, t), k);
    }
  }

  /** Every key of a load that succeeds was there at the start or comes from a line the scanner reads. */
  lemma {:induction false} ImportCommaFromOrigin(lines: seq<string>, from: nat, acc: seq<Term>, key: string)
    requires ImportCommaFrom(lines, from, acc).Success?
    requires key in ToMap(ImportCommaFrom(lines, from, acc).value)
    ensures key in ToMap(acc) || exists k :: (from <= k < |lines| && HasNext(lines, k)
      && ParseCommaLine(lines[k]).Success? && ParseCommaLine(lines[k]).value.term == key)
    decreases |lines| - from
  {
    if HasNext(lines, from) {
      var t := ParseCommaLine(lines[from]).value;
      ImportCommaReadsLine(lines, from, acc, t, key);
      PutContents(acc, t);
      ImportCommaFromOrigin(lines, from + 1, Put(acc, t), key);
    }
  }

  /**
   * A file that loads gives exactly the entries of the lines the scanner reads:
   * each such line parses and its entry is present, and every key comes from one.
   */
  lemma ImportCommaLoaded(lines: seq<string>)
    requires ImportComma(lines).Success?
    ensures var m := ToMap(ImportComma(lines).value);
      (forall k :: 0 <= k < |lines| && HasNext(lines, k) ==>
            ParseCommaLine(lines[k]).Success? && ParseCommaLine(lines[k]).value.term in m
            && m[ParseCommaLine(lines[k]).value.term] == ParseCommaLine(lines[k]).value.explanation)
      && (forall key :: key in m ==>
            exists k :: 0 <= k < |lines| && HasNext(lines, k) && ParseCommaLine(lines[k]).Success?
              && ParseCommaLine(lines[k]).value.term == key)
  {
    forall k | 0 <= k < |lines| && HasNext(lines, k)
      ensures ParseCommaLine(lines[k]).Success? && ParseCommaLine(lines[k]).value.term in ToMap(ImportComma(lines).value)
      ensures ToMap(ImportComma(lines).value)[ParseCommaLine(lines[k]).value.term] == ParseCommaLine(lines[k]).value.explanation
    {
      ImportCommaFromLoadsLine(lines, 0, [], k);
    }
    forall key | key in ToMap(ImportComma(lines).value)
      ensures exists k :: (0 <= k < |lines| && HasNext(lines, k) && ParseCommaLine(lines[k]).Success?
        && ParseCommaLine(lines[k]).value.term == key)
    {
      ImportCommaFromOrigin(lines, 0, [], key);
    }
  }

  /** In a file that loads, no two of the lines the scanner reads have the same key. */
  lemma ImportCommaKeysDistinct(lines: seq<string>, i: nat, j: nat)
    requires ImportComma(lines).Success?
    requires i < j < |lines| && HasNext(lines, j)
    ensures ParseCommaLine(lines[i]).Success? && ParseCommaLine(lines[j]).Success?
    ensures ParseCommaLine(lines[i]).value.term != ParseCommaLine(lines[j]).value.term
  {
    forall k | 0 <= k <= j
      ensures ParseCommaLine(lines[k]).Success?
    {
      HasNextBefore(lines, k, j);
      ImportCommaFromLoadsLine(lines, 0, [], k);
    }
    if ParseCommaLine(lines[i]).value.term == ParseCommaLine(lines[j]).value.term {
      ImportCommaRejectsRepeat(lines, i, j);
      assert false;
    }
  }

  /** Line `from` of an export is read as entry `from`. */
  lemma ExportedCommaLineReads(s: seq<Term>, from: nat, acc: seq<Term>)
    requires from < |s| && CommaSplits(s[from]) && !HasKey(acc, s[from].term)
    ensures ImportCommaFrom(ExportComma(s), from, acc) == ImportCommaFrom(ExportComma(s), from + 1, Put(acc, s[from]))
  {
    var lines, t := ExportComma(s), s[from];
    assert lines[from] == CommaLine(t);
    CommaLineNotBlank(t);
    ParseCommaLineRoundTrip(t);
    ImportCommaStep(lines, from, acc, t);
  }

  /** Reading line `from` of an export extends the entries read so far by entry `from`. */
  lemma ExportedCommaLineStep(s: seq<Term>, from: nat)
    requires Sorted(s) && from < |s| && CommaSplits(s[from])
    ensures ImportCommaFrom(ExportComma(s), from, s[..from]) == ImportCommaFrom(ExportComma(s), from + 1, s[..from + 1])
  {
    PutNextOfSorted(s, from);
    ExportedCommaLineReads(s, from, s[..from]);
  }

  lemma {:induction false} ImportExportedCommaFrom(s: seq<Term>, from: nat)
    requires Sorted(s) && from <= |s|
    requires forall i :: 0 <= i < |s| ==> CommaSplits(s[i])
    ensures ImportCommaFrom(ExportComma(s), from, s[..from]) == Success(s)
    decreases |s| - from
  {
    if from == |s| {
      assert s[..from] == s;
    } else {
      ExportedCommaLineStep(s, from);
      ImportExportedCommaFrom(s, from + 1);
    }
  }

  /** Export then import gives back the same entries, for entries whose lines split back. */
  lemma ExportImportComma(s: seq<Term>)
    requires Sorted(s)
    requires forall i :: 0 <= i < |s| ==> CommaSplits(s[i])
    ensures ImportComma(ExportComma(s)) == Success(s)
  {
    ImportExportedCommaFrom(s, 0);
    assert s[..0] == [];
  }

  /** An exported line is one line of the file when its key and explanation are. */
  lemma CommaLineOneLine(t: Term)
    requires OneLine(t.term) && OneLine(t.explanation)
    ensures OneLine(CommaLine(t))
  {
    var line, n := CommaLine(t), |t.term|;
    forall k | 0 <= k < |line|
      ensures !IsLineTerminator(line[k])
    {
      if k < n {
        assert line[k] == t.term[k];
      } else if k > n {
        assert line[k] == t.explanation[k - n - 1];
      }
    }
  }

  /**
   * Writing the exported lines to a file and reading the file back line by line
   * gives back the same entries, for entries the format can carry.
   */
  lemma ExportImportCommaFile(s: seq<Term>)
    requires Sorted(s)
    requires forall i :: 0 <= i < |s| ==> CommaSafe(s[i])
    ensures ImportComma(ReadLines(WriteLines(ExportComma(s)))) == Success(s)
  {
    forall i | 0 <= i < |s|
      ensures OneLine(ExportComma(s)[i])
    {
      CommaLineOneLine(s[i]);
    }
    ReadWriteLines(ExportComma(s));
    ExportImportComma(s);
  }

  /** An entry with an empty key and an explanation of commas is exported as a line the import cannot split. */
  lemma EmptyKeyNotReadBack(e: string)
    requires OnlyCommas(e)
    ensures ImportComma(ExportComma([Term("", e)])) == Failure(IndexOutOfBounds)
  {
    var line := CommaLine(Term("", e));
    assert ExportComma([Term("", e)]) == [line] && [line][0] == line;
    CommaLineNotBlank(Term("", e));
    assert HasNext([line], 0);
    assert OnlyCommas(line) by {
      forall i | 0 <= i < |line|
        ensures line[i] == ','
      {
        if i > 0 {
          assert line[i] == e[i - 1];
        }
      }
    }
  }

  /** Any entry exported as a line made only of commas, such as `Term(",", "")`, makes the import throw. */
  lemma AllCommaLineNotReadBack(t: Term)
    requires OnlyCommas(CommaLine(t))
    ensures ImportComma(ExportComma([t])) == Failure(IndexOutOfBounds)
  {
    var line := CommaLine(t);
    assert ExportComma([t]) == [line] && [line][0] == line;
    CommaLineNotBlank(t);
    assert HasNext([line], 0);
  }

  /**
   * A key holding a comma is read back cut at its first comma `k`, with the rest
   * moved into the explanation, unless the whole line is commas (then the load
   * throws, as `AllCommaLineNotReadBack` shows).
   */
  lemma CommaKeyReadBackCut(t: Term, k: nat)
    requires k < |t.term| && t.term[k] == ',' && ',' !in t.term[..k]
    requires !OnlyCommas(CommaLine(t))
    ensures ImportComma(ExportComma([t])) == Success([Term(t.term[..k], t.term[k + 1..] + "," + t.explanation)])
  {
    var line := CommaLine(t);
    var x := Term(t.term[..k], t.term[k + 1..] + "," + t.explanation);
    assert ExportComma([t]) == [line] && [line][0] == line;
    CommaLineNotBlank(t);
    assert HasNext([line], 0);
    assert forall j :: 0 <= j < k ==> line[j] == t.term[..k][j];
    assert line[k] == ',' && line[..k] == t.term[..k];
    assert line[k + 1..] == t.term[k + 1..] + "," + t.explanation;
    IndexOfAt(line, ',', k);
    assert ParseCommaLine(line) == Success(x);
    assert !HasKey([], x.term) && Put([], x) == [x];
    assert !HasNext([line], 1);
    assert ImportCommaFrom([line], 1, [x]) == Success([x]);
    assert ImportCommaFrom([line], 0, []) == ImportCommaFrom([line], 1, [x]);
  }

  /**
   * The scan of `getTerm`: the first entry from `from` on whose key equals `term`
   * ignoring case.
   */
  function FirstIgnoringCase(s: seq<Term>, term: string, from: nat): (r: Option<nat>)
    ensures r.Some? ==> from <= r.value < |s| && EqualsIgnoreCase(term, s[r.value].term)
    decreases |s| - from
  {
    if from >= |s| then None
    else if EqualsIgnoreCase(term, s[from].term) then Some(from)
    else FirstIgnoringCase(s, term, from + 1)
  }

  /** No entry before the one the scan returns matches, and the scan fails only when none does. */
  lemma {:induction false} FirstIgnoringCaseFirst(s: seq<Term>, term: string, from: nat)
    ensures FirstIgnoringCase(s, term, from).Some? ==>
      forall j :: from <= j < FirstIgnoringCase(s, term, from).value ==> !EqualsIgnoreCase(term, s[j].term)
    ensures FirstIgnoringCase(s, term, from).None? ==>
      forall j :: from <= j < |s| ==> !EqualsIgnoreCase(term, s[j].term)
    decreases |s| - from
  {
    if from < |s| && !EqualsIgnoreCase(term, s[from].term) {
      FirstIgnoringCaseFirst(s, term, from + 1);
    }
  }

  /**
   * When the exact key is present the scan finds an entry at or before it, so the
   * entry returned sorts no later than the key asked for.
   */
  lemma {:induction false} FirstIgnoringCaseNoLater(s: seq<Term>, term: string, from: nat, at: nat)
    requires from <= at < |s| && s[at].term == term
    ensures FirstIgnoringCase(s, term, from).Some?
    ensures FirstIgnoringCase(s, term, from).value <= at
    decreases |s| - from
  {
    if from < at && !EqualsIgnoreCase(term, s[from].term) {
      FirstIgnoringCaseNoLater(s, term, from + 1, at);
    }
  }

  /** Without a differently-cased twin of the key, `getTerm` returns the exact entry. */
  lemma FirstIgnoringCaseExact(s: seq<Term>, term: string, at: nat)
    requires at < |s| && s[at].term == term
    requires forall j :: 0 <= j < |s| && j != at ==> !EqualsIgnoreCase(term, s[j].term)
    ensures FirstIgnoringCase(s, term, 0) == Some(at)
  {
    FirstIgnoringCaseNoLater(s, term, 0, at);
  }

  /** The quirk: with both `APPLE` and `apple` stored, asking for `apple` finds `APPLE`, which sorts first. */
  lemma GetTermFindsOtherCase()
    ensures Sorted([Term("APPLE", "a fruit"), Term("apple", "a fruit")])
    ensures FirstIgnoringCase([Term("APPLE", "a fruit"), Term("apple", "a fruit")], "apple", 0) == Some(0)
  {
    assert Less("APPLE", "apple");
    assert EqualsIgnoreCase("apple", "APPLE");
  }

  /** The dictionary: `dictionary` holds the map's entries in ascending key order. */
  class Dictionary {
    var dictionary: seq<Term>

    ghost predicate Valid()
      reads this
    {
      Sorted(dictionary)
    }

    /** The dictionary as a map from term to explanation. */
    ghost function Contents(): map<string, string>
      reads this
    {
      ToMap(dictionary)
    }

    constructor ()
      ensures Valid() && dictionary == [] && Contents() == map[]
    {
      dictionary := [];
    }

    /**
     * `createDictionaryFromFile`: `lines` is the scanner's input. The whole load
     * succeeds or nothing is returned.
     */
    static method CreateDictionaryFromFile(lines: seq<string>) returns (r: Result<Dictionary>)
      ensures ImportComma(lines).Failure? ==> r == Failure(ImportComma(lines).error)
      ensures ImportComma(lines).Success? ==>
        r.Success? && fresh(r.value) && r.value.Valid() && r.value.dictionary == ImportComma(lines).value
    {
      var d := new Dictionary();
      var pos := 0;
      while HasNext(lines, pos)
        invariant pos <= |lines|
        invariant fresh(d) && d.Valid()
        invariant ImportCommaFrom(lines, pos, d.dictionary) == ImportComma(lines)
        decreases |lines| - pos
      {
        var line := lines[pos];
        pos := pos + 1;
        var term := SplitHead(line);
        if term.Failure? {
          return Failure(term.error);
        }
        var comma := IndexOf(line, ',');
        if comma == -1 {
          return Failure(IllegalArgument(InvalidFormat));
        }
        var explanation := line[comma + 1..];
        assert ParseCommaLine(line) == Success(Term(term.value, explanation));
        ToMapHasKey(d.dictionary, term.value);
        var added := d.AddTerm(term.value, explanation);
        if added.Fail? {
          return Failure(IllegalArgument(InvalidFormat));
        }
      }
      r := Success(d);
    }

    /** `addTerm`: refuse a present key, otherwise put the pair. */
    method AddTerm(term: string, explanation: string) returns (r: Outcome)
      requires Valid()
      modifies this
      ensures Valid()
      ensures term in old(Contents()) ==> r == Fail(TermExists(term)) && dictionary == old(dictionary)
      ensures term !in old(Contents()) ==>
        r == Pass && dictionary == Put(old(dictionary), Term(term, explanation))
        && Contents() == old(Contents())[term := explanation]
        && |dictionary| == |old(dictionary)| + 1
    {
      ToMapHasKey(dictionary, term);
      if HasKey(dictionary, term) {
        return Fail(TermExists(term));
      }
      var t := Term(term, explanation);
      PutSorted(dictionary, t);
      PutContents(dictionary, t);
      SortedSize(dictionary);
      SortedSize(Put(dictionary, t));
      dictionary := Put(dictionary, t);
      r := Pass;
    }

    /** `updateTerm`: refuse an absent key, otherwise put the pair over the old one. */
    method UpdateTerm(term: string, explanation: string) returns (r: Outcome)
      requires Valid()
      modifies this
      ensures Valid()
      ensures term !in old(Contents()) ==> r == Fail(TermNotExists(term)) && dictionary == old(dictionary)
      ensures term in old(Contents()) ==>
        r == Pass && dictionary == Put(old(dictionary), Term(term, explanation))
        && Contents() == old(Contents())[term := explanation]
        && Contents().Keys == old(Contents()).Keys
    {
      ToMapHasKey(dictionary, term);
      if !HasKey(dictionary, term) {
        return Fail(TermNotExists(term));
      }
      var t := Term(term, explanation);
      PutSorted(dictionary, t);
      PutContents(dictionary, t);
      dictionary := Put(dictionary, t);
      r := Pass;
    }

    /** `removeTerm`: refuse an absent key, otherwise remove it. */
    method RemoveTerm(term: string) returns (r: Outcome)
      requires Valid()
      modifies this
      ensures Valid()
      ensures term !in old(Contents()) ==> r == Fail(TermNotExists(term)) && dictionary == old(dictionary)
      ensures term in old(Contents()) ==>
        r == Pass && dictionary == Delete(old(dictionary), term)
        && Contents() == old(Contents()) - {term}
        && |dictionary| == |old(dictionary)| - 1
    {
      ToMapHasKey(dictionary, term);
      if !HasKey(dictionary, term) {
        return Fail(TermNotExists(term));
      }
      DeleteSorted(dictionary, term);
      DeleteContents(dictionary, term);
      SortedSize(dictionary);
      SortedSize(Delete(dictionary, term));
      dictionary := Delete(dictionary, term);
      r := Pass;
    }

    /**
     * `getTerm`: refuse an absent key, then return the first entry in ascending
     * key order whose key equals `term` ignoring case.
     */
    method GetTerm(term: string) returns (r: Result<Term>)
      ensures term !in Contents() ==> r == Failure(TermNotExists(term))
      ensures term in Contents() ==>
        FirstIgnoringCase(dictionary, term, 0).Some?
        && r == Success(dictionary[FirstIgnoringCase(dictionary, term, 0).value])
    {
      ToMapHasKey(dictionary, term);
      if !HasKey(dictionary, term) {
        return Failure(TermNotExists(term));
      }
      ghost var at :| 0 <= at < |dictionary| && dictionary[at].term == term;
      FirstIgnoringCaseNoLater(dictionary, term, 0, at);
      FirstIgnoringCaseFirst(dictionary, term, 0);
      for i := 0 to |dictionary|
        invariant i <= FirstIgnoringCase(dictionary, term, 0).value
      {
        if EqualsIgnoreCase(term, dictionary[i].term) {
          return Success(dictionary[i]);
        }
      }
      assert false;
    }

    /** `isTermExists`: `containsKey`. */
    function IsTermExists(term: string): (b: bool)
      reads this
      ensures b <==> term in Contents()
    {
      ToMapHasKey(dictionary, term);
      HasKey(dictionary, term)
    }

    /** `exportToFile`: one line per entry, in ascending key order. */
    method ExportToFile() returns (lines: seq<string>)
      ensures lines == ExportComma(dictionary)
    {
      lines := [];
      for i := 0 to |dictionary|
        invariant lines == ExportComma(dictionary[..i])
      {
        assert ExportComma(dictionary[..i + 1]) == ExportComma(dictionary[..i]) + [CommaLine(dictionary[i])];
        lines := lines + [CommaLine(dictionary[i])];
      }
      assert dictionary[..|dictionary|] == dictionary;
    }

    /** `iterator`: the entries in ascending key order, each key once, exactly the contents. */
    function Iterator(): (entries: seq<Term>)
      reads this
      requires Valid()
      ensures Sorted(entries) && ToMap(entries) == Contents() && |entries| == |Contents()|
    {
      SortedSize(dictionary);
      dictionary
    }
  }
}
