# Term dictionary — a Dafny model

This project models the core of the MotiAzran/Dictionary Java program. That core is a dictionary of terms: an ordered map from a term to its explanation, with unique keys. It supports:

- add, update, remove, lookup and an existence test;
- iteration in ascending key order;
- import and export in a line-oriented text format.

The program has two revisions, and both are modelled against one abstract `map<string, string>`.

- **Tag revision** (`src/Dictionary.java`, module `TagDictionary`):
  - storage is a `TreeSet<Term>` ordered by the key alone;
  - `getTerm` is a linear scan for an exact match;
  - `updateTerm` removes the entry and adds a new one;
  - files hold lines `<term>explanation</term>`.
- **Comma revision** (`src/com/moti/Dictionary.java`, module `CommaDictionary`):
  - storage is a `TreeMap<String,String>` with `containsKey` guards on every change;
  - files hold lines `term,explanation`;
  - `getTerm` checks the exact key, then returns the first entry in ascending order whose key equals the query ignoring case.
- **Record** (`src/Term.java`, module `Terms`): the key/explanation record. It is ordered by key only.

Shared modules:

- `Outcomes` holds the error kinds. Each exception the code throws becomes a variant:
  - `TermExistsException` becomes `TermExists(term)`;
  - `TermNotExistsException` becomes `TermNotExists(term)`;
  - `IllegalArgumentException` becomes `IllegalArgument(message)`;
  - the index exceptions of `substring` and of an array access become `IndexOutOfBounds`.
  A void method returns an `Outcome` (`Pass` or `Fail(error)`). A method with a value returns a `Result`.
- `JavaString` models the parts of `java.lang.String` that the code uses:
  - `compareTo`, as lexicographic order with a proper prefix first;
  - `equals`, as a character-by-character comparison;
  - `indexOf`, `lastIndexOf`, `contains`, and `substring` as a copy of the characters between its bounds;
  - `equalsIgnoreCase`;
  - `Scanner.hasNext()`, which skips lines made only of `Character.isWhitespace` characters.
- `OrderedTerms` models the shared storage. The tree becomes a strictly ascending `seq<Term>` (`Sorted`). Its abstract map is `ToMap`. `TreeSet.add`/`TreeMap.put` become `Put`, and `remove` becomes `Delete`.

Each `Dictionary` class:

- keeps the tree in its field `dictionary`;
- exposes the abstract map as `Contents()` and the sortedness invariant as `Valid()`.

Its methods change the field in place and state the new state against the old one. A file is the sequence of lines that `Scanner.nextLine()` returns, and `exportToFile` returns the lines it would write. `JavaString.ReadLines` and `JavaString.WriteLines` connect those sequences to the text of the file: reading ends a line at `\n`, `\r`, `\r\n`, U+0085, U+2028 or U+2029, and writing puts `\n` after each line. The iterator is the current sequence of entries.

### Where the code and its documentation differ

The model follows the code in every case below.

- **Multi-line tag entries.** The comment on `createDictionaryFromFile` in the tag revision shows an entry spread over several lines (`<term2>`, explanation lines, `</term2>`). The parser cannot read such an entry:
  - `ClosingTagLineRejected`: the first line that holds `<`, `</` and `>` is the closing tag, and its "opening" name is `/term2`, so the load fails;
  - `OpeningTagLineRejected` and `MultiLineEntryRejected` show that the whole layout is rejected.
- **Tag round trip.** An exported line parses back to its entry when the key holds no `<` or `>`, the key does not start with `/`, and the explanation holds no `<` (`TagSplits`). These conditions are enough, not required: `Term("a<b", "e")` also comes back. A key that starts with `/` makes the exported line unreadable (`SlashKeyNotReadBack`). The written file reads back when, in addition, neither the key nor the explanation holds a line terminator (`TagSafe`, `ExportImportTagFile`).
- **Comma round trip.** An exported line parses back to its entry exactly when the entry is `CommaSplits`. Two cases fail that test:
  - a key holding a comma is read back cut at its first comma, and the rest goes into the explanation (`CommaKeyReadBackCut`), unless the whole line is commas, in which case the load throws (`AllCommaLineNotReadBack`; `Term(",", "")` gives the line `,,`);
  - an empty key with an explanation made only of commas gives a line made only of commas. `split(",")` gives no fields for that line, so reading field 0 throws (`EmptyKeyNotReadBack`).
  The written file reads back when, in addition, neither the key nor the explanation holds a line terminator (`CommaSafe`, `ExportImportCommaFile`).
- **Line terminators in entries.** Both formats write an entry on one line. A key or explanation holding a line terminator is written across several lines, and the scanner reads those back as separate lines (`LineFeedSplitsLine`). Neither revision checks for this.
- **Case in `getTerm` (comma revision).** `getTerm` checks the exact key, then returns the first entry, in ascending key order, whose key equals the query ignoring case. With both `APPLE` and `apple` stored, asking for `apple` returns the `APPLE` entry (`GetTermFindsOtherCase`). Every other operation compares keys exactly.

## Model

| member | source | states |
|---|---|---|
| Terms.Term.WithTerm | src/Term.java:31-33 | `setTerm` changes the key and keeps the explanation |
| Terms.Term.WithExplanation | src/Term.java:47-49 | `setExplanation` changes the explanation and keeps the key |
| Terms.Term.CompareTo | src/Term.java:58-61 | sign contract of `compareTo`: zero exactly for equal keys, negative exactly when this key sorts first, positive exactly when it sorts after |
| Terms.CompareToIgnoresExplanation | src/Term.java:59-61 | changing either explanation does not change the comparison |
| Terms.CompareToAntisymmetric | src/Term.java:51-61 | swapping the operands negates the result |
| Terms.CompareToTransitive | src/Term.java:59-61 | the order on terms is transitive, as `TreeSet` needs |
| Terms.Term.ToString | src/Term.java:68-70 | the text is the key, then `": "`, then the explanation, in that layout and length |
| Terms.FirstColonEndsKey | src/Term.java:68-70 | for a key without a colon, the first colon of `toString` sits right after the key |
| Terms.ToStringInjective | src/Term.java:68-70 | for keys without colons, two records with the same text are equal |
| JavaString.CompareTo | src/Term.java:60 | `String.compareTo`: zero iff the strings are equal, and its sign agrees with the lexicographic order `Less` |
| JavaString.CompareToAntisymmetric | src/Term.java:60 | `a.compareTo(b) == -b.compareTo(a)` |
| JavaString.LessIrreflexive | src/Term.java:59-61 | no key sorts before itself |
| JavaString.LessAsymmetric | src/Term.java:59-61 | two keys never sort before each other |
| JavaString.LessTransitive | src/Term.java:59-61 | the key order is transitive |
| JavaString.LessTotal | src/Term.java:59-61 | any two different keys are ordered one way or the other |
| JavaString.IndexOfSpec | src/Dictionary.java:70 | `indexOf(c)` is -1 exactly when `c` is absent, and otherwise the first position of `c` |
| JavaString.IndexOfAt | src/com/moti/Dictionary.java:35 | an occurrence with none before it is what `indexOf` reports |
| JavaString.LastIndexOfSpec | src/Dictionary.java:71 | `lastIndexOf(c)` is -1 exactly when `c` is absent, and otherwise the last position of `c` |
| JavaString.LastIndexOfAt | src/Dictionary.java:71 | an occurrence with none after it is what `lastIndexOf` reports |
| JavaString.IndexOfStringSpec | src/Dictionary.java:71 | `indexOf(p)` is -1 exactly when `p` occurs nowhere, and otherwise no earlier position matches |
| JavaString.IndexOfStringAt | src/Dictionary.java:77 | a match with none before it is what `indexOf(p)` reports |
| JavaString.ContainsAt | src/Dictionary.java:60 | any occurrence makes `contains` true |
| JavaString.EqualsSpec | src/Dictionary.java:73 | `equals` is true exactly when the two strings are equal |
| JavaString.Substring | src/Dictionary.java:70-77 | `substring` succeeds exactly when `0 <= begin <= end <= length`, and then returns `end - begin` characters; otherwise it throws an index error |
| JavaString.SubstringSpec | src/Dictionary.java:70-77 | the characters `substring` copies are exactly those of the string between the bounds |
| JavaString.HasNextSpec | src/Dictionary.java:38 | `hasNext` holds exactly when some line from the scanner's position on is not blank |
| JavaString.HasNextBefore | src/Dictionary.java:38 | when a non-blank line remains from some position, one remains from every earlier position |
| JavaString.LineEnd | src/com/moti/Dictionary.java:32 | `nextLine()` ends the line at the first line terminator from the current position, or at the end of the text |
| JavaString.LineEndAt | src/com/moti/Dictionary.java:32 | a terminator with none before it is where the line ends |
| JavaString.ReadLines | src/com/moti/Dictionary.java:31-32 | no line the scanner returns holds a line terminator |
| JavaString.ReadLinesStep | src/Dictionary.java:199 | a line without terminators written with its `\n` is read back as that line, and reading goes on after the `\n` |
| JavaString.ReadWriteLines | src/Dictionary.java:199 | lines without terminators, each written followed by `\n`, are read back as the same lines |
| JavaString.LineFeedSplitsLine | src/Dictionary.java:199 | a line holding `\n` is read back as two lines |
| OrderedTerms.ToMapHasKey | src/Dictionary.java:102 | a key is in the abstract map exactly when some stored entry has that key (`contains`, `containsKey`) |
| OrderedTerms.ToMapAt | src/Dictionary.java:168-170 | every stored entry is what the map gives for its key |
| OrderedTerms.SortedSize | src/com/moti/Dictionary.java:11 | keys are unique: the map has as many keys as the tree has entries |
| OrderedTerms.SortedDeterminedByContents | src/com/moti/Dictionary.java:141-144 | iteration order depends only on the contents: two ascending sequences with the same map are equal |
| OrderedTerms.Put | src/Dictionary.java:107 | the added entry is in the result, and the size grows by at most one |
| OrderedTerms.Delete | src/Dictionary.java:158 | the size drops by at most one, and removing an absent key changes nothing |
| OrderedTerms.PutHasKey | src/com/moti/Dictionary.java:64 | after `put`, a key is present exactly when it was present before or is the key put |
| OrderedTerms.PutNextOfSorted | src/Dictionary.java:107 | in an ascending sequence, entry `i` has a key not among the entries before it, and adding it to them appends it |
| OrderedTerms.PutSorted | src/Dictionary.java:107 | `add`/`put` keeps the keys strictly ascending |
| OrderedTerms.PutContents | src/com/moti/Dictionary.java:64 | `put` maps the key to the new explanation and leaves every other key alone |
| OrderedTerms.PutAtEnd | src/Dictionary.java:107 | a key larger than every stored key is placed last |
| OrderedTerms.DeleteSorted | src/Dictionary.java:158 | `remove` keeps the keys strictly ascending |
| OrderedTerms.DeleteContents | src/com/moti/Dictionary.java:93 | `remove` deletes exactly that key from the map |
| OrderedTerms.ReplaceContents | src/Dictionary.java:131-135 | replacing one explanation in place changes the map at that key only |
| OrderedTerms.RemoveThenPut | src/Dictionary.java:131-135 | remove, then add with the new explanation, keeps order and replaces only that key's value |
| OrderedTerms.UpdateInPlace | src/Dictionary.java:131-135 | remove-then-add leaves every entry in place and changes only that entry's explanation |
| TagDictionary.TagLine | src/Dictionary.java:199 | the line has length 2·(key length) + (explanation length) + 5, starts with `<`, closes the opening tag right after the key and ends with `>` |
| TagDictionary.ExportTag | src/Dictionary.java:197-201 | one line per entry, and line `i` is the line of entry `i` |
| TagDictionary.ParseTagLine | src/Dictionary.java:70-79 | the parser fails only with an index error or "Invalid file format", and a parsed key never holds `>` (which failure comes when: `NamesDifferFails`, `NameBoundsFail`; when it succeeds: `ParseTagLineIff`) |
| TagDictionary.ImportTagFrom | src/Dictionary.java:38-44 | the load from a given line fails only with "Invalid file format" or an index error |
| TagDictionary.ImportTag | src/Dictionary.java:31-47 | the load of a whole file fails only with "Invalid file format" or an index error |
| TagDictionary.NoOpenNotQualifies | src/Dictionary.java:60 | a line without `<` is skipped by the scan |
| TagDictionary.FindTagLine | src/Dictionary.java:58-64 | the scan stops at a qualifying line at or after the start |
| TagDictionary.FindTagLineFirst | src/Dictionary.java:58-68 | the scan stops at the first line holding `<`, `</` and `>`, and finds nothing only when no remaining line qualifies |
| TagDictionary.ParseTagLineSuccess | src/Dictionary.java:70-79 | a line accepted by the parser passed the bounds checks of the three `substring` calls and the name check, and its entry is the opening name and the explanation |
| TagDictionary.ParseTagLineIff | src/Dictionary.java:70-79 | a line parses exactly when the three `substring` bounds hold and the opening name equals the closing name |
| TagDictionary.NamesDifferFails | src/Dictionary.java:70-75 | when the two names are cut out in bounds but differ, the parse fails with "Invalid file format", not an index error |
| TagDictionary.NameBoundsFail | src/Dictionary.java:70-71 | when the bounds of the term or of the closing name are out of range, the parse fails with the index error of `substring` |
| TagDictionary.CheckedLineShape | src/Dictionary.java:70-79 | when those checks pass, the first `<`, the first `>`, the first `</` and the last `>` cut out an exported line of the entry, with no `<` before it and no `>` after it |
| TagDictionary.ParsedLineShape | src/Dictionary.java:70-79 | a line that parses holds an exported entry from its first `<` to its last `>`, with the parsed term and explanation |
| TagDictionary.TagLineIndices | src/Dictionary.java:70-77 | on an exported line the four searches land on the delimiters the export wrote |
| TagDictionary.TagLineQualifies | src/Dictionary.java:60 | an exported line is one the scan accepts |
| TagDictionary.ParseAtIndices | src/Dictionary.java:70-79 | once the searches land on those delimiters, the line parses to that term |
| TagDictionary.ParseTagLineRoundTrip | src/Dictionary.java:70-79 | a line written for an entry that is `TagSplits` is accepted by the scan and parses back to the same entry |
| TagDictionary.TagLineNotBlank | src/Dictionary.java:199 | an exported line is never blank, so `hasNext` sees it |
| TagDictionary.ImportTagFromSorted | src/Dictionary.java:38-44 | a load that succeeds yields entries in ascending key order |
| TagDictionary.ImportLineStep | src/Dictionary.java:38-44 | a non-blank line that qualifies and parses to an entry with a new key is read next, and the load goes on after it with that entry added |
| TagDictionary.QualifiesNotBlank | src/Dictionary.java:38-60 | a line the scan accepts is not blank, so `hasNext` sees it |
| TagDictionary.ImportTagStep | src/Dictionary.java:38-43 | when the scan stops at line `k`, which parses to `t`, a key already read fails with "Invalid file format"; a new key is added and the load goes on after line `k` |
| TagDictionary.ScanStopsBy | src/Dictionary.java:58-64 | with a qualifying line `j` ahead, `hasNext` holds and the scan stops at the first qualifying line, at or before `j` |
| TagDictionary.ImportTagFromRepeatHeld | src/Dictionary.java:38-43 | when the key of qualifying line `j` is already read and the qualifying lines up to `j` parse, the load fails with "Invalid file format" |
| TagDictionary.ImportTagFromRepeat | src/Dictionary.java:38-43 | from any line on, two qualifying lines `i < j` with the same key fail the load with "Invalid file format" when the qualifying lines up to `j` parse |
| TagDictionary.ImportTagRejectsRepeat | src/Dictionary.java:39-43 | a file with two qualifying lines of the same key fails with "Invalid file format" (the `TermExistsException` becomes an `IllegalArgumentException`), when the qualifying lines up to the second one parse |
| TagDictionary.ImportTagFromKeeps | src/Dictionary.java:38-44 | a load that succeeds keeps every entry read before it |
| TagDictionary.ImportTagFromLoadsLine | src/Dictionary.java:38-44 | in a load that succeeds, every qualifying line parses and its entry is in the result |
| TagDictionary.ImportTagFromOrigin | src/Dictionary.java:38-44 | every key of a load that succeeds was read before or comes from a qualifying line |
| TagDictionary.ImportTagLoaded | src/Dictionary.java:31-47 | a file that loads gives exactly the entries of its qualifying lines |
| TagDictionary.ImportTagKeysDistinct | src/Dictionary.java:39-43 | in a file that loads, no two qualifying lines have the same key |
| TagDictionary.ExportedLineReads | src/Dictionary.java:197-201 | line `from` of an export is read as entry `from` when its key is new |
| TagDictionary.ExportedLineStep | src/Dictionary.java:38-44 | reading line `from` of an export extends the entries read so far by entry `from` |
| TagDictionary.ImportExportedFrom | src/Dictionary.java:197-201 | reading exported lines from entry `from` on, after the earlier entries, gives back all the entries |
| TagDictionary.ExportImportTag | src/Dictionary.java:197-201 | export then import of the lines gives back the same entries when every entry is `TagSplits` |
| TagDictionary.TagLineOneLine | src/Dictionary.java:199 | an entry without line terminators is written as one line |
| TagDictionary.ExportImportTagFile | src/Dictionary.java:197-201 | the text the export writes, read back line by line and loaded, gives the same entries when every entry is `TagSafe` |
| TagDictionary.SlashKeyNotReadBack | src/Dictionary.java:70-74 | a key starting with `/` gives an exported line that fails the name check, so the import fails |
| TagDictionary.OpeningTagLineRejected | src/Dictionary.java:70-74 | an opening line `<key>` fails to parse whenever it qualifies |
| TagDictionary.ClosingTagLineRejected | src/Dictionary.java:70-74 | a closing line `</key>` qualifies and fails the name check |
| TagDictionary.MultiLineEntryRejected | src/Dictionary.java:20-31 | the documented multi-line entry layout makes the load fail with "Invalid file format" |
| TagDictionary.Dictionary.constructor | src/Dictionary.java:14-16 | a new dictionary is empty and sorted |
| TagDictionary.Dictionary.CreateDictionaryFromFile | src/Dictionary.java:31-47 | a null scanner throws "null argument"; otherwise the load succeeds exactly when the file imports, giving a fresh sorted dictionary with those entries, and otherwise fails with the import's error (a repeated key fails by `ImportTagRejectsRepeat`; a load that succeeds holds exactly the qualifying lines' entries by `ImportTagLoaded`) |
| TagDictionary.Dictionary.GetTermFromFile | src/Dictionary.java:55-80 | with no qualifying line left it fails with "Invalid file format"; otherwise it parses the first qualifying line and resumes after it |
| TagDictionary.Dictionary.AddTerm | src/Dictionary.java:88-90 | a present key fails with `TermExists` and changes nothing; otherwise the map gains exactly that pair |
| TagDictionary.Dictionary.AddEntry | src/Dictionary.java:97-108 | a null term is rejected with "null argument" and changes nothing; a present key fails with `TermExists` and changes nothing; otherwise exactly that entry is inserted in order and the size grows by one |
| TagDictionary.Dictionary.UpdateTerm | src/Dictionary.java:116-118 | an absent key fails with `TermNotExists` and changes nothing; otherwise only that key's explanation changes, and the keys, their order and the size stay the same |
| TagDictionary.Dictionary.UpdateEntry | src/Dictionary.java:126-136 | an absent key fails with `TermNotExists` and changes nothing; otherwise, after remove and add, only that key's explanation changes and every entry keeps its place |
| TagDictionary.Dictionary.RemoveTerm | src/Dictionary.java:143-145 | an absent key fails with `TermNotExists` and changes nothing; otherwise exactly that key leaves the map |
| TagDictionary.Dictionary.RemoveEntry | src/Dictionary.java:152-159 | an absent key fails with `TermNotExists` and changes nothing; otherwise exactly that entry is removed and the size drops by one |
| TagDictionary.Dictionary.GetTerm | src/Dictionary.java:167-175 | returns the entry whose key equals the query, with the stored explanation, and fails with `TermNotExists` exactly when the key is absent |
| TagDictionary.Dictionary.IsTermExists | src/Dictionary.java:182-190 | true exactly when the key is in the map, which is when `getTerm` succeeds |
| TagDictionary.Dictionary.ExportToFile | src/Dictionary.java:197-201 | one `<term>explanation</term>` line per entry, in ascending key order (the partner of the import by `ExportImportTag`) |
| TagDictionary.Dictionary.Iterator | src/Dictionary.java:207-210 | the entries come in ascending key order, each key once, and make up exactly the contents |
| CommaDictionary.CommaLine | src/com/moti/Dictionary.java:133 | the line is as long as the key and the value plus one, with the comma right after the key |
| CommaDictionary.ExportComma | src/com/moti/Dictionary.java:131-135 | one line per entry, and line `i` is the line of entry `i` |
| CommaDictionary.SplitHead | src/com/moti/Dictionary.java:33 | `split(",")[0]` throws exactly on a non-empty line made only of commas; otherwise it is the comma-free text before the first comma |
| CommaDictionary.ParseCommaLine | src/com/moti/Dictionary.java:31-41 | a parsed entry, written back with a comma, is the line, and its key holds no comma; a line without a comma is an invalid file; an all-comma line throws an index error; any other line with a comma parses |
| CommaDictionary.ImportCommaFrom | src/com/moti/Dictionary.java:31-47 | the load from a given line fails only with "Invalid file format" or an index error |
| CommaDictionary.ImportComma | src/com/moti/Dictionary.java:28-50 | the load of a whole file fails only with "Invalid file format" or an index error |
| CommaDictionary.CommaLineInjective | src/com/moti/Dictionary.java:133 | for keys without commas, different entries are exported as different lines |
| CommaDictionary.ParseCommaLineRoundTrip | src/com/moti/Dictionary.java:31-41 | an exported line parses back to its entry exactly when the entry is `CommaSplits` |
| CommaDictionary.CommaLineNotBlank | src/com/moti/Dictionary.java:133 | an exported line is never blank, so `hasNext` sees it |
| CommaDictionary.ImportCommaFromSorted | src/com/moti/Dictionary.java:31-47 | a load that succeeds yields entries in ascending key order |
| CommaDictionary.ImportCommaStep | src/com/moti/Dictionary.java:31-47 | a non-blank line that parses to an entry with a new key is read next, and the load goes on after it with that entry added |
| CommaDictionary.ParsedCommaLineNotBlank | src/com/moti/Dictionary.java:31-36 | a line that parses holds a comma, so it is not blank |
| CommaDictionary.ImportCommaReadsLine | src/com/moti/Dictionary.java:31-46 | reading a line that parses: a key already read fails with "Invalid file format"; otherwise the load goes on with the key added |
| CommaDictionary.ImportCommaFromRepeat | src/com/moti/Dictionary.java:42-46 | when the key of line `j` is already read, or line `i < j` has the same key, and the lines up to `j` parse, the load fails with "Invalid file format" |
| CommaDictionary.ImportCommaRejectsRepeat | src/com/moti/Dictionary.java:42-46 | a file with two lines of the same key fails with "Invalid file format" (the `TermExistsException` becomes an `IllegalArgumentException`), when the lines up to the second one parse |
| CommaDictionary.ImportCommaFromKeeps | src/com/moti/Dictionary.java:31-47 | a load that succeeds keeps every entry read before it |
| CommaDictionary.ImportCommaFromLoadsLine | src/com/moti/Dictionary.java:31-47 | in a load that succeeds, every line the scanner reads parses and its entry is in the result |
| CommaDictionary.ImportCommaFromOrigin | src/com/moti/Dictionary.java:31-47 | every key of a load that succeeds was read before or comes from a line the scanner reads |
| CommaDictionary.ImportCommaLoaded | src/com/moti/Dictionary.java:28-50 | a file that loads gives exactly the entries of the lines the scanner reads |
| CommaDictionary.ImportCommaKeysDistinct | src/com/moti/Dictionary.java:42-46 | in a file that loads, no two lines the scanner reads have the same key |
| CommaDictionary.ExportedCommaLineReads | src/com/moti/Dictionary.java:131-135 | line `from` of an export is read as entry `from` when its key is new |
| CommaDictionary.ExportedCommaLineStep | src/com/moti/Dictionary.java:31-47 | reading line `from` of an export extends the entries read so far by entry `from` |
| CommaDictionary.ImportExportedCommaFrom | src/com/moti/Dictionary.java:131-135 | reading exported lines from entry `from` on, after the earlier entries, gives back all the entries |
| CommaDictionary.ExportImportComma | src/com/moti/Dictionary.java:131-135 | export then import of the lines gives back the same entries when every entry is `CommaSplits` |
| CommaDictionary.CommaLineOneLine | src/com/moti/Dictionary.java:133 | an entry without line terminators is written as one line |
| CommaDictionary.ExportImportCommaFile | src/com/moti/Dictionary.java:131-135 | the text the export writes, read back line by line and loaded, gives the same entries when every entry is `CommaSafe` |
| CommaDictionary.EmptyKeyNotReadBack | src/com/moti/Dictionary.java:33 | an empty key with an all-comma explanation is exported as a line whose import throws an index error |
| CommaDictionary.AllCommaLineNotReadBack | src/com/moti/Dictionary.java:33 | any entry exported as a line made only of commas, such as `Term(",", "")`, makes the import throw an index error |
| CommaDictionary.CommaKeyReadBackCut | src/com/moti/Dictionary.java:33-41 | a key with a comma, whose exported line is not made only of commas, is read back cut at its first comma, and the rest of the key moves into the explanation |
| CommaDictionary.FirstIgnoringCase | src/com/moti/Dictionary.java:108-112 | the scan returns an entry whose key equals the query ignoring case |
| CommaDictionary.FirstIgnoringCaseFirst | src/com/moti/Dictionary.java:108-112 | no entry before the one returned matches ignoring case, and the scan fails only when no entry matches |
| CommaDictionary.FirstIgnoringCaseNoLater | src/com/moti/Dictionary.java:102-112 | when the exact key is stored, the scan succeeds at or before that entry |
| CommaDictionary.FirstIgnoringCaseExact | src/com/moti/Dictionary.java:102-112 | with no differently-cased twin of the key stored, the scan returns the exact entry |
| CommaDictionary.GetTermFindsOtherCase | src/com/moti/Dictionary.java:108-110 | with `APPLE` and `apple` stored (in that order), looking up `apple` returns the `APPLE` entry |
| CommaDictionary.Dictionary.constructor | src/com/moti/Dictionary.java:16-18 | a new dictionary is empty and sorted |
| CommaDictionary.Dictionary.CreateDictionaryFromFile | src/com/moti/Dictionary.java:28-50 | the load succeeds exactly when the file imports, giving a fresh sorted dictionary with those entries, and otherwise fails with the import's error (no comma or a repeated key: "Invalid file format"; an all-comma line: index error; a repeated key fails by `ImportCommaRejectsRepeat`; a load that succeeds holds exactly the read lines' entries by `ImportCommaLoaded`) |
| CommaDictionary.Dictionary.AddTerm | src/com/moti/Dictionary.java:58-65 | a present key fails with `TermExists` and changes nothing; otherwise the map gains exactly that pair and the size grows by one |
| CommaDictionary.Dictionary.UpdateTerm | src/com/moti/Dictionary.java:73-80 | an absent key fails with `TermNotExists` and changes nothing; otherwise only that key's value changes and the key set stays the same |
| CommaDictionary.Dictionary.RemoveTerm | src/com/moti/Dictionary.java:87-94 | an absent key fails with `TermNotExists` and changes nothing; otherwise exactly that key is removed and the size drops by one |
| CommaDictionary.Dictionary.GetTerm | src/com/moti/Dictionary.java:102-115 | an absent exact key fails with `TermNotExists`; otherwise it returns the first entry in ascending order whose key equals the query ignoring case |
| CommaDictionary.Dictionary.IsTermExists | src/com/moti/Dictionary.java:122-124 | true exactly when the key is in the map |
| CommaDictionary.Dictionary.ExportToFile | src/com/moti/Dictionary.java:131-135 | one `key,value` line per entry, in ascending key order (the partner of the import by `ExportImportComma`) |
| CommaDictionary.Dictionary.Iterator | src/com/moti/Dictionary.java:141-144 | the entries come in ascending key order, each key once, and make up exactly the contents |

## Left out

- The Swing windows (`src/DictionaryWindow.java`, `src/com/moti/DictionaryWindow.java`) and the `Main` programs are presentation code, not part of this model.
- `Scanner`, `FileWriter` and `IOException`: the loaders take the lines `nextLine()` returns, and the export returns the lines it writes. `ReadLines` and `WriteLines` model the text of the file. I/O errors, buffering and character encodings are not modelled.
- `Scanner.hasNext()` is modelled as skipping the lines made only of `Character.isWhitespace` characters and finding a line left. Token-level scanning is not modelled beyond that. In particular U+0085 ends a line for `nextLine()` but is not whitespace to `Character.isWhitespace`. For the text `a,b\n` followed by U+0085, Java's `hasNext()` sees a token, `nextLine()` returns an empty line and the load fails with "Invalid file format". The model's lines are `a,b` and an empty line, which `HasNext` treats as blank, so its load succeeds.
- The null scanner is not modelled in the comma revision. Its `createDictionaryFromFile` has no null check and would throw a `NullPointerException`.
- Null strings are not modelled. Strings are values here. The unmodelled calls are:
  - `addTerm(null, …)`, and a null `Term` passed to `updateTerm(Term, …)` or `removeTerm(Term)`, which throw `NullPointerException`;
  - `getTerm(null)` in the comma revision, which throws `NullPointerException`;
  - `getTerm(null)` in the tag revision. On a non-empty dictionary it throws `NullPointerException` at `term.equals`. On an empty dictionary the loop body never runs, so it throws `TermNotExistsException(null)` (src/Dictionary.java:168-174).
  The null `Term` of `addTerm(Term)` is modelled (`AddEntry` with `None`).
- JavaString.EqualsIgnoreCase: case folding covers ASCII letters only, not the full Unicode rules of `equalsIgnoreCase`.
- JavaString.Less: characters are Unicode scalar values. Java compares UTF-16 code units, so the two orders differ for characters outside the Basic Multilingual Plane.
- Terms.Term.WithTerm: `Term` is an immutable value, and the setters return an updated copy. Mutating a `Term` while the `TreeSet` holds it, which would silently break the tree's order, is not modelled.
- TagDictionary.Dictionary.Iterator: returns a snapshot of the entries in order. The live iterator's `remove` and its fail-fast behaviour under concurrent modification are not modelled.
- CommaDictionary.Dictionary.Iterator: returns a snapshot of the entries in order. The iterator of `entrySet()` is live: its `remove` deletes from the map, and `setValue` on an entry writes through to the map. Neither is modelled, nor is fail-fast behaviour.
- TagDictionary.Dictionary.GetTermFromFile: on failure the scanner position is not stated, because the exception ends the load.
- The exception classes only format messages. The model keeps the error kind and the term it carries, not the message text.
