# University name reconciler — a Dafny model

This project models the core of the SheerID university-name reconciler. The
program fetches a master list of university records (JSON objects with a
`name` key) and a CSV feed of candidate names. It reports every candidate whose
normalised form is not in the master list. The model covers four parts:

- **The name normaliser** (`normalizeUniversityName`). It deletes every
  character outside `[a-zA-Z0-9 +]`, shrinks each run of spaces to one space,
  lower-cases the string and trims it. Module `NameNormalizer` models it. The
  parts of `java.lang.String` it relies on are in module `JavaString`:
  `toLowerCase`, `trim`, `compareTo` and `compareToIgnoreCase`.
- **The master list** (`MasterData`). This is a class with a nullable array
  field `universities`.
  - `BuildList` fills the array with one normalised name per record
    (`PutIntoList`) and sorts it in place by `compareToIgnoreCase`
    (`SortList`, an insertion sort).
  - `SearchData` is the binary search of `Collections.binarySearch`, which
    uses natural order.
  - `CompareName` normalises a name, then searches for it.
  - The class invariant `Valid` says the list holds only canonical names and
    is sorted.
  - `CanonicalSortedIsNaturallySorted` is the lemma that makes the search
    sound: on canonical names, the ignore-case order used by the sort and the
    natural order used by the search agree.
- **The candidate reader** (`UniversityNames`). This is a class holding the
  feed's rows and a cursor, which stands for the `Scanner`.
  - Opening the feed consumes the header row.
  - Each `GetNextName` consumes one row and yields the text before the row's
    first comma. It yields `Exhausted` (Java's `null`) once the rows are used
    up, and again on every later call.
  - A row made only of commas yields `CommaOnlyRow`. Java's
    `split(",")[0]` throws on such a row.
- **The reconciliation loop of `main`** (`Reconcile`, `CompareWithMaster`).
  - The report is proved to equal `Missing(master, names)`: the candidate
    names, as read and in feed order, whose normalised form is not a master
    name.
  - `MissingMembers` characterises that filter name by name.
  - `MissingAppend` shows it keeps the candidates' order.

`Scenarios` works small runs through the model. With master
"Ohio State University" and the feed Name / Ohio State University / MIT, only
"MIT" is reported. "A&B College" normalises to "ab college" but
"A & B College" to "a b college", so those two spellings never match.

`searchData` treats the empty key like any other key
(`src/MasterData.java:165-174`). A record made only of spaces and punctuation
normalises to the empty string, so a blank candidate then matches it and is not
reported. `Master.BlankRecordListsEmptyKey` and
`CompareUniversityNames.BlankCandidateMatchesBlankRecord` state this.

## Model

| member | source | states |
|---|---|---|
| JavaString.ToLowerCase | src/MasterData.java:183 | same length; no upper-case letter is left; a character changes exactly when it is an ASCII upper-case letter, and then it becomes the same letter in lower case ('A' to 'a') |
| JavaString.LowerCaseIdempotent | src/MasterData.java:183 | lower-casing twice is lower-casing once |
| JavaString.LowerCaseAppend | src/MasterData.java:183 | lower-casing distributes over concatenation |
| JavaString.LowerCaseWithoutUpper | src/MasterData.java:183 | lower-casing a string without upper-case letters leaves it unchanged |
| JavaString.TrimLeading | src/MasterData.java:183 | the result is a suffix of the input; every character dropped is at most ' '; the first character kept is above ' ' |
| JavaString.TrimTrailing | src/MasterData.java:183 | the result is a prefix of the input; every character dropped is at most ' '; the last character kept is above ' ' |
| JavaString.Trim | src/MasterData.java:183 | no longer than the input; neither end is a character at most ' ' |
| JavaString.TrimmedIsFixed | src/MasterData.java:183 | a string whose ends are above ' ' is its own trim |
| JavaString.CompareTo | src/MasterData.java:170 | a prefix compares as the difference of the lengths; zero only for strings of equal length. Sign laws: CompareToZeroIff, CompareToAntisymmetric, CompareToTransitive |
| JavaString.CompareToIgnoreCase | src/MasterData.java:48 | a prefix compares as the difference of the lengths; zero only for strings of equal length. Its tie to compareTo and its sign laws are the IgnoreCase lemmas below |
| JavaString.CompareToZeroIff | src/MasterData.java:170 | compareTo is zero exactly when the two strings are equal |
| JavaString.CompareToAntisymmetric | src/MasterData.java:170 | compareTo(t, s) is the negation of compareTo(s, t) |
| JavaString.CompareToTransitive | src/MasterData.java:170 | compareTo is transitive, strictly when either step is strict |
| JavaString.IgnoreCaseIsCompareOfLowered | src/MasterData.java:48 | compareToIgnoreCase(s, t) equals compareTo on the two lower-cased strings |
| JavaString.IgnoreCaseIsNaturalWithoutUpper | src/MasterData.java:48 | on strings without upper-case letters compareToIgnoreCase equals compareTo |
| JavaString.IgnoreCaseAntisymmetric | src/MasterData.java:48 | compareToIgnoreCase(t, s) is the negation of compareToIgnoreCase(s, t) |
| JavaString.IgnoreCaseTransitive | src/MasterData.java:48 | compareToIgnoreCase is transitive |
| NameNormalizer.RemoveDisallowed | src/MasterData.java:183 | stage 1 leaves only characters of [a-zA-Z0-9 +] and never lengthens the name |
| NameNormalizer.RemoveDisallowedMembers | src/MasterData.java:183 | stage 1 keeps exactly the allowed characters of its input |
| NameNormalizer.RemoveDisallowedKeepsAllowed | src/MasterData.java:183 | stage 1 leaves a string of allowed characters unchanged |
| NameNormalizer.RemoveDisallowedAppend | src/MasterData.java:183 | stage 1 distributes over concatenation |
| NameNormalizer.CollapseSpaces | src/MasterData.java:183 | stage 2 leaves no two adjacent spaces, never lengthens the name and keeps its first character |
| NameNormalizer.CollapseSpacesMembers | src/MasterData.java:183 | stage 2 keeps the set of characters |
| NameNormalizer.CollapseKeepsSingleSpaces | src/MasterData.java:183 | stage 2 leaves a string without double spaces unchanged |
| NameNormalizer.CollapseAppend | src/MasterData.java:183 | stage 2 splits at a character that is not a space |
| NameNormalizer.Normalize | src/MasterData.java:181-185 | the four-stage pipeline; its properties are the lemmas that follow it: NormalizeIsCanonical, CanonicalIsFixedPoint, NormalizeIdempotent, NormalizeIgnoresCase and the rest |
| NameNormalizer.NormalizeIsCanonical | src/MasterData.java:181-185 | every normalised name has only a-z, 0-9, '+' and single inner spaces, with no space at either end |
| NameNormalizer.TidyNormalizesToLowerCase | src/MasterData.java:183 | a name of allowed characters with single inner spaces normalises to its lower-case form |
| NameNormalizer.CanonicalNormalizesToItself | src/MasterData.java:183 | a canonical name normalises to itself |
| NameNormalizer.CanonicalIsFixedPoint | src/MasterData.java:183 | the canonical names are exactly the fixed points of normalisation |
| NameNormalizer.NormalizeIdempotent | src/MasterData.java:183 | normalising twice equals normalising once |
| NameNormalizer.RemoveDisallowedIgnoresCase | src/MasterData.java:183 | stage 1 commutes with lower-casing |
| NameNormalizer.CollapseSpacesIgnoresCase | src/MasterData.java:183 | stage 2 commutes with lower-casing |
| NameNormalizer.NormalizeIgnoresCase | src/MasterData.java:181-185 | a name and its lower-cased form normalise alike |
| NameNormalizer.SameUpToCaseSameNormal | src/MasterData.java:181-185 | two names that differ only in letter case normalise alike |
| NameNormalizer.DoubleSpaceCollapses | src/MasterData.java:183 | stage 2 treats two spaces exactly as one, whatever surrounds them |
| NameNormalizer.DoubleSpaceNormalizesAsSingle | src/MasterData.java:183 | a double space anywhere in a name normalises as a single space |
| NameNormalizer.DisallowedCharIsDeleted | src/MasterData.java:183 | a disallowed character is deleted, not replaced by a space |
| NameNormalizer.TabAndNewlineAreDeleted | src/MasterData.java:183 | tabs and line breaks are deleted like any other disallowed character |
| NameNormalizer.BlankNormalizesToEmpty | src/MasterData.java:183 | an empty name, or one made only of spaces and disallowed characters, normalises to "" |
| NameNormalizer.DeletedCharJoinsNeighbours | src/MasterData.java:183 | a disallowed character inside a tidy name joins its neighbours |
| NameNormalizer.NormalizeDoubleSpaceBetween | src/MasterData.java:183 | a double space between two tidy words normalises as a single space |
| NameNormalizer.SpacedCharKeepsNeighboursApart | src/MasterData.java:183 | a disallowed character between two spaces leaves one space behind |
| Master.NormalizeAll | src/MasterData.java:125-131 | one normalised name per record; that they are canonical is Master.NormalizeAllCanonical |
| Master.BlankRecordListsEmptyKey | src/MasterData.java:165-174 | a record made only of spaces and punctuation puts the empty key into the list |
| Master.NormalizeAllCanonical | src/MasterData.java:125-131 | every name put into the list is canonical |
| Master.CanonicalSortedIsNaturallySorted | src/MasterData.java:170 | a list of canonical names sorted by compareToIgnoreCase is sorted by compareTo, as binarySearch requires |
| Master.BinarySearch | src/MasterData.java:170-173 | on a list sorted by compareTo, the search succeeds exactly when the key is an element |
| Master.InsertionStep | src/MasterData.java:48 | swapping a name with a larger left neighbour keeps the insertion invariant and the multiset of names |
| Master.InsertionDone | src/MasterData.java:48 | once the inserted name is not smaller than its left neighbour, the prefix is sorted |
| Master.SameMultisetSameMembers | src/MasterData.java:37 | sorting changes no membership |
| Master.MasterData.constructor | src/MasterData.java:25 | a new master list has no array yet |
| Master.MasterData.BuildList | src/MasterData.java:32-40 | the list exists exactly when the payload parsed; it is then a fresh sorted list of canonical names holding one normalised name per record |
| Master.MasterData.PutIntoList | src/MasterData.java:124-132 | a fresh array holding the normalised name of each record, in record order |
| Master.MasterData.SortList | src/MasterData.java:47-50 | the array ends sorted by compareToIgnoreCase and is a permutation of what it held |
| Master.MasterData.Insert | src/MasterData.java:48 | one insertion pass extends the sorted prefix by one, keeps the multiset of names and leaves the names after position i untouched |
| Master.MasterData.SearchData | src/MasterData.java:165-174 | false for a null name; otherwise true exactly when the name is in the list |
| Master.MasterData.CompareName | src/MasterData.java:196-203 | true exactly when the normalised name is in the list |
| Candidates.BeforeComma | src/UniversityNames.java:66 | the field has no comma, is a prefix of the row and stops at the first comma; a row without a comma is returned whole |
| Candidates.FetchAt | src/UniversityNames.java:63-71 | one read gives Exhausted exactly past the last row and CommaOnlyRow exactly on a comma-only row; otherwise a name, which is a comma-free prefix of the row |
| Candidates.CandidateNames | src/UniversityNames.java:63-71 | at most one name per row after the header, the k-th being the first field of the k-th row after the header |
| Candidates.FirstCommaOnly | src/UniversityNames.java:66 | the index of the first comma-only row, or the row count when there is none |
| Candidates.StreamUnfold | src/UniversityNames.java:63-71 | reading one row yields its first field followed by the names of the remaining rows, or stops at a comma-only row or at the end |
| Candidates.ReadsToEndIff | src/UniversityNames.java:63-71 | a feed reads to its end exactly when no comma-only row follows the header |
| Candidates.HeaderOnlyFeedHasNoNames | src/UniversityNames.java:37-45 | an empty feed or a header-only feed yields no name |
| Candidates.CandidatesOfReadableFeed | src/UniversityNames.java:63-71 | a readable feed yields one name per row after the header, in row order, each the row's first field |
| Candidates.UniversityNames.constructor | src/UniversityNames.java:22-24 | the new reader holds the feed and has consumed the header |
| Candidates.UniversityNames.ReadFromCSV | src/UniversityNames.java:31-58 | the reader holds the feed and its cursor is past the header row, if there is one |
| Candidates.UniversityNames.GetNextName | src/UniversityNames.java:63-71 | reads the row at the cursor and advances by exactly one row; at the end it yields Exhausted and stays put |
| CompareUniversityNames.ReportFor | src/CompareUniversityNamesWithMaster.java:34-36 | a name is printed exactly when its normalised form is not a master name |
| CompareUniversityNames.Missing | src/CompareUniversityNamesWithMaster.java:32-38 | the report has at most one entry per candidate |
| CompareUniversityNames.MissingMembers | src/CompareUniversityNamesWithMaster.java:33-36 | a raw name is reported exactly when it is a candidate whose normalised form is not a master name |
| CompareUniversityNames.MissingAppend | src/CompareUniversityNamesWithMaster.java:32-38 | the report keeps the candidates' order |
| CompareUniversityNames.MissingDependsOnMembership | src/MasterData.java:37 | only which names the master list holds matters, not their order |
| CompareUniversityNames.BlankCandidateMatchesBlankRecord | src/MasterData.java:165-174 | a blank candidate is not reported when some master record is blank too |
| CompareUniversityNames.EmptyMasterReportsAll | src/CompareUniversityNamesWithMaster.java:34-35 | against an empty master list every candidate is reported |
| CompareUniversityNames.MissingOne | src/CompareUniversityNamesWithMaster.java:34-36 | the report on one candidate is that candidate's own verdict |
| CompareUniversityNames.MissingSnoc | src/CompareUniversityNamesWithMaster.java:32-38 | reading one more candidate appends its verdict to the report |
| CompareUniversityNames.ReportOfTwo | src/CompareUniversityNamesWithMaster.java:32-38 | the report on two candidates is their two verdicts in order |
| CompareUniversityNames.Reconcile | src/CompareUniversityNamesWithMaster.java:32-38 | the report is the Missing filter of the names still to be read; the run completes exactly when no comma-only row remains, and then the feed is used up |
| CompareUniversityNames.CompareWithMaster | src/CompareUniversityNamesWithMaster.java:21-41 | an unparsable payload stops the run before any candidate is read; otherwise the report is the Missing filter of the feed's candidates against the normalised records |
| Scenarios.FeedOneNames | src/UniversityNames.java:37-39 | the feed Name / Ohio State University / MIT yields the last two rows whole |
| Scenarios.OneMatchOneMiss | src/CompareUniversityNamesWithMaster.java:32-38 | master Ohio State University against that feed reports only MIT |
| Scenarios.AmpersandJoined | src/MasterData.java:183 | "A&B College" normalises to "ab college" |
| Scenarios.AmpersandSpaced | src/MasterData.java:183 | "A & B College" normalises to "a b college" |
| Scenarios.AmpersandDoubleSpaced | src/MasterData.java:183 | "A & B  College", with a double space, normalises to "a b college" |
| Scenarios.AmpersandSpellingsDiffer | src/MasterData.java:196-197 | "A & B College" does not match a master "A&B College" and is reported |
| Scenarios.CommaOnlyRowStopsFeed | src/UniversityNames.java:66 | a comma-only row ends the stream: the names after it are never read |

## Left out

- Network I/O is not modelled: `callAPI` (`src/MasterData.java:58-93`) and the URL and `Scanner` opening in `readFromCSV`. The master records and the feed's rows are parameters.
- JSON parsing is not modelled. A payload that parsed is a sequence of `University` records. One that did not parse is `None`, standing for the `null` that `putIntoList` returns.
- A null list after a parse failure: Java passes that `null` to `sortList` and crashes. The model leaves `universities` null and ends the run with `MasterUnavailable` before any candidate is read.
- A record without a `"name"` key is not modelled. Java would throw inside the normaliser; the model's records always carry a name.
- Printing is not modelled: the report sequence stands for the printed lines, and the banner line is left out.
- Also left out: `System.exit`, the "File is empty" message, `walkData` and `closeScanner`. They have no effect on the report.
- A comma-only row is modelled as a failure, not a value. Java's `split(",")[0]` throws an index exception there. The model yields `CommaOnlyRow` and ends the run with `MalformedRow`; the names reported before that row stand.
- The `Scanner` is modelled as a list of lines. `hasNext` is modelled as "a row remains", which assumes every row ends with a line break. A final comma-only row without a line break can make Java's `hasNext` false, so Java would stop there instead of throwing.
- Case folding is ASCII only, with no locale. The model assumes a default locale whose lower-casing of `A`-`Z` is plain ASCII. Under a Turkish or Azerbaijani locale Java lower-cases `I` to a dotless `ı`, so normalised names can hold a non-ASCII letter, and `compareToIgnoreCase` (which folds it with `i`) and `compareTo` can then order the list differently. Characters compare by code point, not by UTF-16 code unit.
- Master.MasterData.SortList: does not state stability. Java's `List.sort` is stable; the insertion sort used here is stable too, but the contract only states sorted and permutation.
- Master.BinarySearch: returns only whether the key was found, not `Collections.binarySearch`'s negative insertion point. `searchData` uses only the sign (`src/MasterData.java:173`).
