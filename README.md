# Student roster, modelled in Dafny

This project models the core of a small Java student-records program (`Code.java`). It covers:

- the in-memory roster `StudentManager`: an ordered list of students plus two indexes, `byName` (lower-cased name to the students of that name) and `byRoll` (roll number, which may be null, to one student);
- the one-line-per-record text codec, `Student.toCsv` and the line rule of `FileUtil.readStudents`;
- `FileUtil.writeStudents`;
- the position and length clamping of `FileUtil.readRandom`.

`StudentManager` is a Dafny `class`:

- Its three fields are a `seq` and two `map`s that its methods reassign in place.
- `Valid()` is the invariant its operations keep. The indexes agree with the list:
  - every `byName` bucket is non-empty and holds exactly the listed students of its key;
  - every listed student's key has a bucket;
  - every `byRoll` value is a listed student with that roll number;
  - every listed student passes `add`'s test.
- The loops of `load`, `deleteByName` (both loops) and `readStudents`/`writeStudents` are `for`/`while` loops. Each is proved against a specification function:
  - `NameIndex`/`RollIndex` for `load`;
  - `NotMatching`/`DropByName` for `deleteByName`;
  - `DecodeAll`/`EncodeAll` for `readStudents`/`writeStudents`.
- The sorts are specified by `Sorting.SortBy`, a reference stable insertion sort. `List.sort` is library code, so the model proves three facts about `SortBy`: it orders, it permutes, and it is stable. It also proves that any list with those three properties *is* `SortBy`'s result.

Files, one module each:

| file | module | contents |
|---|---|---|
| `wrappers.dfy` | `Wrappers` | `Option` |
| `seqs.dfy` | `Seqs` | generic `Map` and `FilterMap` folds and their lemmas |
| `text.dfy` | `Text` | `String.trim`, `split(",", -1)`, the comma join, `toLowerCase`, `equalsIgnoreCase`, `CASE_INSENSITIVE_ORDER` (ASCII) |
| `numbers.dfy` | `Numbers` | `int`/`long` ranges, the `(int)` cast, `Integer.parseInt`/`toString`, decimal marks |
| `records.dfy` | `Records` | the `Student` record and `toCsv` |
| `file_util.dfy` | `FileUtil` | the line codec, `readStudents`, `writeStudents`, `readRandom` |
| `sorting.dfy` | `Sorting` | the stable sort's contract |
| `roster_index.dfy` | `RosterIndex` | the index invariant and the index updates, as values |
| `roster.dfy` | `Roster` | `StudentManager` and its comparators |

Where the program's specification and the code differ, the model follows the code:

- `byRoll` is last-write-wins (`Code.java:115`), so a listed student need not be reachable by roll number. The invariant only asks that every `byRoll` value is listed.
- `add` checks the name, email, course and marks but not the roll number, which is a nullable `Integer`. So the model's roll number is optional. A student without one is indexed under the null key. `FileUtil.UnnumberedIsLost` proves it is saved as a `null,…` line that the next load drops.
- Sorting by marks ascending and then descending lists the students in exactly the reverse order when no two have equal marks (`Roster.SortByMarksReverses`); with a tie it need not. `List.sort` is stable, so two different students with equal marks can keep their ascending-sort order in the descending sort (`Roster.SortByMarksTieKeepsOrder`).
- A record whose name, email or course holds a line terminator is saved as more than one line (`FileUtil.BrokenFieldBreaksLine`), since `writeStudents` writes `toCsv` unescaped and `readLine` (`Code.java:43`) splits there. So the save/load round trip is stated for `Records.Savable` records, and reload stability for lines as `readLine` returns them.
- The name-driven `byRoll` cleanup of `deleteByName` (`Code.java:153-157`) is described as able to over-delete. Over ASCII names, with `toLowerCase` mapping only A-Z to a-z, it cannot. Under a default locale where it does more (Turkish or Azeri, where `"IVAN".toLowerCase()` is `"ıvan"`), it can: there a student "ivan" loses its `byRoll` entry when "IVAN" is deleted. `RosterIndex.DropByNameDropsDeleted` proves that, under the invariant, the entries it drops are exactly those of the deleted students. Every student whose name equals the argument ignoring case sits in the deleted bucket.

## Model

| member | source | states |
|---|---|---|
| `Roster.StudentManager.constructor` | Code.java:98-100 | a new manager has an empty list and empty indexes, and is valid |
| `Roster.StudentManager.Load` | Code.java:102-108 | after a load the list is exactly the file's decoded records, in file order (empty for a missing file), and the indexes are those built by indexing each record in list order; the manager is valid |
| `Roster.StudentManager.Save` | Code.java:110-112 | the lines written are one `toCsv` line per listed student, in list order |
| `Roster.StudentManager.Index` | Code.java:114-117 | `byRoll` maps the roll number to the student, replacing any earlier entry, and the student joins the end of its lower-cased name's bucket (created if absent); the list is untouched |
| `Roster.StudentManager.Add` | Code.java:119-127 | returns true exactly when name, email and course are non-blank after trimming and marks are present; on false nothing changes; on true the student is appended to the list and indexed; validity is kept |
| `Roster.StudentManager.SearchByName` | Code.java:137-142 | no name or an unknown key gives an empty list; otherwise the key's bucket in its own order, holding each listed student whose name equals the argument ignoring case, as often as it is listed; nothing changes |
| `Roster.StudentManager.DeleteByName` | Code.java:144-159 | returns true exactly when the lower-cased name has a bucket; then every student of that key leaves the list (the rest keep their order), the bucket is dropped and every `byRoll` entry whose student's name equals the argument ignoring case is dropped; otherwise nothing changes; validity is kept |
| `Roster.StudentManager.RemoveEach` | Code.java:148-151 | removing each bucket member once with `List.remove` leaves exactly the students of other keys, in order; the indexes are untouched |
| `Roster.StudentManager.DropRollsNamed` | Code.java:153-157 | the iterator pass over `byRoll` removes exactly the entries whose student's name equals the argument ignoring case and keeps the others' values |
| `Roster.StudentManager.SortByMarks` | Code.java:161-165 | the list becomes the stable sort of the old list by marks, ascending or (reversed comparator) descending: sorted, a permutation of the old list; the indexes are untouched and validity is kept |
| `Roster.StudentManager.SortByName` | Code.java:167-169 | the list becomes the stable sort of the old list by name ignoring case: sorted, a permutation; the indexes are untouched and validity is kept |
| `Roster.StudentManager.GetStudents` | Code.java:171-173 | returns the list's current contents in order; nothing changes |
| `Roster.Acceptable` | Code.java:120-123 | `add`'s test holds exactly when name, email and course each hold a character above U+0020 and marks are present |
| `Roster.MarksAscending` | Code.java:162 | `comparingDouble(getMarks)` orders two students with marks by the numeric value of their marks |
| `Roster.MarksDescending` | Code.java:163 | `reversed()` ranks a before b exactly when the ascending comparator ranks b before a |
| `Roster.NameOrder` | Code.java:168 | the name comparator is `CASE_INSENSITIVE_ORDER` on the names: `compare(a, b) <= 0` exactly when `Text.NoCaseLe(a.name, b.name)`, so names equal ignoring case rank equal and a stable sort keeps them in list order |
| `Roster.WellFormedIsAcceptable` | Code.java:119-123 | every record the decoder produces would pass `add`'s test |
| `Roster.ComparatorsArePreorders` | Code.java:162-168 | the marks comparator, its reversal and the case-insensitive name comparator are total preorders |
| `Roster.ReorderKeepsAcceptable` | Code.java:164 | a permutation of a list of acceptable students holds only acceptable students |
| `RosterIndex.AddToName` | Code.java:116 | `computeIfAbsent(...).add(s)`: the key set gains the student's key, whose bucket gains the student at its end; other buckets are unchanged |
| `RosterIndex.AddToRoll` | Code.java:115 | `put`: the roll number (a null one included, as `HashMap` allows) maps to the student; other entries are unchanged |
| `RosterIndex.IndexPreserves` | Code.java:114-117 | appending a student to the list and indexing it keeps the indexes consistent with the list |
| `RosterIndex.LoadIndexed` | Code.java:102-108 | the indexes a load builds are consistent with the loaded list |
| `RosterIndex.LoadBucketsInOrder` | Code.java:106-107 | after a load each bucket lists the students of its key in list order |
| `RosterIndex.UnindexedMatchesNothing` | Code.java:107 | after a load a key without a bucket belongs to no listed student |
| `RosterIndex.LoadRollKeys` | Code.java:107 | after a load a roll number is indexed exactly when some loaded student has it |
| `RosterIndex.LoadRollLastWins` | Code.java:115 | after a load a roll number maps to the last loaded student that has it |
| `RosterIndex.ReorderPreserves` | Code.java:164 | reordering the list (any permutation) keeps the unchanged indexes consistent |
| `RosterIndex.RemoveFirst` | Code.java:149 | `List.remove(Object)`: an absent element leaves the list unchanged; otherwise the first occurrence is cut out and everything before and after it stays in order; either way exactly one occurrence fewer |
| `RosterIndex.Key` | Code.java:116 | the `byName` key is as long as the name, equals it ignoring case and is already lower case, so every casing of a name has the same key |
| `RosterIndex.NameIndex` | Code.java:107-116 | the `byName` index a load builds has exactly the loaded students' keys |
| `RosterIndex.RollIndex` | Code.java:107-115 | the `byRoll` index a load builds holds every loaded student's roll number, each mapped to a loaded student with that roll (`RosterIndex.LoadRollKeys` gives the converse) |
| `RosterIndex.Lookup` | Code.java:138-141 | no name gives the empty list; otherwise every casing of the name gives the same result, the bucket of its key or the empty list when there is none |
| `RosterIndex.RemoveFirstMatching` | Code.java:149 | removing a student of key k from the list removes it from the list's students of key k |
| `RosterIndex.RemoveFirstNotMatching` | Code.java:149 | removing a student of key k leaves the students of other keys, in order |
| `RosterIndex.RemoveStep` | Code.java:148-151 | one iteration of the removal loop keeps the other keys' students and leaves one fewer of the bucket to remove |
| `RosterIndex.NoneMatching` | Code.java:148-151 | a list with no student of a key is its own filter by the other keys |
| `RosterIndex.MatchingNotMatching` | Code.java:148-152 | deleting one key's students leaves every other key's students exactly as they were |
| `RosterIndex.DropByName` | Code.java:153-157 | an entry survives exactly when its student's name does not equal the argument ignoring case, and survivors keep their values |
| `RosterIndex.DropByNameDropsDeleted` | Code.java:148-157 | under the invariant a `byRoll` entry survives the name-driven cleanup exactly when its student survives the record-driven list removal |
| `RosterIndex.DeletePreserves` | Code.java:144-159 | deleting a key's students, its bucket and its name-matching roll entries keeps the indexes consistent |
| `RosterIndex.LookupMatches` | Code.java:137-142 | under the invariant a search returns each listed student of the key as often as it is listed |
| `RosterIndex.LookupFinds` | Code.java:137-142 | under the invariant a student is in the search result exactly when it is listed and its name equals the argument ignoring case |
| `RosterIndex.AddedIsFound` | Code.java:114-141 | a freshly indexed student is found by a search for its name in any casing, with case mapped A-Z to a-z only (see Left out for other default locales) |
| `RosterIndex.DeletedNameIsGone` | Code.java:148-151 | after a delete no listed student's name equals the deleted name ignoring case, and every remaining student was listed before |
| `Sorting.SortBy` | Code.java:164 | the reference sort returns as many elements as it is given |
| `Sorting.SortBySorted` | Code.java:164 | the stable sort's result is ordered by the comparator |
| `Sorting.SortByPermutes` | Code.java:164 | the stable sort's result is a permutation of its input |
| `Sorting.SortByStable` | Code.java:164 | the stable sort keeps each class of comparator-equal elements in input order |
| `Sorting.SortedUnique` | Code.java:164 | two sorted lists with the same classes of equal elements in the same order are equal |
| `Sorting.SortByIsTheStableSort` | Code.java:164 | any sorted list keeping each class of equals in input order is the stable sort's result, so the reference sort and `List.sort` agree |
| `Sorting.Reverse` | Code.java:161-165 | the list reversal used to state the sort-twice property of `sortByMarks`: same length, the i-th element from the end at position i |
| `Sorting.EquivalentsReverse` | Code.java:163-164 | reversing a list reverses each class of comparator-equal elements |
| `Sorting.OppositeSortReverses` | Code.java:161-165 | when no two elements rank equal, sorting the ascending sort by the reversed comparator gives its exact reverse |
| `Roster.SortByMarksReverses` | Code.java:161-165 | with distinct marks, `sortByMarks(true)` then `sortByMarks(false)` gives exactly the reverse of the ascending order |
| `Roster.SortByMarksTieKeepsOrder` | Code.java:161-165 | two different students with equal marks sort to the same order ascending and descending, which is not the reverse |
| `Records.RollText` | Code.java:27 | the printed roll number parses back to it; a null roll prints as `null`, which does not parse |
| `Records.MarksText` | Code.java:27 | the printed marks parse back to them; null marks print as `null`, which does not parse |
| `Records.ToCsv` | Code.java:26-28 | the line is the roll number (or `null`), name, email, course and marks (or `null`) in that order, separated by single commas |
| `FileUtil.DecodeLine` | Code.java:44-53 | a line yields a record exactly when it splits on ',' into five fields whose trimmed first field parses as an int, trimmed fifth field parses as a number and trimmed name, email and course are non-empty; the record is then the parsed roll, the three trimmed fields and the parsed marks, and is well-formed |
| `FileUtil.DecodeFields` | Code.java:45-53 | comma-free fields yield a record exactly when there are five, the trimmed first parses as an int, the trimmed fifth as a number, and the trimmed second to fourth are non-empty; the record holds those parsed and trimmed values and is well-formed |
| `FileUtil.DecodeAll` | Code.java:43-55 | reading a file yields at most one record per line |
| `FileUtil.UnnumberedIsLost` | Code.java:27-47 | a student with a null roll number is saved as a line starting `null,`, which `Integer.parseInt` rejects, so the next load drops it |
| `FileUtil.DecodeAllWellFormed` | Code.java:43-53 | every record read is well-formed and is the decoding of one of the file's lines |
| `FileUtil.DecodeAllAppend` | Code.java:43-55 | reading keeps file order: the records of two stretches of lines are those of the first followed by those of the second |
| `FileUtil.ReadStudents` | Code.java:37-58 | the list read is the decoding of each line in file order with rejected lines skipped; a missing file reads as the empty list |
| `FileUtil.EncodeAll` | Code.java:63-66 | one line per student, the i-th line being the i-th student's `toCsv` |
| `FileUtil.WriteStudents` | Code.java:60-69 | the lines written are one `toCsv` line per student, in order |
| `FileUtil.CsvFieldsPlain` | Code.java:27 | the five fields `toCsv` joins are comma-free for a well-formed record |
| `FileUtil.DecodeCsvFields` | Code.java:47-53 | the fields of a well-formed record decode back to that record |
| `FileUtil.DecodeToCsv` | Code.java:44-53 | decoding `toCsv(s)` gives back `s` for every well-formed record |
| `FileUtil.DecodeEncodeAll` | Code.java:37-69 | writing a list of savable records (well-formed, no line terminator in name, email or course) and reading it back gives the same list |
| `FileUtil.ReloadIsStable` | Code.java:102-112 | load, save, load gives the same records as the first load, for file lines as `readLine` returns them (no line terminator inside) |
| `FileUtil.DecodedIsSavable` | Code.java:43-53 | a line without line terminators decodes, if at all, to a savable record |
| `FileUtil.BrokenFieldBreaksLine` | Code.java:27-43 | a record with a line terminator in its name, email or course is saved as a line holding one, which `readLine` splits |
| `Text.SplitKeeps` | Code.java:44 | a character absent from a line is absent from every field of its split |
| `FileUtil.ClampPosition` | Code.java:85-86 | the clamped position lies in the file and is the offset in the file nearest to the requested position |
| `FileUtil.ReadCountAsWritten` | Code.java:88 | the buffer size as written, with the `(int)` cast: never negative, at most the requested length, never past the end after the clamped position (it can only fall short) |
| `FileUtil.ReadCount` | Code.java:85-88 | the corrected buffer size: never negative, never past the end after the clamped position, at most the requested length, and exactly the requested length unless the read reaches the end |
| `FileUtil.ReadCountAsWrittenBelow2GiB` | Code.java:88 | while fewer than 2^31 bytes remain after the position, the count as written equals the corrected count |
| `FileUtil.ReadCountAsWrittenFailsAt4GiB` | Code.java:88 | with 2^32 bytes remaining the count as written is 0 where 10 bytes were asked for and are there |
| `FileUtil.ReadRandom` | Code.java:81-94 | with the corrected count of `FileUtil.ReadCount` in place of line 88's cast: a missing file reads nothing, otherwise the read has exactly the corrected count's length |
| `FileUtil.ReadRandomWithin` | Code.java:81-94 | with the corrected count: a missing file reads nothing; otherwise the bytes read are consecutive file bytes starting at the clamped position, never more than the requested length |
| `FileUtil.ReadRandomEmpty` | Code.java:85-88 | a position at or past the end, or a length of zero or less, reads nothing with the corrected count, and the count as written (line 88's cast) is 0 too |
| `FileUtil.ReadRandomToEnd` | Code.java:85-89 | with the corrected count: a length reaching past the end reads exactly the bytes from the position to the end |
| `FileUtil.ReadCountAdjacent` | Code.java:85-88 | with the corrected count: a read of a+b bytes counts what a read of a and the following read of b count together |
| `FileUtil.ReadRandomAdjacent` | Code.java:85-89 | with the corrected count: two adjacent reads return together what one read of the combined length returns |
| `Text.Trim` | Code.java:47-51 | `String.trim`: the result is an infix of the input with only characters up to U+0020 before and after it, and neither starts nor ends with such a character |
| `Text.TrimEmptyIffBlank` | Code.java:120-122 | `trim().isEmpty()` holds exactly when every character is at most U+0020 |
| `Text.TrimKeeps` | Code.java:47-51 | trimming only removes characters |
| `Text.TrimFixedPoint` | Code.java:47-51 | a string is its own trim exactly when neither end is trimmable |
| `Text.TrimIdempotent` | Code.java:47-51 | trimming twice is trimming once |
| `Text.Split` | Code.java:44 | `split(",", -1)` gives at least one field and no field holds the delimiter |
| `Text.JoinSplit` | Code.java:44 | joining the fields of a split with the delimiter gives back the line |
| `Text.SplitJoin` | Code.java:27 | splitting the join of delimiter-free fields gives back the fields |
| `Text.Lower` | Code.java:116 | `toLowerCase` over ASCII keeps the length and lower-cases each character |
| `Text.EqualsIgnoreCase` | Code.java:156 | `equalsIgnoreCase` over ASCII holds exactly when the lower-cased strings are equal |
| `Text.LexLeIff` | Code.java:168 | the lexicographic order holds exactly when the first string is a prefix of the second or the first difference has the smaller character in the first |
| `Text.NoCaseLe` | Code.java:168 | `CASE_INSENSITIVE_ORDER`'s `compare(a, b) <= 0` over ASCII: the lower-cased `a` is a prefix of the lower-cased `b`, or at the first difference its character is the smaller |
| `Text.NoCaseLeTotalPreorder` | Code.java:168 | `CASE_INSENSITIVE_ORDER` is total and transitive |
| `Text.NoCaseTie` | Code.java:168 | `CASE_INSENSITIVE_ORDER` ranks two strings equal exactly when they are equal ignoring case |
| `Numbers.ToInt32` | Code.java:88 | the `(int)` cast of a long keeps the value modulo 2^32 and is the identity inside `int`'s range |
| `Numbers.ParseInt` | Code.java:47 | `Integer.parseInt` succeeds only on an optional sign followed by at least one digit and nothing else, and yields a negative number only after a '-' |
| `Numbers.ShowInt` | Code.java:27 | the printed roll number is non-empty, has no blank ends and no comma |
| `Numbers.ParseShowInt` | Code.java:47 | parsing a printed roll number gives it back |
| `Numbers.ShowDecimal` | Code.java:27 | the printed marks are a plain numeral with no blank ends |
| `Numbers.ParseDecimal` | Code.java:51 | a parse succeeds only on a non-empty string and yields a negative number only after a leading '-' |
| `Numbers.ParseShowDecimal` | Code.java:51 | parsing printed marks gives them back, scale included |

## Left out

- Console I/O: the menu, prompts and printing (`main`, `menu`, `promptStudent`, `readInt`, `readDouble`, `printLoaded`, `viewAll`, `Student.toString`). They hold no roster logic.
- `FileUtil.printFileAttributes`: it only reports file-system metadata.
- File access. The file a load reads is a parameter: `None` for a missing file, otherwise its sequence of lines. A save returns the lines it writes. `readRandom` takes the file's bytes. Not modelled:
  - the `IOException` paths;
  - a short read: `raf.read(buf)`'s count is ignored (`Code.java:89`), so after a short read the unfilled bytes of the buffer stay zero and decode to U+0000 characters, where the model returns only the bytes read;
  - `readLine` itself: a file's lines are given already split. A field holding a line terminator is modelled only by the lemmas that the saved line then holds one (`FileUtil.BrokenFieldBreaksLine`) and that the round trip needs `Records.Savable` records;
  - UTF-8 encoding and the decoding of `readRandom`'s bytes into a `String`.
- `Numbers.ParseDecimal`: models `Double.parseDouble` only on plain decimals (optional sign, digits, optional point). Not modelled: exponents, `NaN`, `Infinity`, hexadecimal forms, type suffixes, and binary rounding.
- `Numbers.ShowDecimal`: prints marks with their own number of decimals, not in `Double.toString`'s shortest form (`88.0`). Marks are exact decimals, not doubles.
- `Numbers.ParseInt`: accepts ASCII digits only, where `Integer.parseInt` also accepts other Unicode decimal digits.
- `Text.Lower`, `Text.EqualsIgnoreCase` and `Text.NoCaseLe`: ASCII case only. Over full Unicode, `toLowerCase` and `equalsIgnoreCase` can disagree. `DropByNameDropsDeleted` relies on their agreement. The model also fixes `toLowerCase`'s default locale (`Code.java:116`, `139`, `145`, `152` pass none) to one that maps only A-Z to a-z. Under tr/az, keys differ even for ASCII names: `"IVAN"` and `"ivan"` get different buckets, so `AddedIsFound` and `DropByNameDropsDeleted` do not hold there.
- `Roster.MarksValue`: absent marks count as 0, where `comparingDouble` would throw a `NullPointerException`. Absent marks never reach a sort of a valid roster, because `add` refuses them and the decoder never produces them.
- `FileUtil.ReadRandom` and the `ReadRandom…` lemmas: they use the corrected count `FileUtil.ReadCount`, not line 88's `(int)` cast. The cast is modelled separately by `FileUtil.ReadCountAsWritten`, which agrees below 2^31 remaining bytes (see Findings); with more bytes remaining, a read can come back shorter than these lemmas say.
- Null strings: strings are never null here. So `add`'s null checks merge into its blank checks, and `deleteByName(null)`'s `NullPointerException` is not modelled. `searchByName` is the one operation that handles a null argument, so there the name is an `Option`.
- Object identity. Students are values. `List.remove` removes by `equals`, which `Student` inherits from `Object` and so compares identity. This makes no difference to the result: the removed bucket holds every listed student of its key, so removing by identity or by value leaves the same list.
- `Roster.StudentManager.SearchByName` and `Roster.StudentManager.GetStudents`: the fresh `ArrayList` copy is a value here, so its independence from later changes comes for free and is not stated.
- `Roster.StudentManager.SortByMarks` and `Roster.StudentManager.SortByName`: the sort is specified by `Sorting.SortBy` rather than by TimSort's steps. `Sorting.SortByIsTheStableSort` shows any stable sort returns the same list.
- `Roster.StudentManager.DropRollsNamed`: visits the `byRoll` keys in an arbitrary order, not `HashMap`'s iteration order. The result does not depend on the order.

## Findings

| source | as written | input that shows it | evidently intended | confidence | as-written member | corrected member |
|---|---|---|---|---|---|---|
| Code.java:88 | the remaining byte count `raf.length() - position` is a `long` narrowed by `(int)` before `Math.min`, so 2^31 or more remaining bytes wrap to a negative or small count | a file of 2^32 bytes, position 0, length 10: the count is `max(0, min(10, 0))` = 0 and the read returns nothing | the requested length cut to the bytes that remain (10 here) | not executed | `FileUtil.ReadCountAsWrittenFailsAt4GiB` | `FileUtil.ReadCount` |
