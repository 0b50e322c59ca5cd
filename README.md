# Library patron registry — a verified model

The registry keeps library patrons in memory. Each patron has a seven-digit id,
a name, an address and a fine between 0 and 250. The model covers the three
classes that hold the logic:

- **Patron** (`patrons.dfy`): the validating constructor. It checks the id
  against `\d{7}`, checks that the name and the address are non-empty, and
  checks that the fine lies in [0, 250]. The first failed check gives the
  error. A fine that passes is stored rounded half-up to two decimal places.
- **PatronRepository** (`repository.dfy`): a class whose one field is the map
  from id to patron.
  - `addPatron` refuses an id that is already stored.
  - `removePatron` reports whether the id was there.
  - `getAllPatrons` and `searchByName` return lists sorted by id.
    `searchByName` matches a lower-cased substring of the name.
  - `searchById` returns the patron or nothing.
- **AppController** (`controller.dfy`): a class over a repository.
  - `addPatron` turns a rejected record into `false`.
  - `importFromFile` reads `id-name-address-fine` lines and counts the patrons
    it adds. It is a method with a loop, proved against a fold over the lines.

Two supporting modules hold the parts of the Java library that the code relies on:

- `text.dfy`: the `\d` class, `trim`, `split("-")`, `toLowerCase`, `contains`
  and the `compareTo` order of strings.
- `decimals.dfy`: `java.math.BigDecimal` as an unscaled integer with a scale.
  It models `compareTo`, `setScale(2, ROUND_HALF_UP)` and `new BigDecimal(String)`.
  `compareTo` and `setScale` are specified against the exact rational value a
  decimal denotes. The parser is characterised on every input: it accepts exactly
  plain notation, reads it as its digits at the scale of its fraction digits, and
  that number is the whole part plus the fraction. It also reads back every
  decimal written by `Render`.

`wrappers.dfy` holds `Option` and `Result`. A `Failure` stands for a thrown
`IllegalArgumentException`, and `None` for a `NumberFormatException` or for
Java's `null`.

`Patron`'s constructor checks the name and the address with `isEmpty()` only
and does not trim them (src/Patron.java:25, :28), so a name of one space is
accepted (`Patrons.NoTrimOnNameAndAddress`). The import trims its fields before
the constructor sees them (src/AppController.java:63-65).

A Java `Patron` exists only once its constructor has accepted it. The model
states this as part of the repository's invariant: every stored patron is
`WellFormed`, and the repository's `AddPatron` takes only well-formed patrons.
The controller obtains them from `NewPatron`.

## Model

| member | source | states |
|---|---|---|
| Text.MatchesDigitRun | src/Patron.java:22 | the regular expression `\d{n}` read one repetition at a time; a match has length n |
| Text.DigitRunIsFixedLengthDigits | src/Patron.java:22 | `id.matches("\\d{7}")` holds exactly when the id is seven characters, each an ASCII digit |
| Text.Trim | src/AppController.java:63-65 | `trim()` cuts only characters at or below U+0020, and only from the two ends; the result neither starts nor ends with one |
| Text.SplitAll | src/AppController.java:59 | cutting at every '-' gives separator-free pieces that join back to the line |
| Text.SplitJoin | src/AppController.java:59 | splitting is the inverse of joining separator-free parts |
| Text.DropTrailingEmpty | src/AppController.java:59 | `split` drops every trailing empty piece and keeps the rest in order |
| Text.JavaSplit | src/AppController.java:59-60 | `split("-")` gives the line itself when it has no '-'; otherwise it gives the pieces minus trailing empty ones; no piece holds a '-' |
| Text.Lower | src/PatronRepository.java:37 | `toLowerCase()` keeps the length and lowers each ASCII capital, leaving every other character as it is |
| Text.Contains | src/PatronRepository.java:37 | `contains` as a left-to-right scan; a match is never longer than the text, and at equal length it is equality |
| Text.ContainsOccurs | src/PatronRepository.java:37 | the `contains` scan succeeds exactly when the query occurs at some position |
| Text.PrefixIgnoringCase | src/PatronRepository.java:37 | a query that equals the start of a name, case aside, is found |
| Text.MissingCharNotContained | src/PatronRepository.java:37 | a query holding a character that the name lacks, case aside, is not found |
| Text.ContainsEmpty | src/PatronRepository.java:37 | every name contains the empty query |
| Text.Less | src/PatronRepository.java:25 | `compareTo(b) < 0` on ids: the first differing character decides, and a proper prefix comes first; it never holds between equal strings |
| Text.LessIrreflexive | src/PatronRepository.java:25 | the `compareTo` order of ids puts no id before itself |
| Text.LessTransitive | src/PatronRepository.java:25 | the id order is transitive |
| Text.LessTotal | src/PatronRepository.java:25 | of two different ids, one comes first |
| Decimals.CompareTo | src/Patron.java:31 | `compareTo` gives -1, 0 or 1 |
| Decimals.CompareToIsValueOrder | src/Patron.java:31-32 | `compareTo` is below, equal to or above zero exactly as the denoted numbers are ordered, whatever the scales |
| Decimals.RoundedHundredths | src/Patron.java:39 | the count of hundredths is the value times 100, rounded to the nearest integer with a tie going up |
| Decimals.RoundHalfUp | src/Patron.java:39 | `setScale(2, ROUND_HALF_UP)` gives scale 2 and the nearest hundredth; a tie goes away from zero, in both signs |
| Decimals.RoundHalfUpIsNearest | src/Patron.java:39 | a non-negative fine moves by less than half a cent, and an exact half cent rounds up |
| Decimals.RoundedFineBound | src/Patron.java:31-39 | a fine in [0, 250] is still in [0.00, 250.00] after rounding |
| Decimals.RoundHalfUpExamples | src/Patron.java:39 | 12.345 gives 12.35, 12.344 gives 12.34, 249.995 gives 250.00, -0.005 gives -0.01 and 7 gives 7.00 |
| Decimals.PointIndex | src/AppController.java:70 | the parser splits the number at the first '.', if there is one |
| Decimals.ParseUnsigned | src/AppController.java:70 | the digits after the sign are read as a non-negative number whose scale is below their length |
| Decimals.ParseDecimal | src/AppController.java:69-74 | `new BigDecimal(text)` reads a negative number only from text that starts with '-', and nothing from empty text |
| Decimals.PlainValue | src/AppController.java:70 | the decimal plain notation spells: its digits as one integer, negative only after '-', at the scale of the fraction digits |
| Decimals.PlainValueMeaning | src/AppController.java:70 | that decimal's value is the whole part plus the fraction digits over the matching power of ten, with the sign in front |
| Decimals.ParsePlainNotation | src/AppController.java:69-74 | every string in plain notation (an optional sign, digits, at most one point, at least one digit) is accepted and read as `PlainValue` |
| Decimals.ParseAcceptsExactlyPlainNotation | src/AppController.java:69-74 | the parser accepts a string exactly when it is in plain notation; everything else is the number-format error |
| Decimals.Render | src/AppController.java:70 | a decimal written in plain notation, with a leading '-' exactly when it is negative |
| Decimals.ParseRender | src/AppController.java:70 | every decimal written in plain notation is read back with the same unscaled value and scale, so the parser loses nothing |
| Decimals.ParseTenPointZeroZero | src/AppController.java:70 | "10.00" is read as 1000 at scale 2 |
| Decimals.ParseSigns | src/AppController.java:70 | "-1" is read as -1 and "+250" as 250 |
| Decimals.ParseBarePoint | src/AppController.java:70 | ".5" is read as 5 at scale 1 |
| Decimals.ParseRejects | src/AppController.java:69-74 | "abc", "", "." and "1.2.3" raise the number-format error |
| Patrons.NewPatron | src/Patron.java:19-40 | a patron is built exactly when all four checks pass; otherwise the error names the first check that fails, in the source's order; on success the strings are kept as given and the fine is rounded half-up to scale 2 |
| Patrons.FineBoundsAsIntegers | src/Patron.java:31-32 | a fine in [0, 250] has its unscaled value between 0 and 250 times 10 to the power of its scale |
| Patrons.StoredFineIsNearest | src/Patron.java:38-39 | the stored fine is within half a cent of the one given |
| Patrons.ValidationOrder | src/Patron.java:21-32 | a bad id is reported before a bad name, which is reported before a bad address, which is reported before a bad fine; -1 and 251 are both out of range |
| Patrons.NoTrimOnNameAndAddress | src/Patron.java:24-28 | a blank name or address is accepted, since only emptiness is checked |
| Patrons.StoredFineExamples | src/Patron.java:39 | 12.345 is stored as 12.35 and 249.995 as 250.00 |
| Repository.Insert | src/PatronRepository.java:11-15 | adding succeeds exactly when the id is new; exactly that one entry is added; nothing else changes; the keys stay equal to the stored ids and a well-formed patron keeps the store well formed |
| Repository.Delete | src/PatronRepository.java:18-20 | the result is true exactly when the id was stored; only that entry goes; the invariants are kept |
| Repository.MinKey | src/PatronRepository.java:25 | the smallest id among the keys |
| Repository.SortedKeys | src/PatronRepository.java:23-27 | every key exactly once, strictly ascending by id |
| Repository.ValuesAt | src/PatronRepository.java:24 | the patrons stored under the given keys, in the keys' order |
| Repository.ValuesAtCovers | src/PatronRepository.java:24 | listing under all the keys lists every stored patron and nothing else |
| Repository.AscendingUnique | src/PatronRepository.java:24-26 | two id-ascending lists of the same patrons are equal, so the sorted result does not depend on `HashMap` order |
| Repository.NameMatches | src/PatronRepository.java:37 | the filter's test: the lower-cased name contains the lower-cased query, which is then no longer than the name |
| Repository.FilterByName | src/PatronRepository.java:36-37 | the filter keeps exactly the patrons whose lower-cased name contains the lower-cased query, keeps their order, and keeps an id-ascending list ascending |
| Repository.HeadBelowRest | src/PatronRepository.java:38 | in an id-ascending list, the first id is below every id that follows |
| Repository.FilterByEmptyName | src/PatronRepository.java:37 | the empty query keeps every patron |
| Repository.BobMatchesBobSmith | src/PatronRepository.java:37 | "bob" finds "Bob Smith" |
| Repository.BobMatchesBobby | src/PatronRepository.java:37 | "bob" finds "bobby" |
| Repository.BobMissesAlice | src/PatronRepository.java:37 | "bob" does not find "Alice" |
| Repository.PatronRepository.constructor | src/PatronRepository.java:8 | the repository starts with an empty map |
| Repository.PatronRepository.AddPatron | src/PatronRepository.java:11-15 | the map becomes `Insert` of the old map, with its result; every key stays equal to its patron's id and every stored patron stays well formed |
| Repository.PatronRepository.RemovePatron | src/PatronRepository.java:18-20 | the map becomes `Delete` of the old map, with its result |
| Repository.PatronRepository.GetAllPatrons | src/PatronRepository.java:23-27 | every stored patron exactly once, ascending by id, each well formed |
| Repository.PatronRepository.GetAllPatronsIsTheSortedValues | src/PatronRepository.java:23-27 | any id-ascending list of exactly the stored patrons is the listing |
| Repository.PatronRepository.SearchById | src/PatronRepository.java:30-32 | the stored patron under that id, or nothing when the id is absent |
| Repository.PatronRepository.StoredIdsAreDigits | src/PatronRepository.java:11-15 | every stored id is seven ASCII digits, since only constructed patrons are stored |
| Repository.PatronRepository.SearchByName | src/PatronRepository.java:35-40 | exactly the stored patrons whose name matches, ascending by id, in the listing's order |
| Repository.PatronRepository.SearchByNameIsFilterThenSort | src/PatronRepository.java:35-40 | filtering then sorting, as the source does, gives the same list as sorting then filtering |
| Repository.PatronRepository.EmptyNameFindsAll | src/PatronRepository.java:37 | searching for "" gives the whole listing |
| Controller.AddRecord | src/AppController.java:17-25 | the add succeeds exactly when the constructor accepts the record and its id is new; a failure leaves the map unchanged; a success stores the constructed patron under its id; the store stays well formed |
| Controller.TrimKeepsOut | src/AppController.java:63-65 | trimming adds no character, so a trimmed field holds no '-' |
| Controller.ParseLine | src/AppController.java:59-74 | a line is skipped for its field count exactly when `split("-")` does not give four parts; accepted fields hold no '-' and have nothing left to trim |
| Controller.ImportLine | src/AppController.java:58-77 | one pass of the loop either changes nothing and does not count, or adds exactly one new entry and counts |
| Controller.Fold | src/AppController.java:56-78 | the loop over the lines, one pass per line in order; the count is at most the number of lines |
| Controller.ImportAll | src/AppController.java:48-85 | the import of a file's lines into a store: the count is at most the number of lines, and the store grows by exactly the count |
| Controller.FoldNext | src/AppController.java:56-78 | helper for the loop proof: one more pass of the loop extends the fold by that line |
| Controller.ImportLineAddsOnly | src/AppController.java:58-77 | a pass of the import loop only ever adds one new entry |
| Controller.FoldGrowth | src/AppController.java:56-78 | a loop of adding passes counts at most one per line; the map grows by exactly the count; stored entries are untouched |
| Controller.FoldConcat | src/AppController.java:56-78 | the loop over two runs of lines is the loop over the first, continued over the second |
| Controller.ImportGrowth | src/AppController.java:48-85 | the count is at most the number of lines; the store grows by exactly the count; no stored patron is removed or replaced |
| Controller.ImportConcat | src/AppController.java:48-85 | importing two files in turn equals importing their concatenation, store and count alike |
| Controller.FirstRecordKept | src/AppController.java:77 | a later line that repeats an id never displaces the first record |
| Controller.ImportLineCounted | src/AppController.java:76-77 | a line counts exactly when it parses to four fields, the constructor accepts them and the id is new |
| Controller.DuplicateLineNotCounted | src/AppController.java:77 | a line whose id is already stored changes nothing and does not count |
| Controller.TrimUnchanged | src/AppController.java:63-65 | a field with no blank at either end is kept by `trim` |
| Controller.FourParts | src/AppController.java:66-74 | once a line splits into four parts, the fourth part decides between a skip and the trimmed fields |
| Controller.SplitLine | src/AppController.java:59 | splitting a line built from separator-free parts gives those parts, without trailing empty ones |
| Controller.TrailingSeparatorSkipped | src/AppController.java:59-60 | "1234567-Jane-Main-" splits into three parts and is skipped |
| Controller.LeadingSeparatorSkipped | src/AppController.java:59-60 | "-1234567-Jane-Main-5" splits into five parts and is skipped |
| Controller.ParseJoinedFields | src/AppController.java:59-70 | four clean fields joined with '-' are read back as those fields, the fourth through the decimal parser |
| Controller.JaneLine | src/AppController.java:59-70 | "1234567-Jane-123 Main St-10.00" is read as its three fields and the fine 10.00 |
| Controller.BadLine | src/AppController.java:59-60 | "bad-line" is skipped for its field count |
| Controller.TomLine | src/AppController.java:69-74 | a line whose fine is "abc" is skipped for its fine |
| Controller.JaneAccepted | src/Patron.java:19-40 | Jane's record passes the constructor unchanged |
| Controller.JaneImported | src/AppController.java:58-77 | Jane's line adds her to an empty store and counts |
| Controller.SkippedLines | src/AppController.java:59-74 | the two bad lines change nothing and do not count |
| Controller.ImportThreeLines | src/AppController.java:48-85 | a file of Jane's line, "bad-line" and Tom's line imports one patron, Jane, with count 1 |
| Controller.FoldAddThenSkip | src/AppController.java:56-78 | three passes of which only the first adds give the first pass's store and count 1 |
| Controller.AppController.constructor | src/AppController.java:12-14 | the controller keeps the repository it is given |
| Controller.AppController.AddPatron | src/AppController.java:17-25 | the repository's map and the result are `AddRecord` of the old map |
| Controller.AppController.RemovePatron | src/AppController.java:28-30 | delegates: the map and the result are `Delete` of the old map |
| Controller.AppController.ListPatrons | src/AppController.java:33-35 | the repository's listing: every stored patron once, ascending by id |
| Controller.AppController.SearchById | src/AppController.java:38-40 | the repository's lookup: a patron exactly when the id is stored |
| Controller.AppController.SearchByName | src/AppController.java:43-45 | the repository's search: exactly the matching patrons, ascending by id |
| Controller.AppController.ImportFromFile | src/AppController.java:48-85 | the loop leaves the store and the count as `ImportAll` of the old store over the lines; with `ImportGrowth` and `ImportConcat`, this is the promise of the method |
| Controller.AppController.ImportOneLine | src/AppController.java:58-77 | the body of the loop for one line: the store and the result are `ImportLine` of the old store |

## Left out

- src/MenuUI.java, the console menu, is not part of this model.
- Opening and reading the file is not modelled. `ImportFromFile` takes the file's lines as a sequence. A file that cannot be opened behaves like an empty sequence and gives 0. An `IOException` part-way through behaves like the lines read so far.
- The `System.out.println` diagnostics are left out ("Error: …", "Invalid fine value for ID …", "File error: …"). They have no effect on the store or the count.
- `Patron.toString` and its `String.format` table layout are left out. The getters are the datatype's fields.
- `null` arguments are not modelled. Java would throw a `NullPointerException` on them. Every string and decimal in the model is a value.
- Decimals.ParseDecimal: only plain notation is read (sign, digits, one point). Exponent notation such as "1E+2" and non-ASCII Unicode digits, both of which `new BigDecimal(String)` accepts, read as errors here. A negative scale never arises from plain notation.
- Decimals.Decimal: the scale is a natural number. A `BigDecimal` with a negative scale passed to `addPatron` is represented by its value-equal form at scale 0. Nothing is lost, since `compareTo` and `setScale(2, …)` depend only on the value.
- Text.Lower: folds ASCII capitals only. The Unicode and locale-specific mappings of `toLowerCase()` are not modelled.
- Text.Less: compares characters as Unicode scalar values. Java's `compareTo` compares UTF-16 code units. The two orders differ only between supplementary characters and U+E000–U+FFFF. Stored ids are always seven ASCII digits (`Repository.PatronRepository.StoredIdsAreDigits`), so the order of a listing is unaffected.
- Controller.AppController.ImportFromFile: the count is an unbounded integer. Java's `int` would wrap after 2^31 - 1 added patrons.
- `HashMap` iteration order is not modelled. Both list results are sorted on unique ids, so it cannot show (`Repository.AscendingUnique`).
- Concurrency is not modelled. The source has none.
