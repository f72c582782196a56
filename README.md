# Poem store model

A Dafny model of the in-memory poem store of the PoetryManagerApp console
program (C#). The store is the `PoemCollection` class. It keeps an ordered
list of `Poem` records. Callers append poems, delete or update the first
poem with a given title, search, and generate six reports. A saved report
is the poems' renderings separated by blank lines.

Modules:

- `Wrappers` (`wrappers.dfy`): `Option`.
- `Text` (`text.dfy`): the string operations the store depends on.
  - Ordinal case-insensitive equality and substring search, with case folded per character (`Upper`, ASCII upper-casing).
  - Decimal rendering of integers, with a reader (`ParseInt`) as its inverse.
  - `Join`, for the report separator.
- `Poems` (`poem.dfy`): the `Poem` record (PoetryManagerApp/Program.cs:5-20) as the datatype `Poems.Poem`, with a 32-bit `year`, and its rendering `Render`.
- `Collection` (`collection.dfy`):
  - `Select`: an order-preserving selection by a `Criterion`. It models LINQ `Where(...).ToList()`.
  - `FirstTitleMatch`: the first exact-title match (`FirstOrDefault`).
  - `RemoveFirst` and `ReplaceFirst`: the specifications of delete and update.
  - `SortByLength`: a stable insertion sort by text length, standing for LINQ `OrderBy`.
  - `ReportText`: the report text.
  - The class `PoemCollection`, whose field `poems: seq<Poem>` is the source's `List<Poem>`.

The class methods change `poems` in place. Each `ensures` gives the new
sequence: `AddPoem` appends to the old one, `DeletePoem` and `UpdatePoem`
apply the pure functions `RemoveFirst` and `ReplaceFirst` to it, and
`LoadFromFile` takes the loaded poems. The lemmas are proved about those
functions. Search and the reports are functions that read the store. They
are functions, so they cannot change it.

`string.Contains` with an empty argument is true, so an empty term matches
every poem (`Collection.SearchEmptyTermKeepsAll`).

## Model

| member | source | states |
|---|---|---|
| `Text.Upper` | PoetryManagerApp/Program.cs:64-67 | the per-character fold behind `OrdinalIgnoreCase` (also at line 95): ASCII a-z map to A-Z, every other character is fixed, and no folded character is a lower-case ASCII letter |
| `Text.UpperString` | PoetryManagerApp/Program.cs:64-67 | the fold keeps the length and folds each character separately, the model of `OrdinalIgnoreCase` |
| `Text.EqualsIgnoreCase` | PoetryManagerApp/Program.cs:95 | equal strings are equal ignoring case; strings equal ignoring case have the same length |
| `Text.EqualsIgnoreCaseIff` | PoetryManagerApp/Program.cs:95 | two strings are equal ignoring case exactly when they have the same length and agree character by character after folding |
| `Text.Contains` | PoetryManagerApp/Program.cs:64-67 | the empty term and the string itself occur in every string; a longer term never occurs |
| `Text.ContainsIff` | PoetryManagerApp/Program.cs:64-67 | the substring scan succeeds exactly when some index starts an occurrence of the term |
| `Text.ContainsIgnoreCaseIff` | PoetryManagerApp/Program.cs:64-67 | a case-insensitive substring match exists exactly when some slice of the field equals the term ignoring case |
| `Text.ContainsIgnoreCase` | PoetryManagerApp/Program.cs:64-67 | the empty term occurs in every string, as with .NET `Contains`; a term longer than the string never occurs |
| `Text.ContainsItself` | PoetryManagerApp/Program.cs:64 | every string contains itself ignoring case |
| `Text.NatToDecimal` | PoetryManagerApp/Program.cs:24 | decimal digits are never empty, are all digits, and have no leading zero unless the value is zero |
| `Text.IntToDecimal` | PoetryManagerApp/Program.cs:24 | an integer's rendering is non-empty and starts with a minus sign exactly when the integer is negative |
| `Text.NatDecimalRoundTrip` | PoetryManagerApp/Program.cs:24 | reading the digits written for a natural number gives that number back |
| `Text.IntDecimalRoundTrip` | PoetryManagerApp/Program.cs:24 | reading back the rendered year gives the year |
| `Text.IntToDecimalInjective` | PoetryManagerApp/Program.cs:24 | different years render differently |
| `Text.Join` | PoetryManagerApp/Program.cs:133 | no parts join to the empty string, one part to itself, and a join starts with its first part |
| `Text.JoinLength` | PoetryManagerApp/Program.cs:133 | joining n parts adds exactly n - 1 separators to the parts' total length |
| `Text.JoinSnoc` | PoetryManagerApp/Program.cs:133 | appending a part to a non-empty join appends one separator and the part |
| `Poems.Header` | PoetryManagerApp/Program.cs:22-24 | the header line starts with `Title: ` and the title, and is the four header fields plus 34 label characters |
| `Poems.Render` | PoetryManagerApp/Program.cs:22-25 | a rendering starts with the header line and is the five fields plus 41 label characters |
| `Poems.RenderStartsWithTitle` | PoetryManagerApp/Program.cs:22-25 | a rendering starts with `Title: ` and the title |
| `Poems.RenderEndsWithText` | PoetryManagerApp/Program.cs:22-25 | a rendering ends with a line break, `Text: ` and the text |
| `Poems.RenderYear` | PoetryManagerApp/Program.cs:22-25 | the year stands in decimal after `, Year: `, at the offset fixed by the title and author lengths, and reads back as the year |
| `Poems.DecimalNoNewline` | PoetryManagerApp/Program.cs:24 | the year's rendering holds no line break |
| `Poems.RenderLines` | PoetryManagerApp/Program.cs:22-25 | if the title, author and theme have no line break, a rendering is one header line followed by `Text: ` and the text |
| `Collection.Matches` | PoetryManagerApp/Program.cs:64-67 | the `Where` conditions of search and of the reports (lines 95, 101, 107, 113, 119): every poem meets the criterion built from its own title, author, theme, text or year, and the empty search term |
| `Collection.Select` | PoetryManagerApp/Program.cs:64-67 | a selection is an order-preserving subsequence of the store |
| `Collection.SelectCount` | PoetryManagerApp/Program.cs:64-67 | a matching poem occurs in the selection as often as in the store; a non-matching poem does not occur |
| `Collection.SelectContents` | PoetryManagerApp/Program.cs:62-68 | a poem is selected iff it is stored and meets the criterion, with its stored multiplicity |
| `Collection.SelectCons` | PoetryManagerApp/Program.cs:64-67 | the first poem is kept exactly when it matches, followed by the selection from the rest |
| `Collection.SelectAppend` | PoetryManagerApp/Program.cs:64-67 | selecting from a concatenation gives the concatenated selections |
| `Collection.SearchEmptyTermKeepsAll` | PoetryManagerApp/Program.cs:62-68 | the empty search term returns the whole store, in order |
| `Collection.SearchIgnoresCase` | PoetryManagerApp/Program.cs:64-67 | a poem with theme "Love" is found by "love" and by "LOVE" |
| `Collection.FirstTitleMatch` | PoetryManagerApp/Program.cs:42 | returns no index iff no title is exactly equal; otherwise the index of the first exact match |
| `Collection.RemoveFirst` | PoetryManagerApp/Program.cs:40-47 | with no exact-title match the list is unchanged; otherwise it is one shorter, is unchanged before the first match, and the rest shift down by one in order |
| `Collection.ReplaceFirst` | PoetryManagerApp/Program.cs:49-60 | the length is unchanged; with no match the list is unchanged; otherwise only the first match changes and takes all five fields of the new poem |
| `Collection.DeleteFirstOfTwo` | PoetryManagerApp/Program.cs:40-47 | of two poems sharing a title, deleting that title leaves only the second |
| `Collection.UpdateThenSearchFinds` | PoetryManagerApp/Program.cs:49-68 | after an update that finds its title, searching for the new title finds the new poem |
| `Collection.AddThenSelect` | PoetryManagerApp/Program.cs:35-38 | after an append, each search and filter report is the old result, plus the new poem at the end if it matches |
| `Collection.Insert` | PoetryManagerApp/Program.cs:125 | insertion adds exactly the inserted poem to the multiset |
| `Collection.SortByLength` | PoetryManagerApp/Program.cs:125 | the length ordering is a permutation of the store |
| `Collection.InsertSorted` | PoetryManagerApp/Program.cs:125 | inserting into a length-sorted sequence keeps it sorted |
| `Collection.InsertSelect` | PoetryManagerApp/Program.cs:125 | an inserted poem goes ahead of every poem of equal text length |
| `Collection.SortByLengthSorted` | PoetryManagerApp/Program.cs:125 | the ordering is non-decreasing in text length |
| `Collection.SortByLengthStable` | PoetryManagerApp/Program.cs:125 | poems of equal text length keep their storage order (stability) |
| `Collection.SortedHeadShortest` | PoetryManagerApp/Program.cs:125 | in a length-sorted sequence the first poem is a shortest one |
| `Collection.SelectLengthOfTail` | PoetryManagerApp/Program.cs:125 | a length group starts with the first poem when it has that length |
| `Collection.FirstGroupNonEmpty` | PoetryManagerApp/Program.cs:125 | a non-empty sequence has a non-empty length group |
| `Collection.HeadsAndTailsAgree` | PoetryManagerApp/Program.cs:125 | two sorted sequences with the same length groups share their first poem, and their tails have the same groups |
| `Collection.SortedWithSameGroupsEqual` | PoetryManagerApp/Program.cs:125 | a sorted sequence is determined by its length groups |
| `Collection.SortByLengthUnique` | PoetryManagerApp/Program.cs:123-127 | the length report is the only sequence that is sorted by text length and keeps each length group in storage order |
| `Collection.Renderings` | PoetryManagerApp/Program.cs:133 | the i-th entry is the rendering of the i-th poem of the report |
| `Collection.ReportText` | PoetryManagerApp/Program.cs:133 | the report text is empty exactly when the report is; one poem gives its rendering |
| `Collection.ReportTextShape` | PoetryManagerApp/Program.cs:133 | an empty report is empty text; one poem gives its rendering; n poems add n - 1 blank-line separators |
| `Collection.ReportTextSnoc` | PoetryManagerApp/Program.cs:133 | a poem added to a non-empty report follows a blank line |
| `Collection.PoemCollection.constructor` | PoetryManagerApp/Program.cs:33 | a new store is empty |
| `Collection.PoemCollection.AddPoem` | PoetryManagerApp/Program.cs:35-38 | the new list is the old one plus the poem at the end: one longer, with every old element in place |
| `Collection.PoemCollection.DeletePoem` | PoetryManagerApp/Program.cs:40-47 | the new list is `RemoveFirst` of the old one |
| `Collection.PoemCollection.UpdatePoem` | PoetryManagerApp/Program.cs:49-60 | the new list is `ReplaceFirst` of the old one, a value replacement at the first-match index |
| `Collection.PoemCollection.LoadFromFile` | PoetryManagerApp/Program.cs:76-83 | a missing file leaves the store unchanged; otherwise the loaded poems replace it wholesale |
| `Collection.PoemCollection.SearchPoems` | PoetryManagerApp/Program.cs:62-68 | an order-preserving subsequence of the store; a poem is included iff the term occurs ignoring case in its title, author, text or theme; stored multiplicity kept |
| `Collection.PoemCollection.GenerateReportByTitle` | PoetryManagerApp/Program.cs:93-97 | in storage order, exactly the poems whose title equals the argument ignoring case |
| `Collection.PoemCollection.GenerateReportByAuthor` | PoetryManagerApp/Program.cs:99-103 | in storage order, exactly the poems whose author equals the argument ignoring case |
| `Collection.PoemCollection.GenerateReportByTheme` | PoetryManagerApp/Program.cs:105-109 | in storage order, exactly the poems whose theme equals the argument ignoring case |
| `Collection.PoemCollection.GenerateReportByWordInText` | PoetryManagerApp/Program.cs:111-115 | in storage order, exactly the poems whose text contains the word ignoring case |
| `Collection.PoemCollection.GenerateReportByYear` | PoetryManagerApp/Program.cs:117-121 | in storage order, exactly the poems whose year equals the argument |
| `Collection.PoemCollection.GenerateReportByLength` | PoetryManagerApp/Program.cs:123-127 | a permutation of the store, non-decreasing in text length, with the poems of each length in storage order |

## Left out

- The `Main` menu loop and its prompt helpers (PoetryManagerApp/Program.cs:154-346). They are console input and output, plus `int.Parse` of user input.
- `SaveToFile` (PoetryManagerApp/Program.cs:70-74). It is Newtonsoft.Json serialisation plus a file write, which this model does not include.
- The I/O and JSON parsing inside `LoadFromFile`. Its file is a parameter: `None` means the file does not exist; `Some(poems)` means it exists and parses to those poems.
- JSON parse errors, and a file holding JSON `null`. The source would propagate the exception, or set the list to null. Neither is part of this model.
- `ListPoems` and the console branch of `DisplayOrSaveReport` (PoetryManagerApp/Program.cs:85-91, 139-143). They only write to the console.
- The file write of a saved report, the "Report saved" message, and the default report file names (PoetryManagerApp/Program.cs:134-135). The report functions return the selected poems; `ReportText` gives the text the file would receive.
- Full Unicode case mapping of `StringComparison.OrdinalIgnoreCase`. Case is folded per character, by ASCII upper-casing.
- `Text.Length` in .NET counts UTF-16 code units. `SortByLength` counts Dafny characters, which are Unicode scalar values. The two differ for characters outside the Basic Multilingual Plane.
- Reference aliasing of `Poem` objects. A caller keeping a reference, or one object added twice, would see an update through every alias. Poems here are immutable values, and an update replaces the value at the first-match index.
- Null strings. Poems and search or report arguments are never null here. In the source a null field comes from a missing or explicit `null` JSON property, or from end of console input when a poem is added or updated. A null field throws in search and in every report that reads it. A null search term or word throws `ArgumentNullException` once a poem is examined, so only on a non-empty store. A null title, author or theme argument matches no poem, because `string.Equals` with a comparison type returns false for null. From the menu a null report argument never reaches the store: the `Console.ReadLine().ToLower()` of the save prompt (PoetryManagerApp/Program.cs:295, 305, 315, 325) throws first. `ToString` renders a null field as "". None of that is modelled.
- Culture-specific integer formatting. The year renders with a `-` sign and ASCII digits, as under the invariant culture.
