# Poem pairing for bilingual collections — a Dafny model

This project models the core of a converter that turns a digitised bilingual
poem collection into book records. A document is a flat stream of classed
elements: number markers (`_7_number`, `_7_number-long`) and poem lines
(`_7_poem`). Every poem number is expected twice: first with the original
lines, later with the translation. The `BookBuilder` state machine keeps one
open draft (`TmpPoem`), files a closed draft under its number until its
partner arrives, and pairs the two into a `Poem` (waiting draft = original
`en`, closing draft = translation `ru`) stored in the `Book`. Around it sit
the pure helpers: number normalisation of the marker text, the volume number
taken from a file name, tag stripping, the digit-grouped poem number
(`13 234 567`), the sorted projection of a book, and the append-only error
report.

Everything is immutable data and pure functions, plus one method
(`Books.GetOrderedPoems`) with loop invariants. Files follow the Rust
modules: `tmp_poem.dfy`, `poem.dfy`, `book.dfy`, `book_builder.dfy`,
`report.dfy`, `utils.dfy`, `app.dfy` (the parts of `main.rs` that feed the
builder), with `errors.dfy` (the domain error variants and the `u32` range),
`digits.dfy` (decimal text and its value), `seqs.dfy` (small sequence facts)
and `wrappers.dfy` (`Option`, `Result`). `document.dfy` states the pairing
guarantee for whole documents: a document is a run of sections (a number and
its lines), and when every number appears exactly twice the builder turns
each number's first section into the original and its second into the
translation.

Design choices:

- The source panics on every anomaly of the builder
  (`src/book_builder.rs` lines 28, 57, 68, 76, 81), on a missing class
  attribute, on an unparsable number and on a file name without two adjacent
  digits. Each panic is an `Err(error)` that ends the run, carrying the
  matching variant of `Error`: `DuplicatePoem`, `CanNotAddLinePoemHasNoNumber`,
  `NoTranslationForPoem`, `NoPoemsInTheBook`, `Parse`, `UnexpectedFilename`,
  and `Html` for the element without a class.
- The builder does not recover: every anomaly panics, and drafts still
  waiting at `build` for other numbers are dropped without any error. The
  model keeps both behaviours. `BookReport` is modelled on its own; it is not
  even declared in the crate's module tree (`src/main.rs:20-26`), so nothing
  feeds it.
- Regular expressions are written out as recursive functions over the text:
  `&.*?;` and `<.*?>` are one `DeleteFragments(s, open, close)` (leftmost,
  lazy, and `.` does not cross a newline), `\D+` is `KeepDigits`, `\d\d` is
  `FirstDigitPair`.
- `u32` is the subset type `U32` (`0 ..= 0xFFFF_FFFF`); a digit string whose
  value is larger gives `Parse(PosOverflow)`, an empty one `Parse(Empty)`.

## Model

| member | source | states |
|---|---|---|
| `Digits.Decimal` | src/poem.rs:26 | `to_string` of a number is a non-empty digit string, one digit exactly below 10, starting with '0' only for 0 |
| `Digits.ValueOfDecimal` | src/utils.rs:50 | parsing the printed decimal text of `n` gives `n` back |
| `Digits.DecimalOfValue` | src/utils.rs:50 | printing the value of a digit string without leading zero gives that string back |
| `Digits.ValueStep` | src/utils.rs:50 | one more digit multiplies the value read so far by ten and adds the digit |
| `Digits.DecimalLength` | src/poem.rs:26-29 | the decimal text has at most three digits exactly when the number is below 1000 |
| `Poems.Groups` | src/poem.rs:28-29 | `rchunks(3).rev()`: ceil(len/3) blocks, the first of 1 to 3 characters, every later one of exactly 3 |
| `Poems.GroupsConcat` | src/poem.rs:26-33 | the blocks put back together are the original digit string |
| `Poems.New` | src/poem.rs:12-19 | `Poem::new` keeps `nn`, `en`, `ru` unchanged; `nn_str` is the space-grouped text, which without its spaces is the decimal text of `nn` |
| `Poems.NnStrDigits` | src/poem.rs:26-33 | removing a non-digit separator from `nn_str(nn, sep)` gives the decimal text of `nn` |
| `Poems.NnStrBelowThousand` | src/poem.rs:26-33 | below 1000 there is one block and no separator |
| `Poems.NnStrGroupCount` | src/poem.rs:28-29 | the number of blocks of `nn_str` is the digit count divided by 3, rounded up; the first block has 1 to 3 digits |
| `Poems.NnStrOfSeven` | src/poem.rs:26-33 | 7 formats as "7" |
| `Poems.EightDigitGroups` | src/poem.rs:28-29 | an eight-digit text is cut from the right into blocks of two, three and three digits |
| `Poems.JoinThree` | src/poem.rs:33 | three blocks joined put the separator between neighbours only |
| `Poems.NnStrOfThirteenMillion` | src/poem.rs:63-64 | 13234567 formats as "13 234 567" |
| `TmpPoems.New` | src/tmp_poem.rs:7-12 | a new draft has the given number and no lines |
| `TmpPoems.Add` | src/tmp_poem.rs:14-16 | `add` keeps the number, keeps the old lines as prefix and puts the new line last |
| `TmpPoems.AddAllKeepsOrder` | src/tmp_poem.rs:14-16 | successive `add` calls append the lines in the order given |
| `Books.New` | src/book.rs:15-20 | a new book has the given number and no poems |
| `Books.Add` | src/book.rs:22-24 | `add` stores the poem under its own number, replacing that entry only; other entries and the book number are unchanged |
| `Books.AddKeepsKeysMatch` | src/book.rs:23 | `add` keeps every key equal to its poem's number |
| `Books.AddAllKeepsKeysMatch` | src/book.rs:22-24 | a book filled through `add` alone has every key equal to its poem's number |
| `Books.AddAllContents` | src/book.rs:22-24 | adding poems with distinct numbers stores each under its number, adds no other key and leaves untouched keys alone |
| `Books.GetOrderedPoems` | src/book.rs:26-31 | the result lists every stored poem exactly once (a permutation of the map's values), sorted by number, strictly when keys match numbers |
| `Books.SelectLeast` | src/book.rs:26-31 | taking a least remaining key next keeps the listing sorted, complete for the keys taken, and free of repeats |
| `Books.SelectionDone` | src/book.rs:26-31 | once every key is taken the listing is the ordered view of the book |
| `Books.StrictlySortedUnique` | src/book.rs:28 | two strictly sorted sequences with the same elements are equal |
| `Books.OrderedViewDeterministic` | src/book.rs:26-31 | for a book built by `add`, every call of `get_ordered_poems` returns the same sequence |
| `Books.OrderedViewIsListing` | src/book.rs:26-31 | the ordered view is the unique strictly sorted listing of the stored poems |
| `Books.AddAllValues` | src/book.rs:22-24 | a new book filled with poems of distinct numbers holds exactly those poems |
| `Books.OutOfOrderComesBackSorted` | src/book.rs:40-56 | poems added in the order 5, 1, 2, 4, 7, 6, 3 come back as 1 to 7 |
| `BookBuilders.New` | src/book_builder.rs:14-20 | a new builder has no open draft, nobody waiting, an empty book with the given number, and satisfies the invariant |
| `BookBuilders.ProcNumber` | src/book_builder.rs:23-48 | fails with `DuplicatePoem` exactly when the closing draft's number is already a poem; otherwise opens `(new_nn, [])`; with no draft open nothing else changes; a waiting partner is removed and paired (waiting = `en`, closing = `ru`); without one the draft waits under its number and the book is unchanged |
| `BookBuilders.ProcLine` | src/book_builder.rs:51-60 | with an open draft the line is appended last and nothing else changes; without one it fails with `CanNotAddLinePoemHasNoNumber` |
| `BookBuilders.Build` | src/book_builder.rs:63-85 | fails with `NoPoemsInTheBook` when no draft was opened, `DuplicatePoem` when the last number is already a poem, `NoTranslationForPoem` when it has no waiting partner; otherwise adds exactly the paired poem |
| `BookBuilders.ProcNumberKeepsValid` | src/book_builder.rs:28-41 | `proc_number` keeps pending and book keys disjoint and every key equal to its draft's or poem's number |
| `BookBuilders.ProcLineKeepsValid` | src/book_builder.rs:51-55 | `proc_line` keeps the same invariant |
| `BookBuilders.BuildKeepsKeysMatch` | src/book_builder.rs:67-74 | the built book has every key equal to its poem's number |
| `BookBuilders.BuildDropsWaitingDrafts` | src/book_builder.rs:63-85 | when the open draft's partner waits, `build` succeeds, and drafts still waiting for other numbers do not reach the book and raise no error |
| `BookBuilders.FeedKeepsValid` | src/book_builder.rs:23-60 | any run of calls that does not fail keeps the invariant and the book number |
| `BookBuilders.LinesExtendDraft` | src/book_builder.rs:51-55 | lines fed to an open draft are appended in order and touch nothing else |
| `BookBuilders.SectionOpensDraft` | src/book_builder.rs:41-45 | a number followed by lines leaves a draft holding exactly those lines |
| `BookBuilders.TwoOriginals` | src/book_builder.rs:94-102 | after the originals of 1 and 2, poem 1 waits, 2 is open and the book is empty |
| `BookBuilders.TwoTranslations` | src/book_builder.rs:103-110 | the translation of 1 pairs it into the book; the translation of 2 is left open while its original waits |
| `BookBuilders.FourSections` | src/book_builder.rs:94-110 | the whole run of calls in the test leaves poem 1 finished and poem 2 ready to pair |
| `BookBuilders.TwoPoemScenario` | src/book_builder.rs:93-112 | sections 1, 2, 1, 2 build into exactly poems 1 and 2, first sections as originals, second as translations |
| `Documents.CloseOriginal` | src/book_builder.rs:36-41 | closing a section whose number was never closed before succeeds and files it as waiting, its lines becoming the number's original |
| `Documents.CloseTranslation` | src/book_builder.rs:28-35 | closing a section whose number waits once succeeds and makes the poem of the waiting original and this translation |
| `Documents.CloseSection` | src/book_builder.rs:23-48 | closing a section whose number was closed at most once keeps "seen once = waiting with its first lines, seen twice = poem of its first and second lines, nothing else stored" |
| `Documents.FirstSection` | src/book_builder.rs:43-46 | the first section of a document opens its draft and closes nothing |
| `Documents.NextSection` | src/book_builder.rs:23-60 | each further section closes the previous one and opens a draft holding exactly its own lines |
| `Documents.FeedThenSection` | src/book_builder.rs:23-60 | a document in which no number appears more than twice feeds without error; every section but the last is tracked and the last is the open draft |
| `Documents.BuildTracked` | src/book_builder.rs:63-85 | `build` after such a document, whose last number was seen once before, succeeds and pairs every number seen twice |
| `Documents.WellFormedDocumentBuilds` | src/book_builder.rs:14-85 | when every number of a non-empty document appears exactly twice, feeding and `build` succeed; the book has the given number and one poem per number, its original the first section and its translation the second |
| `Documents.ThirdSectionLast` | src/book_builder.rs:67-68 | a number's third section at the end makes `build` fail with `DuplicatePoem` |
| `Documents.ThirdSectionInside` | src/book_builder.rs:27-28 | a number's third section followed by another section makes the feed fail with `DuplicatePoem` |
| `Documents.LoneLastSection` | src/book_builder.rs:69-77 | a last section whose number never appeared before makes `build` fail with `NoTranslationForPoem` |
| `Utils.CloseIndex` | src/utils.rs:11 | the lazy `.*?;` match ends at the first closing character, and there is none when a newline comes first |
| `Utils.DeleteFragments` | src/utils.rs:45 | regex deletion never lengthens the text and leaves text without the opening character unchanged |
| `Utils.PlainPrefixKept` | src/utils.rs:45 | text before the first opening character is kept as is |
| `Utils.FragmentDeleted` | src/utils.rs:45 | a complete `&…;` fragment after plain text disappears entirely, whatever it holds |
| `Utils.UnclosedKept` | src/utils.rs:45 | an opening character with no closing character before the next newline matches nothing: it is kept and deletion resumes right after it |
| `Utils.StripEntities` | src/utils.rs:45 | entity stripping never lengthens the text and leaves text without '&' unchanged |
| `Utils.KeepDigits` | src/utils.rs:46 | only digits remain and the text never grows |
| `Utils.KeepDigitsOfDigits` | src/utils.rs:46 | a string of digits has nothing to delete |
| `Utils.KeepDigitsAppend` | src/utils.rs:46 | deleting non-digits from two pieces one after the other is deleting them from the whole |
| `Utils.KeepDigitsSkips` | src/utils.rs:46 | a non-digit between two texts leaves their digits exactly as if it were absent |
| `Utils.ParseDigits` | src/utils.rs:50 | `parse::<u32>` of a digit string: its value if non-empty and at most `u32::MAX`, else `Empty` or `PosOverflow` |
| `Utils.ParsePoemNumImpl` | src/utils.rs:44-51 | succeeds exactly when digits remain after both deletions and their value fits `u32`, giving that value (leading zeros allowed); otherwise the matching parse error |
| `Utils.EntityIgnored` | src/utils.rs:45-46 | digits inside an entity never contribute to the parsed number |
| `Utils.UnclosedEntityIgnored` | src/utils.rs:44-50 | an '&' never closed by ';' on its line is dropped as a non-digit, so the digits after it still count ("1&2" reads as 12) |
| `Utils.ParsesGroupedNumber` | src/utils.rs:44-51 | a number grouped with any digit-free separator without '&' parses back to itself |
| `Utils.SeparatedDigits` | src/utils.rs:43-50 | two digit runs split by a separator such as ',' and closed by a mark such as '.' read as the two runs joined |
| `Utils.EntitySeparatedDigits` | src/utils.rs:42-50 | two digit runs split by an entity and closed by a mark read as the two runs joined |
| `Utils.ParsesEntityGroupedNumber` | src/utils.rs:42-51 | a number grouped with an entity separator such as `&#160;` parses back to itself |
| `Utils.RemoveTags` | src/utils.rs:53-55 | tag removal never lengthens a line and leaves a line without '<' unchanged |
| `Utils.TagDeleted` | src/utils.rs:53-55 | a complete `<…>` tag after tag-free text disappears entirely |
| `Utils.FirstDigitPair` | src/utils.rs:59 | the leftmost position of two adjacent digits, or none when there is no such pair |
| `Utils.ParseBookNum` | src/utils.rs:57-67 | `UnexpectedFilename` exactly when the name has no two adjacent digits; otherwise the value (at most 99) of the leftmost pair |
| `Utils.CommaMarker` | src/utils.rs:43 | a string with the characters of "03,456." parses to 3456 |
| `Utils.EntityMarker` | src/utils.rs:42 | a string with the characters of "01&#160;000." parses to 1000 |
| `Utils.BookFileName` | src/utils.rs:57-61 | a file name with the characters of "Vol.07.html" names book 7 |
| `Utils.ParsePoemNumWithComma` | src/utils.rs:77 | "03,456." parses to 3456 |
| `Utils.ParsePoemNumWithEntity` | src/utils.rs:78 | "01&#160;000." parses to 1000 |
| `Utils.ParseBookNumExample` | src/utils.rs:57 | "Vol.07.html" gives 7 |
| `App.ParsePoemNum` | src/main.rs:161-170 | succeeds exactly when digits remain and fit `u32`, with their value; otherwise panics with a parse error |
| `App.ParseBookNum` | src/main.rs:153-159 | panics exactly when the name has no two adjacent digits; otherwise the value of the leftmost pair, at most 99 |
| `App.RemoveTags` | src/main.rs:149-151 | the main-module copy never lengthens a line and leaves a line without '<' unchanged |
| `App.Classify` | src/main.rs:125-142 | no class panics; `_7_number`/`_7_number-long` become `proc_number(parse_poem_num(text))`; `_7_poem` becomes `proc_line(re_remove_tags(text))`; other classes are ignored |
| `App.FoldKeepsValid` | src/main.rs:123-145 | the element loop keeps the builder invariant and the book number |
| `App.ParseBook` | src/main.rs:118-147 | with no elements it fails with `NoPoemsInTheBook`; a built book has the given number and every key equal to its poem's number |
| `App.FoldIsFeed` | src/main.rs:123-146 | when every element classifies, the loop is the builder fed with the corresponding number and line calls in order |
| `App.ParseBookIsBuildOfFeed` | src/main.rs:118-147 | when every element classifies, `parse_book` is `build` on the builder fed with the elements' events, or the feed's failure |
| `App.ParseBookPairs` | src/main.rs:118-147 | elements standing for a document in which every number appears exactly twice give a book with the given number and one poem per number, its original the first section and its translation the second |
| `App.ParsePoemNumExamples` | src/main.rs:190-194 | "03,456." gives 3456 and "01&#160;000." gives 1000 |
| `App.ParseBookNumExample` | src/main.rs:185-188 | "Vol.07.html" gives 7 |
| `Reports.New` | src/report.rs:13-18 | a new report has the given number and no entries |
| `Reports.Add` | src/report.rs:24-26 | `add` keeps the number and earlier entries and puts exactly one entry last |
| `Reports.AddAllKeepsOrder` | src/report.rs:24-26 | successive `add` calls log the errors in the order they happened |

## Left out

- HTML walking in `parse_book` (`Html::parse_document`, the `body div` selector, the filter on more than 100 children, `inner_html`): a foreign library. The input is a sequence of elements, each an optional class and its inner text.
- `App.Classify`: the panic on a missing class prints the element's outer HTML; the model carries the inner text in `Html`, since the outer markup is not part of the element model.
- `main` and its thread pool (concurrency), `process_file`, `write_book`, `prepare_res_dir` (file I/O), `generate_book` (template rendering), `generate_report` (`todo!`) and the undefined `write_report`.
- `src/config.rs` (TOML, command line, global state) and `src/template.rs` (template engine, process exit).
- `join_file_path`, `path_2_str` (operating-system paths) and `init_logger` (tracing).
- The regex engine itself. Only ASCII digits are digits here; Unicode digits, which `\d` also matches, are not modelled.
- `Utils.ParseDigits`: takes only digit strings, which is all the source ever hands to `parse::<u32>` after deleting non-digits; the `InvalidDigit` error of a general string is therefore not modelled.
- The `From` and `Display` implementations of `Error` and its variants that wrap io, toml, tera and scraper errors.
- The debug-string rendering in `BookReport::add`: the report keeps the error values.
- `HashMap` iteration order: `Books.GetOrderedPoems` picks among poems with equal numbers arbitrarily, which can only happen when a key differs from its poem's number.
