# MysticLabel core, modelled in Dafny

MysticLabel is a small browser app for a perfume shop. You import an order list (pasted or uploaded CSV/TSV) into an editable table and sync it to a spreadsheet webhook. You then map product titles of one size onto a label sheet (20 × 8 small labels or 10 × 3 large labels) and print it. This project models the deterministic layer under the UI and proves what that layer does:

- **Order list** (`OrderImport`, `OrderEdits`, `OrderSync`, `OrderStore`). This covers:
  - the trailing-blank-row rule;
  - the carried "effective order number" scan;
  - the line importer with quantity expansion;
  - cell edit, row delete, group delete and row insert;
  - the search filter;
  - the sync payload.

  `OrderStore.OrderList` is the list as one mutable object with a fresh-id counter. Every handler is one atomic command on it.
- **Label sheet** (`Labels`, `Normalizer`, `Types`). This covers:
  - the per-size counts;
  - the set of order numbers already in the sheet;
  - the size filter that picks titles;
  - the assignment of titles to the sorted selected cells;
  - toggle, select-all, reset and the layout-change reset;
  - the text normaliser `preprocessText`;
  - the two layout constants.

  `Labels.LabelSheet` holds that state.
- **Drag selection** (`Grid`): the pointer gesture as a class `Grid.Gesture` with fields for the box, the mode and the preview. It covers:
  - the normalised drag box;
  - the closed rectangle-overlap test;
  - the commit through forced toggles on release;
  - the selection the grid paints.
- **Settings editor** (`Settings`): the class `Settings.SettingsEditor` with the add and remove handlers for the brand list, the remove-word list and the alias dictionary, and the reset-on-open effect.
- **JavaScript string primitives** (`Text`): `trim`, `toLowerCase`, `split`, `includes`, `parseInt` and the regular expressions the app uses, written out over `seq<char>`.

Every loop in the source is a `method` with a `while` or `for` loop. Each such method is proved equal to a specification function, and lemmas state what those functions mean. The pure expressions of the source are functions. Row ids are natural numbers handed out by a counter, and the caller supplies the date.

When given an empty order list, the app's label mapper reads the spreadsheet instead, and those titles go through `preprocessText`. The line importer does not run the normaliser. It strips a leading "sample -" and collapses whitespace, but looks up no alias and removes no brand. The model follows the code.

## Model

| member | source | states |
|---|---|---|
| Types.Config | types.ts:20-35 | each layout's `id` is its key in the configuration record, every grid has at least one row and one column, and every option list has a first entry |
| Types.StandardLayout | types.ts:21-27 | the small format is 20 rows by 8 columns, 160 cells, with sizes exactly ["1ml", "3ml"] |
| Types.LargeLayout | types.ts:28-34 | the large format is 10 rows by 3 columns, 30 cells, with sizes exactly ["5ml", "10ml"] |
| Text.LowerChar | App.tsx:39 | `toLowerCase` maps 'A'..'Z' to 'a'..'z' (code point + 32) and keeps every other character, so no upper-case ASCII letter is left and whitespace stays whitespace |
| Text.Lower | App.tsx:39 | `toLowerCase` keeps the length and works character by character |
| Text.LowerIdempotent | components/SettingsModal.tsx:60 | lower-casing twice is lower-casing once |
| Text.LowerOfCaseVariant | App.tsx:39-41 | lower-casing a lower-case text with any of its letters in capitals gives back the lower-case text, so comparing lower cases ignores letter case |
| Text.TrimStart | components/OrderImport.tsx:79 | the leading whitespace run is dropped: the result is a suffix starting with a non-space, and every removed character is whitespace |
| Text.SpaceRunEnd | App.tsx:38 | the first index at or after `i` that is not whitespace, every character skipped being whitespace |
| Text.SpaceRunStart | App.tsx:38 | the start of the whitespace run that ends just before `j` |
| Text.Trim | components/OrderImport.tsx:45 | `trim()` gives a string neither starting nor ending with whitespace, no longer than its input |
| Text.TrimIsSlice | components/OrderImport.tsx:45 | the trimmed text is a contiguous slice of the input |
| Text.TrimOfTrimmed | components/OrderImport.tsx:45 | a string with no outer whitespace is its own trim |
| Text.TrimIdempotent | components/OrderImport.tsx:45 | trimming twice is trimming once |
| Text.TrimEmptyIffBlank | components/OrderImport.tsx:69 | a line trims to "" exactly when every character is whitespace |
| Text.NonSpace | App.tsx:38 | the non-whitespace characters of a string, in order |
| Text.NonSpaceAppend | App.tsx:38 | taking the non-whitespace characters distributes over concatenation |
| Text.NonSpaceOfBlank | App.tsx:38 | an all-whitespace string has no non-whitespace characters |
| Text.TrimKeepsText | App.tsx:38 | trimming removes whitespace only: the non-whitespace characters are unchanged |
| Text.TrimKeepsTextInner | App.tsx:38 | the same, for a text that is not all whitespace |
| Text.NonSpaceOfBlankPrefix | App.tsx:38 | a leading whitespace run has no non-whitespace characters |
| Text.NonSpaceOfBlankSuffix | App.tsx:38 | a trailing whitespace run has no non-whitespace characters |
| Text.Collapse | App.tsx:38 | `replace(/\s+/g, ' ')` leaves no two whitespace characters in a row, only ' ' as whitespace, and is empty or starts with whitespace exactly when its input is |
| Text.NonSpaceOfTrimStart | App.tsx:38 | dropping leading whitespace keeps the text |
| Text.CollapseKeepsText | App.tsx:38 | collapsing whitespace keeps every other character, in order |
| Text.TrimStartAppend | App.tsx:38 | leading whitespace of a text ending in a non-space is dropped before anything appended to it |
| Text.TrimStartRun | App.tsx:38 | a whitespace run followed by a non-space, or by nothing, is dropped entirely |
| Text.CollapseLast | App.tsx:38 | collapsing keeps a final non-space character last |
| Text.CollapseAppend | App.tsx:38 | when the first part ends in a non-space, the two parts of a text collapse separately |
| Text.CollapseAppendSpace | App.tsx:38 | the same, when the first part starts with whitespace |
| Text.CollapseAppendWord | App.tsx:38 | the same, when the first part starts with a non-space |
| Text.CollapseSpaceStep | App.tsx:38 | a leading whitespace run becomes one ' ' in front of the collapse of the rest |
| Text.CollapseWordStep | App.tsx:38 | a leading non-space character is kept in front of the collapse of the rest |
| Text.TrimStartNonEmpty | App.tsx:38 | dropping the leading whitespace of a text that ends in a non-space leaves a shorter text with the same last character |
| Text.CollapseRun | App.tsx:38 | a whitespace run becomes exactly one ' ' |
| Text.CollapseGap | App.tsx:38 | the whitespace before a non-space character becomes one ' ', or nothing when there is none |
| Text.CollapseBetween | App.tsx:38 | collapsing `p + c + w + d + q` (c, d non-space, w all whitespace) is collapsing `p + c`, then one ' ' when w is not empty, then d, then collapsing q: the pair stays in its own place, one ' ' apart or adjacent when nothing was between them |
| Text.CollapseBefore | App.tsx:38 | collapsing text that ends in a non-space character ends in that character, and the text before it keeps the same non-space characters |
| Text.TrimAround | App.tsx:38 | trimming a string `u + m + v` whose middle m starts and ends with non-space characters gives `u' + m + v'`, where u' and v' have the same non-space characters as u and v |
| Text.TrimAroundSlice | App.tsx:38 | the trimmed string is the tail of u, then m, then the head of v |
| Text.TrimAroundText | App.tsx:38 | the whitespace trimmed off u and v holds no text |
| Text.TrimBounds | App.tsx:38 | trimming stops before a non-space middle and is the slice between the leading and trailing whitespace runs |
| Text.KeepAfterBlank | App.tsx:38 | dropping a leading whitespace run keeps the text |
| Text.KeepBeforeBlank | App.tsx:38 | dropping a trailing whitespace run keeps the text |
| Text.NonSpaceSplit | App.tsx:38 | the text of a string is the text of its head followed by the text of its tail |
| Text.NoTextBeforeStart | App.tsx:38 | in a string that does not start with whitespace, a prefix with no text is empty |
| Text.TrimKeepsInner | components/OrderImport.tsx:81 | trimming keeps every stretch of text between two non-space characters |
| Text.ContainsTrimmed | components/OrderImport.tsx:81 | a piece of text with non-space ends survives trimming |
| Text.SliceNoDoubleSpace | App.tsx:38 | a slice of a string without double whitespace has none |
| Text.TrimWellSpaced | App.tsx:38 | trimming a collapsed string leaves a well-spaced one: no outer and no double whitespace |
| Text.SpaceRunEndIs | App.tsx:38 | a whitespace run from `i` that stops at a non-space, or at the end, ends at that index |
| Text.StripSampleRemoves | components/OrderImport.tsx:81 | `replace(/^sample\s*-\s*/gi, '')` on "sample" in any case, whitespace, "-", whitespace and then text starting with a non-space gives exactly that text, so "Sample - Rose" becomes "Rose" |
| Text.StripSampleOnlyPrefix | App.tsx:38 | the strip changes a text only when it has such a prefix, and then leaves exactly the text after it; any other text is returned unchanged |
| Text.SampleSplitAt | App.tsx:38 | cutting a text after "sample", at the "-" and at the ends of the whitespace runs gives the parts of such a prefix |
| Text.StripSampleSuffix | App.tsx:38 | the "sample -" strip returns a suffix of its input, and anything removed began with "sample" in some letter case followed by at least "-" |
| Text.Digits | components/OrderImport.tsx:80 | `replace(/\D/g, '')` gives only digits and is empty exactly when the input has no digit; with `Text.DigitsAppend` and `Text.DigitsOfChar` it is the input's digits in their order |
| Text.DigitsAppend | components/OrderImport.tsx:80 | dropping non-digits distributes over concatenation, so the digits keep their order |
| Text.DigitsOfChar | components/OrderImport.tsx:80 | a single digit is kept and any other single character is dropped |
| Text.DigitsOfDigits | components/OrderImport.tsx:80 | a string of digits is left as it is |
| Text.DigitsBetween | components/OrderImport.tsx:80 | a numeral between two texts without digits is all that `replace(/\D/g, '')` keeps |
| Text.HasDigitTail | components/OrderImport.tsx:80 | a string has a digit exactly when its first character is one or its tail has one |
| Text.RemoveChar | App.tsx:63 | `replace(/"/g, '')` removes every double quote and keeps every other character; with `Text.RemoveCharAppend` and `Text.RemoveCharOfChar` the kept characters are the input's other characters, each once, in order |
| Text.RemoveCharAppend | App.tsx:63 | removing a character distributes over concatenation, so the kept characters keep their order |
| Text.RemoveCharOfChar | App.tsx:63 | a single character is dropped exactly when it is the removed one |
| Text.StripQuotes | components/OrderImport.tsx:75 | `/^["']\|["']$/g` removes one leading `"` or `'` when the text starts with one, then one trailing quote when one is left after that, and nothing else: the result is exactly the input between those ends, and a non-quote end is kept |
| Text.DigitRun | components/OrderImport.tsx:82 | the leading digit run: all digits, followed by a non-digit or the end |
| Text.FirstNumber | components/OrderImport.tsx:82 | `match(/(\d+(\.\d+)?)/)[0]` is "" exactly when there is no digit; otherwise it is a decimal numeral starting at the input's first digit (no digit before it) that cannot be extended by one more digit, nor by a point and a digit when it has no point: the leftmost, longest match |
| Text.NumberShift | components/OrderImport.tsx:82 | a leading non-digit moves the leftmost longest match one place right and changes nothing else about it |
| Text.DecimalAtStart | components/OrderImport.tsx:82 | digits, a point and digits at the start of a string form a decimal numeral there |
| Text.DigitsAfterPoint | components/OrderImport.tsx:82 | the run after the point is all digits |
| Text.DigitRunOfDigit | components/OrderImport.tsx:82 | a string starting with a digit has a digit run of length at least one |
| Text.DecimalOfParts | components/OrderImport.tsx:82 | digits, a point and a non-empty run of digits make a decimal numeral |
| Text.IntegerAtStart | components/OrderImport.tsx:82 | a leading digit run is a decimal numeral at the start |
| Text.DigitRunOfPrefix | components/OrderImport.tsx:82 | a prefix that contains the digit run has the same digit run |
| Text.RemoveFirst | App.tsx:80 | `replace('ml', '')`: when the pattern occurs, the result is the text with the occurrence at the least index holding it cut out, and the length drops by the pattern's length; when it does not occur, the text is unchanged |
| Text.FirstShift | App.tsx:80 | when the text does not start with the pattern, the first occurrence in its tail is, one place on, the first occurrence in the text |
| Text.RemoveFirstHead | App.tsx:80 | an occurrence at the start is the first one, and cutting it leaves the rest of the text |
| Text.RemoveFirstStep | App.tsx:80 | the cut in the tail, with the first character put back, is the cut of the first occurrence in the text |
| Text.RemoveFirstCons | App.tsx:80 | with no occurrence at the start, the removal in the tail with the first character put back meets the whole contract of the removal |
| Text.ContainsShift | App.tsx:80 | when no occurrence starts at 0, an occurrence exists exactly when it exists in the tail |
| Text.Split | App.tsx:62 | `split(c)` gives at least one part, and no part contains the separator |
| Text.SplitJoin | App.tsx:62 | joining the parts with the separator gives back the text |
| Text.SplitLines | components/OrderImport.tsx:69 | `split(/\r?\n/)` gives one line per '\n'-separated part of the text, at least one; no line contains '\n', and each part is its line followed by the '\r' dropped before the next '\n', if any |
| Text.SplitLinesJoin | components/OrderImport.tsx:69 | putting back the dropped '\r's and joining the lines with '\n' gives back the text |
| Text.ParseInt | components/OrderImport.tsx:79 | `parseInt(s, 10)` is NaN exactly when no digit follows the leading whitespace and optional sign; its value otherwise is pinned by `Text.ParseIntOfDigits` and `Text.ParseIntOfPadded` |
| Text.NatToString | components/OrderImport.tsx:79 | a natural number's numeral is a non-empty digit string |
| Text.DecimalOfNatToString | components/OrderImport.tsx:79 | the value of a number's numeral is the number |
| Text.ParseIntOfNatToString | components/OrderImport.tsx:79 | `parseInt` reads a number's numeral back as that number |
| Text.ParseIntOfNegative | components/OrderImport.tsx:79 | `parseInt` reads "-" followed by n's numeral as -n |
| Text.ParseIntOfDigits | components/OrderImport.tsx:79 | whitespace, then "", "+" or "-", then a digit run, then anything not starting with a digit, reads as the run's decimal value, negated after "-" |
| Text.ParseIntOfPadded | components/OrderImport.tsx:79 | the same with leading zeros before n's numeral: such an input reads as n, or -n after "-" |
| Text.ParseIntSteps | components/OrderImport.tsx:79 | given the trimmed text, the text after the sign and its digit run, parseInt returns that run's value with the sign applied |
| Text.SignThenDigits | components/OrderImport.tsx:79 | an optional sign in front of a digit is stripped and is negative exactly when it is "-" |
| Text.DigitRunAppend | components/OrderImport.tsx:79 | the digit run of digits followed by more text extends over all those digits |
| Text.DecimalOfZeros | components/OrderImport.tsx:79 | a run of '0's is digits with value 0 |
| Text.DecimalLeadingZeros | components/OrderImport.tsx:79 | leading zeros do not change a numeral's value |
| Text.AllDigitsRun | components/OrderImport.tsx:79 | the digit run of an all-digit string is all of it |
| Text.RemoveFrom | App.tsx:30-37 | the global whole-word scan never lengthens the text and shortens it when a whole-word match exists |
| Text.RemoveWholeWord | App.tsx:30-37 | whole-word, case-insensitive removal never lengthens the text |
| Text.RemoveFromUnmatched | App.tsx:30-37 | with no match from position `i` on, the scan keeps the rest of the text |
| Text.RemoveWholeWordChanges | App.tsx:30-37 | removal changes the text exactly when the word occurs in it as a whole word |
| Normalizer.LookupAlias | App.tsx:40-42 | the alias loop finds a value exactly when some key lower-cases to the text, and then returns the value of the first such key |
| Normalizer.PreprocessText | App.tsx:11-44 | the loops over brands and phrases, the collapse, the prefix strip, the trim and the early-return alias scan compute the normaliser's result |
| Normalizer.CleanedWellSpaced | App.tsx:38 | the cleaned text has no outer whitespace and no two whitespace characters in a row |
| Normalizer.PreprocessShape | App.tsx:11-44 | "" gives ""; otherwise the result is either an alias value taken verbatim when the lower-cased cleaned text matches its key, or the well-spaced cleaned text |
| Normalizer.LowerOfLowercase | App.tsx:41 | a string without upper-case letters is its own lower case |
| Normalizer.BaccaratRougeAlias | App.tsx:25-28 | with the built-in table, text whose cleaned form lower-cases to "baccarat rouge" becomes "Baccarat Rouge 540" |
| Normalizer.BaccaratRougeAnyCase | App.tsx:25-28 | so does text that cleans to "baccarat rouge" with any of its letters in capitals, such as "BACCARAT ROUGE" |
| Settings.Appended | components/SettingsModal.tsx:44-49 | the list grows by one exactly when the trimmed input is non-empty, and then ends with the trimmed input; the old entries stay in front |
| Settings.AppendedEntryTrimmed | components/SettingsModal.tsx:46 | an added entry is non-empty and already trimmed |
| Settings.RemoveAt | components/SettingsModal.tsx:67 | removing by index shortens the list by one exactly when the index is in range |
| Settings.RemoveAtSpec | components/SettingsModal.tsx:66-72 | removal by index drops exactly that position and keeps the others in order; an out-of-range index removes nothing |
| Settings.RemoveAppended | components/SettingsModal.tsx:44-68 | removing the entry just added gives back the list |
| Settings.PutAlias | components/SettingsModal.tsx:58-64 | with a non-blank key and value, the trimmed value is stored under the lower-cased trimmed key; every other key is unchanged, and a blank key or value changes nothing |
| Settings.RemoveKey | components/SettingsModal.tsx:74-80 | the key is gone and every other entry is unchanged |
| Settings.AliasKeyNormal | components/SettingsModal.tsx:60 | a stored key is already in normal form |
| Settings.PutThenRemove | components/SettingsModal.tsx:58-80 | adding an alias and then removing its key equals removing the key |
| Settings.SettingsEditor.constructor | components/SettingsModal.tsx:25-32 | the local copies start as the incoming settings and the inputs start empty |
| Settings.SettingsEditor.Reset | components/SettingsModal.tsx:34-40 | opening restores the three local copies from the incoming settings and leaves the inputs alone; a closed editor changes nothing |
| Settings.SettingsEditor.AddBrand | components/SettingsModal.tsx:44-49 | the brand list becomes `Appended`, the input is cleared only when something was added, and nothing else changes |
| Settings.SettingsEditor.AddWord | components/SettingsModal.tsx:51-56 | the same on the remove-word list |
| Settings.SettingsEditor.AddAlt | components/SettingsModal.tsx:58-64 | the dictionary becomes `PutAlias`, and both inputs are cleared exactly when both were non-blank |
| Settings.SettingsEditor.RemoveBrand | components/SettingsModal.tsx:66-68 | the brand list loses the entry at the index; nothing else changes |
| Settings.SettingsEditor.RemoveWord | components/SettingsModal.tsx:70-72 | the same on the remove-word list |
| Settings.SettingsEditor.RemoveAlt | components/SettingsModal.tsx:74-80 | the key is deleted from a copy that replaces the dictionary |
| OrderImport.EnsureTrailingBlank | components/OrderImport.tsx:40-50 | the result is non-empty and ends in a blank row; it is the input or the input plus one blank row, and it is the input exactly when the input ends in a blank row |
| OrderImport.EnsureTrailingBlankIdempotent | components/OrderImport.tsx:40-50 | restoring the trailing blank twice is restoring it once |
| OrderImport.OrderNumbers | components/OrderImport.tsx:61 | the order-number column of the rows |
| OrderImport.Annotate | components/OrderImport.tsx:58-66 | one annotated row per row, in order, each holding its own row |
| OrderImport.OrderNumbersSnoc | components/OrderImport.tsx:60 | the column of one more row is the old column and that row's number |
| OrderImport.OrderNumbersPrefix | components/OrderImport.tsx:60 | the column of a prefix is the prefix of the column |
| OrderImport.LastOrderSnoc | components/OrderImport.tsx:61-63 | one more row replaces the carried number by its own trimmed number when that is non-empty |
| OrderImport.AnnotateSnoc | components/OrderImport.tsx:58-66 | annotating one more row appends it with its own number, or else the carried one |
| OrderImport.AnnotatePrefix | components/OrderImport.tsx:58-66 | the annotation of a prefix is the prefix of the annotation, so a row's effective order depends only on the rows up to it |
| OrderImport.LastOrderEmpty | components/OrderImport.tsx:59-63 | the carried number is "" exactly when every number so far trims to "" |
| OrderImport.BlankEntriesSnoc | components/OrderImport.tsx:61-63 | a blank last number leaves the all-blank test to the rows before it |
| OrderImport.LastOrderOwn | components/OrderImport.tsx:62-63 | a row with its own number carries that number |
| OrderImport.LastOrderCarried | components/OrderImport.tsx:62-63 | a row without one carries the number from before it |
| OrderImport.NearestAtExtend | components/OrderImport.tsx:62-63 | the nearest numbered row stays the nearest after a blank row |
| OrderImport.LastOrderNearest | components/OrderImport.tsx:59-63 | a non-empty carried number is the trimmed number of the nearest row that has one, every later row having none |
| OrderImport.ScanStep | components/OrderImport.tsx:60-65 | one step of the scan extends both the annotation and the carried number |
| OrderImport.EffectiveOrderAt | components/OrderImport.tsx:61-64 | row k's effective order is its own trimmed number if non-empty, else the number carried from rows 0..k-1 |
| OrderImport.CarriedEmpty | components/OrderImport.tsx:59-63 | the number carried into row k is "" exactly when no earlier row has a number of its own |
| OrderImport.EffectiveOrderEmpty | components/OrderImport.tsx:61-64 | a row's effective order is "" exactly when neither it nor any earlier row has a number |
| OrderImport.EffectiveOrders | components/OrderImport.tsx:58-66 | the scan with its mutable `lastOrder` computes `Annotate` |
| OrderImport.OutsideGroup | components/OrderImport.tsx:156-161 | the group filter keeps at most all the rows |
| OrderImport.OutsideGroupMembers | components/OrderImport.tsx:156-161 | a row survives exactly when it is a row whose effective order is not the target |
| OrderImport.OutsideGroupNone | components/OrderImport.tsx:156-161 | with no row in the group, every row is kept in order |
| OrderImport.OutsideGroupStep | components/OrderImport.tsx:157-160 | one step of the filter's own scan keeps the row exactly when its recomputed effective order differs from the target |
| OrderImport.DeleteGroupFilter | components/OrderImport.tsx:155-161 | the filter with its own `currentLastOrder` keeps exactly the rows whose effective order over the original list differs from the target |
| OrderImport.NonBlankLinesMembers | components/OrderImport.tsx:69 | the lines kept are exactly the lines that do not trim to "" |
| OrderImport.NonBlankLinesAppend | components/OrderImport.tsx:69 | the blank-line filter distributes over concatenation, so the kept lines keep their order and their repetitions |
| OrderImport.NonBlankLinesSnoc | components/OrderImport.tsx:69 | one more line is kept at the end exactly when it does not trim to "" |
| OrderImport.NonBlankLinesOfLine | components/OrderImport.tsx:69 | a single line is kept exactly when it does not trim to "" |
| OrderImport.Columns | components/OrderImport.tsx:73 | a line with a tab gives columns without tabs; any other line gives columns without commas |
| OrderImport.CleanColumn | components/OrderImport.tsx:75 | a cleaned column has no outer whitespace |
| OrderImport.OrderDigits | components/OrderImport.tsx:80 | the order number is `Text.Digits` of the name, its digits in order, when it has any, else the name itself |
| OrderImport.OrderDigitsOfName | components/OrderImport.tsx:80 | a name such as "#1001", a numeral with digit-free text around it, gives the numeral alone |
| OrderImport.CleanTitle | components/OrderImport.tsx:81 | the title is well spaced and keeps the text of the title with any "sample -" prefix removed (`Text.StripSampleRemoves`, `Text.StripSampleOnlyPrefix`); where each pair of words stays is stated by `OrderImport.CleanTitleSpacing` and `OrderImport.CleanTitleFirstGap` |
| OrderImport.CleanTitleOfSample | components/OrderImport.tsx:81 | a "Sample - " title keeps exactly the text after the prefix |
| OrderImport.CleanTitleSpacing | components/OrderImport.tsx:81 | no two words are joined and no gap grows: two non-space characters with only whitespace between them are one ' ' apart in the title, or adjacent when nothing was between them, at their own place, with the text before and after them in the title being the text before and after them in the input |
| OrderImport.CleanTitleFirstGap | components/OrderImport.tsx:81 | a title that starts with two non-space characters and the whitespace between them starts with that pair and one ' ' (or none), so "a b a b" does not clean to a title starting "ab" |
| OrderImport.ParseLine | components/OrderImport.tsx:73-83 | a line is skipped exactly when it has fewer than three columns |
| OrderImport.Repeat | components/OrderImport.tsx:84-86 | n copies of one row |
| OrderImport.ParseAll | components/OrderImport.tsx:72 | each line is parsed on its own, in order |
| OrderImport.WithIds | components/OrderImport.tsx:85 | each pushed row gets the next fresh id and the parsed cell values |
| OrderImport.WithIdsSnoc | components/OrderImport.tsx:85 | one more row gets the id after the last |
| OrderImport.EntriesStep | components/OrderImport.tsx:72-87 | the rows of one more line follow the rows of the lines before it |
| OrderImport.WithIdsAppend | components/OrderImport.tsx:72-87 | ids keep counting across two groups of rows |
| OrderImport.PushCopy | components/OrderImport.tsx:85 | one more push extends the copies with the next id |
| OrderImport.PushCopies | components/OrderImport.tsx:84-86 | the quantity loop appends n copies with consecutive ids |
| OrderImport.PushLine | components/OrderImport.tsx:73-86 | the per-line callback appends the rows of the parsed line, or nothing for a skipped line |
| OrderImport.ImportListOf | components/OrderImport.tsx:88 | the pushed rows with the trailing blank restored are the import list |
| OrderImport.LineStep | components/OrderImport.tsx:72-87 | the callback on line j extends the rows of lines 0..j-1 to those of 0..j |
| OrderImport.PushLines | components/OrderImport.tsx:71-87 | the loop over the lines pushes exactly the rows of all parsed lines, with consecutive ids |
| OrderImport.ProcessCSV | components/OrderImport.tsx:68-89 | the importer gives `ImportRows`: nothing for a text without a non-blank line, else the pushed rows followed by the trailing blank |
| OrderImport.ImportNoneIffBlank | components/OrderImport.tsx:69-70 | the import leaves the list alone exactly when every line trims to "" |
| OrderImport.EntriesSnoc | components/OrderImport.tsx:72-87 | the rows of one more line go at the end |
| OrderImport.EntriesAppend | components/OrderImport.tsx:72-87 | the rows of two groups of lines are concatenated, so rows keep line order |
| OrderImport.EntriesFromLines | components/OrderImport.tsx:72-87 | every imported row is the row of some accepted line |
| OrderImport.ParsedRowClean | components/OrderImport.tsx:75-83 | an accepted line gives a well-spaced title, a size that is "" or a decimal numeral, and an order number that is a digit string or has no digit |
| OrderImport.EntryClean | components/OrderImport.tsx:75-83 | every row the lines contribute is clean in that sense |
| OrderImport.ImportedRowShape | components/OrderImport.tsx:68-89 | every row of an import result is clean, the trailing blank included |
| OrderImport.QuantityOfNumeral | components/OrderImport.tsx:79 | without a fourth column a line gives one copy, a fourth column holding n's numeral gives n copies, and one holding -n gives none (the loop of line 84 does not run) |
| OrderImport.QuantityOfPadded | components/OrderImport.tsx:79 | a fourth column such as " 3 pcs", "+2" or "007" (whitespace, a sign, leading zeros, n's numeral, then anything not starting with a digit) gives n copies, and with "-" none |
| OrderImport.ImportListIds | components/OrderImport.tsx:85 | the imported rows and the trailing blank carry consecutive ids from the first fresh id |
| OrderImport.ImportIds | components/OrderImport.tsx:68-89 | an import result is non-empty, ends in a blank row, and has ids counting up from the first fresh id |
| OrderSync.ValidRows | components/OrderImport.tsx:104 | the rows kept for sync are exactly the rows with a non-empty field |
| OrderSync.Payload | components/OrderImport.tsx:111-121 | one entry per valid row, built by the entry rule |
| OrderSync.SentOrders | components/OrderImport.tsx:117 | the posted order-number column |
| OrderSync.SyncNoneIffEmpty | components/OrderImport.tsx:104-108 | nothing is posted exactly when every row is all-empty |
| OrderSync.Rows | components/OrderImport.tsx:104 | the rows under their annotations |
| OrderSync.ValidRowsSnoc | components/OrderImport.tsx:104 | the filter keeps one more row at the end when it has content |
| OrderSync.RowsAppend | components/OrderImport.tsx:104 | taking rows distributes over concatenation |
| OrderSync.ContentRowsSnoc | components/OrderImport.tsx:104 | the rows with content of one more row |
| OrderSync.RowsLast | components/OrderImport.tsx:104 | the rows of a list split off its last row |
| OrderSync.ValidRowsLast | components/OrderImport.tsx:104 | the filter applied to the rows before the last, then the last row if it has content |
| OrderSync.RowsOfValid | components/OrderImport.tsx:104 | filtering annotated rows keeps exactly the rows with content, in order |
| OrderSync.ValidRowsOfAnnotate | components/OrderImport.tsx:104 | the valid rows are exactly the list's rows with content, in order |
| OrderSync.PayloadRows | components/OrderImport.tsx:111-121 | a payload has one entry per row, the date on entry 0 only, and each row's title and size |
| OrderSync.PayloadColumns | components/OrderImport.tsx:103-121 | the payload has one entry per row with content, the date only on the first entry, and each row's title and size |
| OrderSync.PayloadOrderCell | components/OrderImport.tsx:112-117 | an order cell is "" exactly when the effective order is "" or repeats the previous valid row's; otherwise it is the effective order and differs from the cell above |
| OrderSync.LastOrderTrimmed | components/OrderImport.tsx:61-63 | a carried order number is already trimmed |
| OrderSync.AnnotateTrimmed | components/OrderImport.tsx:58-66 | every effective order is trimmed |
| OrderSync.AnnotateEmptyOnlyFirst | components/OrderImport.tsx:58-66 | once a row has an effective order, every later row has one |
| OrderSync.ValidRowsTrimmed | components/OrderImport.tsx:104 | the valid rows keep trimmed effective orders |
| OrderSync.ValidRowsLastEmpty | components/OrderImport.tsx:104 | when the last row has no effective order, neither has any kept row before it |
| OrderSync.ValidRowsEmptyOnlyFirst | components/OrderImport.tsx:104 | the valid rows keep the empty-only-at-the-start property |
| OrderSync.CarryStep | components/OrderImport.tsx:112-117 | a blank cell continues the run above it and a written cell is the row's own order |
| OrderSync.SentCell | components/OrderImport.tsx:112-117 | each posted order cell, read with the row above recovered, gives the row's effective order |
| OrderSync.ReadBackAt | components/OrderImport.tsx:111-121 | carrying numbers forward over the posted column recovers each valid row's effective order |
| OrderSync.CarryColumn | components/OrderImport.tsx:59-63 | when each cell read with the value above gives the next value, the carry-forward at each row gives that row's value |
| OrderSync.CarryNext | components/OrderImport.tsx:59-63 | one row of that induction |
| OrderSync.LastOrderStep | components/OrderImport.tsx:61-63 | the carried number after one more cell of a column |
| OrderSync.SyncRoundTrip | components/OrderImport.tsx:103-121 | a reader of the sheet who fills blank order cells from the row above recovers every posted row's effective order |
| OrderEdits.DistinctSnoc | components/OrderImport.tsx:85 | a row with a new id keeps ids distinct |
| OrderEdits.EnsureTrailingBlankIds | components/OrderImport.tsx:40-50 | a trailing blank with a fresh id keeps the ids distinct and below the next bound |
| OrderEdits.SetField | components/OrderImport.tsx:134 | `{ ...item, [field]: value }` reads back `value` in that field and keeps the id and the other fields |
| OrderEdits.Edited | components/OrderImport.tsx:134 | every row with the id has the field set, and every other row and field is unchanged |
| OrderEdits.RowsEqual | components/OrderImport.tsx:134 | rows agreeing on the id and every field are equal |
| OrderEdits.EditedUnchanged | components/OrderImport.tsx:134 | editing an absent id, or writing a field's current value, changes no row |
| OrderEdits.EditedIds | components/OrderImport.tsx:134-135 | editing keeps ids distinct and below the bound |
| OrderEdits.RemoveId | components/OrderImport.tsx:143 | the id filter keeps at most all the rows |
| OrderEdits.RemoveIdMembers | components/OrderImport.tsx:143 | the filter keeps exactly the rows with another id |
| OrderEdits.RemoveIdSnoc | components/OrderImport.tsx:143 | the filter on one more row |
| OrderEdits.RemoveIdAppend | components/OrderImport.tsx:143 | the filter distributes over concatenation, so the surviving rows keep their order |
| OrderEdits.RemoveIdAbsent | components/OrderImport.tsx:143 | filtering an absent id changes nothing |
| OrderEdits.RemoveIdMiddle | components/OrderImport.tsx:143 | a row whose id no other row has is removed from between the rest |
| OrderEdits.RemoveIdAt | components/OrderImport.tsx:143 | with distinct ids, removing row k's id removes row k and only it |
| OrderEdits.RemoveIdUnique | components/OrderImport.tsx:143 | removing an id only row k has removes exactly row k |
| OrderEdits.SplitAround | components/OrderImport.tsx:143 | a list is the rows before k, row k and the rows after |
| OrderEdits.AroundDiffers | components/OrderImport.tsx:143 | the rows around a row with a unique id have other ids |
| OrderEdits.RemoveIdIds | components/OrderImport.tsx:143 | the filter keeps ids distinct and below the bound |
| OrderEdits.DeleteRowAt | components/OrderImport.tsx:138-144 | with distinct ids, deleting row k of a longer list removes exactly that row, keeping the others in order, then restores the trailing blank |
| OrderEdits.DeleteGroupKeeps | components/OrderImport.tsx:146-162 | apart from the fresh blank row, a row remains exactly when it is a row of the list whose effective order, over the original list, is not the target |
| OrderEdits.OutsideGroupIds | components/OrderImport.tsx:156-161 | the rows that survive keep distinct ids |
| OrderEdits.DeleteGroupIds | components/OrderImport.tsx:154-162 | the group delete keeps ids distinct and below the next bound |
| OrderEdits.SpliceStart | components/OrderImport.tsx:184 | `splice`'s start: the index itself in range, counted from the end when negative, clamped to the list |
| OrderEdits.InsertAt | components/OrderImport.tsx:183-184 | the new row sits at the start position, earlier rows stay and later rows move up by one |
| OrderEdits.InsertAtRemoved | components/OrderImport.tsx:183-184 | removing the inserted row gives back the list, so the original rows keep their relative order |
| OrderEdits.AddRowAtEnd | components/OrderImport.tsx:181-186 | inserting at or past the end appends the blank, and no second blank is added |
| OrderEdits.InsertAtIds | components/OrderImport.tsx:182-184 | an insert with a fresh id keeps the ids distinct |
| OrderEdits.AddRowAtIds | components/OrderImport.tsx:181-186 | an insert with two fresh ids keeps the ids distinct and below the next bound |
| OrderEdits.Filtered | components/OrderImport.tsx:188-192 | the search keeps at most all the rows; order and repetitions by `OrderEdits.FilteredAppend` |
| OrderEdits.FilteredMembers | components/OrderImport.tsx:188-192 | the table shows exactly the rows whose lower-cased title contains the lower-cased term, or whose order number or effective order contains the term |
| OrderEdits.FilteredEmptyTerm | components/OrderImport.tsx:188-192 | an empty search shows every row |
| OrderEdits.FilteredAppend | components/OrderImport.tsx:188-192 | the search distributes over concatenation, so the shown rows keep their order and their repetitions |
| OrderEdits.FilteredSnoc | components/OrderImport.tsx:188-192 | one more row is shown at the end exactly when it matches the search |
| OrderEdits.FilteredOfRow | components/OrderImport.tsx:188-192 | a single row is shown exactly when it matches the search |
| OrderEdits.PositionOf | components/OrderImport.tsx:181-186 | the position of the first row with the id, or the length when none has it |
| OrderEdits.ShownInList | components/OrderImport.tsx:263 | a shown row is a row of the list |
| OrderEdits.AddRowAboveShownPlaced | components/OrderImport.tsx:275 | the corrected insert puts the blank row right above the row shown at the view index |
| OrderEdits.AddRowAbovePlaced | components/OrderImport.tsx:181-186 | inserting at a row's position puts the blank row right above it |
| OrderEdits.AddRowAtPlaced | components/OrderImport.tsx:181-186 | an insert inside the list puts the blank at that position, right above the row that was there |
| OrderEdits.AddRowAboveIds | components/OrderImport.tsx:181-186 | the corrected insert keeps the ids distinct |
| OrderEdits.AddRowUnfiltered | components/OrderImport.tsx:275 | with an empty search and distinct ids, the two inserts agree |
| OrderEdits.TrimDigit | components/OrderImport.tsx:61 | a one-digit string is its own trim |
| OrderEdits.RoseAnnotated | components/OrderImport.tsx:58-66 | rows #1 "a" and #2 "rose" get effective orders "1" and "2" |
| OrderEdits.RoseFiltered | components/OrderImport.tsx:188-192 | the search "rose" shows only the second row |
| OrderEdits.TwoRowInserts | components/OrderImport.tsx:184 | in a two-row list, splicing at 0 puts the first row after the new one, and splicing at the second row's position puts the second row after it |
| OrderEdits.AddRowAtViewIndexMisplaced | components/OrderImport.tsx:275 | with the search "rose", the button passes view index 0, and `addRowAt(0)` puts the new row above row #1, not above the shown row; the corrected insert puts it above the shown row |
| OrderStore.ConsecutiveIds | components/OrderImport.tsx:85 | rows numbered consecutively have distinct ids below the next one |
| OrderStore.ImportValid | components/OrderImport.tsx:68-89 | an import result has distinct ids below its next fresh id |
| OrderStore.InsertBlank | components/OrderImport.tsx:181-186 | the splice computes `AddRowAt` and keeps the ids distinct |
| OrderStore.InsertAbove | components/OrderImport.tsx:275 | the corrected splice computes `AddRowAbove` and keeps the ids distinct |
| OrderStore.OrderList.constructor | App.tsx:52 | an empty list with the counter at 0 |
| OrderStore.OrderList.Mount | components/OrderImport.tsx:52-56 | an empty list gets one blank row; a non-empty one is left alone |
| OrderStore.OrderList.Import | components/OrderImport.tsx:68-89 | the list becomes the import result, or is left alone for a text of blank lines; ids stay distinct |
| OrderStore.OrderList.UpdateCell | components/OrderImport.tsx:133-136 | the list becomes `UpdateCell`, and ids stay distinct |
| OrderStore.OrderList.DeleteRow | components/OrderImport.tsx:138-144 | the list becomes `DeleteRow`, and ids stay distinct |
| OrderStore.OrderList.DeleteGroup | components/OrderImport.tsx:146-166 | an empty target changes nothing; otherwise the list becomes `DeleteGroup`, and ids stay distinct |
| OrderStore.OrderList.ClearAll | components/OrderImport.tsx:168-179 | the list becomes one fresh blank row |
| OrderStore.OrderList.AddRowAt | components/OrderImport.tsx:181-186 | the list becomes `AddRowAt` with two fresh ids, and ids stay distinct |
| OrderStore.OrderList.AddRowAbove | components/OrderImport.tsx:275 | the corrected insert, with two fresh ids, and ids stay distinct |
| OrderStore.OrderList.Sync | components/OrderImport.tsx:103-121 | the sync computes `SyncPayload`: nothing when no row has content, else the payload |
| OrderStore.OrderList.Search | components/OrderImport.tsx:188-192 | the search computes the filtered annotated rows |
| Labels.SizeKey | App.tsx:79-82 | a size is counted exactly when it is non-empty and its lower-cased, "ml"-stripped, trimmed part is non-empty, under that part followed by "ml" |
| Labels.CountKey | App.tsx:76-86 | the rows counted under a key are at most all rows |
| Labels.Counted | App.tsx:76-86 | the counted rows are at most all rows |
| Labels.SizeCounts | App.tsx:76-86 | the counting loop computes `Counts` |
| Labels.CountsStep | App.tsx:78-84 | one more row bumps its key, if any |
| Labels.CountsKey | App.tsx:83 | a key is present exactly when some row is counted under it, and its value is the number of such rows |
| Labels.CountsKeyShape | App.tsx:82 | every key comes from some row and ends in "ml" |
| Labels.CountKeyWitness | App.tsx:83 | a positive count has a row behind it |
| Labels.TotalRemove | App.tsx:83 | the sum of a count record is any key's count plus the sum of the rest |
| Labels.TotalBump | App.tsx:83 | a bump adds one to the sum |
| Labels.CountsTotal | App.tsx:76-86 | the counts add up to the number of counted rows, so to at most the number of rows |
| Labels.SheetCells | App.tsx:63 | a sheet row's cells are its comma-separated parts with double quotes removed, trimmed |
| Labels.RowOrder | App.tsx:65-67 | a row contributes a non-empty digit string, if anything |
| Labels.RowOrders | App.tsx:62 | each row's order number, in order |
| Labels.ParseExistingOrders | App.tsx:61-69 | the loop over the sheet's rows collects `OrdersOf` |
| Labels.PresentStep | App.tsx:67 | one more row adds its order number, if it has one |
| Labels.PresentMembers | App.tsx:67 | a number is in the set exactly when some row gives it |
| Labels.ExistingOrderShape | App.tsx:62-69 | every number in the set is a non-empty digit string: the digits of cell 1 of some row |
| Labels.SheetNames | App.tsx:122-132 | the sheet's names of a size are all non-empty; `Labels.SheetNamesMembers` says which rows give them |
| Labels.SheetNamesSnoc | App.tsx:122-132 | one more entry adds its name when it is a row of at least three cells with a non-empty name and the target size |
| Labels.SheetNamesAppend | App.tsx:122-132 | picking names distributes over concatenation, so names keep row order |
| Labels.SheetNamesMembers | App.tsx:122-132 | a name is taken exactly when some row has at least three cells, that non-empty normalised name and a first number equal to the target |
| Labels.EntryNamesMembers | App.tsx:129-132 | over the read entries: a name is taken exactly when some entry has that non-empty name and the target size |
| Labels.SheetNameFrom | App.tsx:129-132 | a taken name comes from such an entry |
| Labels.SheetNameOf | App.tsx:129-132 | such an entry's name is taken |
| Labels.MatchingTitlesSnoc | App.tsx:112-118 | one more row adds its title when it matches |
| Labels.MatchingTitlesAppend | App.tsx:112-118 | picking distributes over concatenation, so titles keep row order |
| Labels.MatchingTitlesMembers | App.tsx:112-118 | a title is picked exactly when some row that is not all-empty and whose lower-cased trimmed size is the target has it |
| Labels.MatchingTitleFrom | App.tsx:112-118 | a picked title comes from a matching row |
| Labels.MatchingTitleOf | App.tsx:112-118 | a matching row's title is picked |
| Labels.SetMin | App.tsx:140 | a non-empty set of cell numbers has a least element |
| Labels.SortedIndices | App.tsx:140 | the sort gives the selected cells, each once, in strictly increasing order |
| Labels.Assign | App.tsx:141-146 | the placing loop computes `Assigned` |
| Labels.AssignedAt | App.tsx:142-146 | with distinct targets, a cell holds the name placed on it, or keeps its old entry when none is |
| Labels.Below | App.tsx:140 | the selected cells below a cell |
| Labels.PrefixSetSize | App.tsx:140 | the first i entries of a strictly sorted list are i distinct cells |
| Labels.RankInSorted | App.tsx:140 | position i of the sorted selection has exactly i selected cells below it |
| Labels.MappedAfter | App.tsx:141-146 | the new mapping has a cell exactly when the old one has it or the cell gets a name |
| Labels.AssignedIsMappedAfter | App.tsx:140-146 | placing names on the sorted selection gives the i-th smallest selected cell the i-th name when that name is non-empty; every other cell keeps its entry |
| Labels.Toggled | App.tsx:157-165 | a forced state sets membership, no state flips it, and no other index changes |
| Labels.ToggleTwice | App.tsx:157-165 | flipping twice restores the selection |
| Labels.AllCells | App.tsx:167-173 | every index from 0 below the cell count, and nothing else |
| Labels.AllCellsSize | App.tsx:170-171 | that set has exactly as many elements as cells |
| Labels.CellsOfLayout | App.tsx:168-171 | the loop adds exactly the indices 0 through rows·cols − 1 |
| Labels.LabelSheet.constructor | App.tsx:47-55 | the standard layout, size "1ml", an empty selection, mapping and order set |
| Labels.LabelSheet.ToggleCell | App.tsx:157-165 | the selection becomes `Toggled`; nothing else changes |
| Labels.LabelSheet.SelectAll | App.tsx:167-173 | the selection becomes every cell of the current layout |
| Labels.LabelSheet.ResetGrid | App.tsx:97-100 | the mapping and the selection are cleared |
| Labels.LabelSheet.ChangeLayout | App.tsx:88-95 | the new layout's first size, an empty selection and an empty mapping |
| Labels.LabelSheet.RefreshExistingOrders | App.tsx:57-74 | the order set becomes the set parsed from the sheet's text |
| Labels.LabelSheet.AutoMap | App.tsx:102-155 | the outcome is Mapped exactly when there is a selection and some candidate name; an empty selection or no candidate name changes nothing (the two alerts); otherwise each selected cell whose rank has a non-empty name gets it, the rest of the mapping stays, and the selection is cleared |
| Grid.BoxRect | components/Grid.tsx:64-67 | the box's extent is spanned by its two corners, whichever way it was dragged |
| Grid.BoxRectSymmetric | components/Grid.tsx:64-67 | dragging between the same two corners in any direction covers the same rectangle |
| Grid.TouchingMeets | components/Grid.tsx:73 | rectangles that share only an edge meet |
| Grid.PreviewSet | components/Grid.tsx:69-78 | a cell number is in the preview exactly when some listed cell with that index meets the box |
| Grid.PreviewSetStep | components/Grid.tsx:71-78 | one more listed cell adds its index exactly when it meets the box and its index parsed |
| Grid.CellsInBox | components/Grid.tsx:69-78 | the loop over the cell elements computes `PreviewSet` |
| Grid.Committed | components/Grid.tsx:27-36 | selecting adds the preview to the selection, and deselecting removes it |
| Grid.CommitStep | components/Grid.tsx:84 | forcing one more index commits a preview larger by that index |
| Grid.CommitNext | components/Grid.tsx:84 | taking one index out of the cells still to force |
| Grid.CommittedOutside | components/Grid.tsx:84 | cells outside the preview keep their membership |
| Grid.ModeFor | components/Grid.tsx:50-52 | the gesture deselects exactly when the press lands on a selected cell |
| Grid.ClickFlips | components/Grid.tsx:46-88 | a press released without moving flips that cell and only it |
| Grid.ForcePreview | components/Grid.tsx:84 | forcing each previewed cell through the sheet's toggle commits the preview in the gesture's mode; the rest of the sheet is unchanged |
| Grid.Gesture.constructor | components/Grid.tsx:21-23 | idle: no box, selecting, empty preview |
| Grid.Gesture.EffectiveSelected | components/Grid.tsx:27-36 | with no box the painted selection is the selection; with a box it is the selection with the preview committed in the gesture's mode |
| Grid.Gesture.PointerDown | components/Grid.tsx:46-56 | only the primary button acts; the box starts as the press point, the mode comes from the pressed cell, and a press on a cell makes the preview exactly that cell |
| Grid.Gesture.PointerMove | components/Grid.tsx:58-80 | ignored when idle; otherwise the box follows the pointer, the preview becomes the cells meeting the normalised box, and the mode is unchanged |
| Grid.Gesture.PointerUp | components/Grid.tsx:82-88 | with a box, every previewed cell is forced into the mode, other cells are unchanged, and the box and preview are cleared; with no box nothing changes |

## Definitions

The definitions below have no contract of their own; the members in the table above state their properties. Each is listed with the lines it models.

| definition | source | models |
|---|---|---|
| Types.TotalCells | components/Grid.tsx:25 | `config.rows * config.cols` |
| Types.LayoutKey | types.ts:20-35 | the key of a layout in `LAYOUT_CONFIGS` |
| Text.IsSpace | components/OrderImport.tsx:45 | the characters `\s` and `trim()` treat as whitespace |
| Text.IsDigit | components/OrderImport.tsx:80 | `\d` |
| Text.IsWordChar | App.tsx:31 | `\w`, the class `\b` is defined by |
| Text.CaseVariant | App.tsx:39-41 | a lower-case text with some letters in capitals |
| Text.SampleSplit | components/OrderImport.tsx:81 | a text made of a "sample -" prefix and the rest |
| Text.LineEnd | components/OrderImport.tsx:69 | the `\r?` of `\r?\n` |
| Text.Contains | components/OrderImport.tsx:189-191 | `includes` |
| Normalizer.Brands | App.tsx:13-23 | the built-in brand list |
| Normalizer.WordsToRemove | App.tsx:24 | the built-in phrase list |
| Normalizer.AltNames | App.tsx:25-28 | the built-in alias table |
| Normalizer.DefaultRules | App.tsx:13-28 | the three built-in tables together |
| OrderImport.Entries | components/OrderImport.tsx:71-87 | the cell values of `newItems`, line by line |
| OrderImport.ImportList | components/OrderImport.tsx:85-88 | `newItems` with fresh ids, then `ensureTrailingBlank` |
| OrderSync.ContentRows | components/OrderImport.tsx:104 | the rows with some non-empty field |
| OrderEdits.GetField | components/OrderImport.tsx:134 | `item[field]` |
| OrderEdits.Shown | components/OrderImport.tsx:263 | `filteredData[index]` in the table |
| OrderEdits.AddRowAboveShown | components/OrderImport.tsx:275 | the corrected button: insert above the shown row, found by its id |
| Labels.Placed | App.tsx:143 | `if (filteredNames[i])` |
| Labels.SheetRowGives | App.tsx:122-132 | a sheet row with a non-empty name and the target size |
| Labels.SheetEntries | App.tsx:122-128 | the `map` over the sheet's rows |
| Labels.EntryName | App.tsx:129-132 | the two filters on one entry |
| Text.Boundary | App.tsx:31 | `\b`: exactly one side of the position is a word character |
| Text.WholeWordAt | App.tsx:31 | `\bW\b` with the `i` flag matches at that position |
| Text.StripSamplePrefix | App.tsx:38 | `replace(/^sample\s*-\s*/i, '')` |
| Text.LeadQuote | components/OrderImport.tsx:75 | the `^["']` alternative: 1 when the text starts with a quote |
| Text.TrailQuote | components/OrderImport.tsx:75 | the `["']$` alternative, once the leading quote is gone |
| Text.Extensible | components/OrderImport.tsx:82 | one more digit, or a point and a digit when there is no point yet, could be matched |
| Text.NumberAt | components/OrderImport.tsx:82 | the leftmost, longest match of `(\d+(\.\d+)?)` |
| Text.FirstAt | App.tsx:80 | the first occurrence of a string pattern, as `replace` finds it |
| Normalizer.RemoveAll | App.tsx:30-37 | the `forEach` over brands, or over phrases, removing each as a whole word |
| Normalizer.Cleaned | App.tsx:29-38 | the removals, the whitespace collapse, the prefix strip and the trim |
| Normalizer.Preprocess | App.tsx:11-44 | `preprocessText`: "" for "", else the alias value or the cleaned text |
| OrderImport.IsBlank | components/OrderImport.tsx:45 | every field trims to "" |
| OrderImport.HasContent | components/OrderImport.tsx:104 | some field is non-empty |
| OrderImport.BlankRow | components/OrderImport.tsx:42 | a row with all fields empty |
| OrderImport.LastOrder | components/OrderImport.tsx:58-63 | the carried `lastOrder` after a run of order cells |
| OrderImport.NonBlankLines | components/OrderImport.tsx:69 | `filter(line => line.trim() !== '')` |
| OrderImport.AcceptedLines | components/OrderImport.tsx:69 | the split on `\r?\n`, then that filter |
| OrderImport.ImportRows | components/OrderImport.tsx:68-88 | `processCSV`: nothing for a text with no non-blank line, else the parsed rows and the trailing blank |
| OrderImport.Quantity | components/OrderImport.tsx:79 | `parseInt(cols[3] \|\| '1', 10)` as the bound of the loop of line 84 |
| OrderSync.RepeatsPrevious | components/OrderImport.tsx:112-114 | `isDuplicateOrder` |
| OrderSync.PayloadEntry | components/OrderImport.tsx:115-120 | one posted entry |
| OrderSync.SyncPayload | components/OrderImport.tsx:103-121 | `handleSync`: the alert for no data, else the payload |
| OrderEdits.UpdateCell | components/OrderImport.tsx:133-136 | `updateCell` |
| OrderEdits.DeleteRow | components/OrderImport.tsx:138-144 | `deleteRow` |
| OrderEdits.DeleteGroup | components/OrderImport.tsx:155-162 | the confirmed action of `handleDeleteGroupAction` |
| OrderEdits.AddRowAt | components/OrderImport.tsx:181-186 | `addRowAt` |
| OrderEdits.AddRowAbove | components/OrderImport.tsx:275 | the corrected insert above the pressed row |
| OrderEdits.MatchesSearch | components/OrderImport.tsx:188-192 | the search filter |
| Labels.NumericTarget | App.tsx:110 | `selectedSize.replace('ml', '').trim().toLowerCase()` |
| Labels.IsMatch | App.tsx:113-116 | the filter over the order list |
| Labels.MatchingTitles | App.tsx:112-118 | the titles of the matching rows |
| Labels.CandidateNames | App.tsx:109-133 | `filteredNames`, from the order list or from the sheet |
| Labels.SheetEntry | App.tsx:122-128 | one sheet row as a name and a size |
| Labels.Assigned | App.tsx:141-146 | `newMappings` |
| Labels.Counts | App.tsx:76-86 | `sizeCounts` |
| Labels.OrdersOf | App.tsx:61-69 | the set `fetchExistingOrders` collects |
| Grid.Intersects | components/Grid.tsx:73 | `isIntersecting` |

## Left out

- The print pipeline (`generatePrint`, the HTML template, the font-shrink loop, html2canvas and jsPDF) is DOM and foreign-library work. Its one guard, refusing to print with an empty mapping, is not modelled either.
- Network I/O is not modelled: the spreadsheet CSV fetch and the webhook POST with its cool-down timer. The sheet's text is a parameter of `Labels.LabelSheet.RefreshExistingOrders` and `Labels.LabelSheet.AutoMap`. The payload is what `OrderStore.OrderList.Sync` returns.
- `FileReader` upload plumbing is not modelled. `OrderStore.OrderList.Import` takes the file's text.
- DOM geometry in the grid (`elementFromPoint`, `getBoundingClientRect`, pointer capture) is not modelled. The pressed cell and the listed cells with their rectangles and parsed index attributes are inputs with integer coordinates.
- Cell indices are natural numbers. The grid never toggles the -1 fallback, so no negative index reaches the selection.
- `Math.random` ids become fresh natural numbers from the store's counter, so distinctness is proved rather than assumed probable. `toLocaleDateString` is the parameter `today`.
- React state batching, effects and re-renders are not modelled. Each handler is one atomic command on the class that holds the state.
- Case folding is limited to ASCII letters: `toLowerCase` of other letters is not modelled.
- Brand and phrase removal uses the JavaScript `\b` definition with ASCII word characters. Pattern escaping is not modelled, since no built-in brand contains a character that a regular expression would read specially other than '.', which is matched literally here.
- The alias table is a sequence of pairs in the order a JavaScript object lists them. Key ordering rules for integer-like keys are not modelled.
- `updateCell` can be called with the `id` field. The table only edits the three text fields, so `OrderEdits.Field` has those three.
- The group-delete confirmation modal, the search box, the status bar and the "already in sheet" banner are JSX. The banner reads a field `OrderItem` does not have, so it never shows.
- The settings editor's save handler is I/O: it calls the host's `onSave`, then closes the editor.
- `vite.config.ts` is build configuration only.
- `OrderImport.CleanColumn`: the contract states only that the ends are not whitespace. It does not prove that the result is the trimmed, quote-stripped column; the body is exactly that.
- `OrderImport.Columns`: the contract states only that no column contains the separator used. It does not state that joining the columns gives back the line. `Text.SplitJoin` proves that for `Text.Split`.

## Findings

| source | as written | input that shows it | evidently intended | confidence | as-written member | corrected member |
|---|---|---|---|---|---|---|
| components/OrderImport.tsx:275 | the insert button above table row `index` calls `addRowAt(index)`, and `addRowAt` splices at that position of the whole list (181-186), but `index` counts rows of the filtered table | rows #1 "a" and #2 "rose", search "rose": the table shows only row #2 at index 0, and the button puts the new row above row #1 | the new row goes right above the row whose button was pressed, found by its id | not executed | OrderEdits.AddRowAtViewIndexMisplaced | OrderEdits.AddRowAboveShownPlaced |
