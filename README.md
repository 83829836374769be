# Vehicle-inspection record manager: record rules and CSV persistence

A console program keeps vehicle-inspection records in a CSV file. Every
record has four text columns: an inspection ID, a car registration number, an
owner name and an inspection date. Each operation (add, search, update,
delete) loads the whole file into an array of up to 1000 records, changes the
array, and writes the whole file back. Two incompatible variants exist:

- the **strict** one (`58_Project.c`, modules `Strict` and `StrictCrud`):
  - IDs have the form `L999` and registrations `LLL9999`;
  - dates lie in 1990..2026 and are stored normalised as `DD/MM/YYYY`;
  - loaded fields are cut to 16/13/40/14 characters and trimmed of white space;
  - lookup compares the whole ID or registration with `strcasecmp`;
  - search trims the key and shows every record it matches;
- the **lenient** one (`Final.c`, modules `Lenient` and `LenientCrud`):
  - IDs and registrations are 1..20 letters or digits;
  - dates lie in 1880..2100 and are stored as typed, cut to 10 characters;
  - loaded fields are cut to 20/20/60/10 characters and not trimmed;
  - lookup lower-cases the key and the fields after cutting them to 20 characters;
  - search matches substrings;
  - delete matches on the ID only;
  - update stops at the first refused field, after the earlier fields have
    already been written.

What both variants share lives in small modules. The variant modules import
them and never each other:

- `Wrappers`: `Option` and `Result`.
- `CText`: the C-locale character classes, `tolower`, `strcasecmp`, the cut
  that `strncpy` plus a terminating NUL makes, and `strstr`.
- `Records`: the record, the twenty sample records, the shift-down removal of
  `delete_record`, the answers typed at the prompts, and the problems a step
  reports.
- `Csv`: the `fgets` line split, `strtok` on `,`, the line `save_all` writes,
  and generic lemmas relating saving and loading.
- `Dates`: the `sscanf("%d/%d/%d")` scanner, the leap-year rule, the month
  lengths, the character filter of `is_valid_date`, and `%02d/%02d/%04d`.

The CSV file is modelled as its text, with `None` standing for a file that
does not exist. Load and save are functions on that text; `LoadAll` is the
read loop over an array. Each CRUD operation is modelled twice:

- a function on the loaded records (`Add`, `Update`, `Delete`), which gives
  the records the operation saves or the problem that stops it;
- a method on the array (`AddRecord`, `UpdateRecord`, `DeleteRecord`), proved
  against that function.

Lemmas then show what the operations keep:

- **uniqueness** of IDs and registrations;
- **well-formed records** in the strict variant, and **savable records** in
  the lenient one;
- **save/reload round trips**.

Two behaviours that the model brings out, by design rather than as bugs:

- In the lenient variant an accepted date may be stored as a string the
  validator refuses. `"01/01/02000"` is accepted, but only its first ten
  characters `"01/01/0200"` are stored (`Lenient.StoredDateMayBeRefused`).
- The strict update checks a new registration against the records as
  loaded (`StrictCrud.Revisable`). The lenient update checks it against the
  records in which record idx already holds the new ID
  (`LenientCrud.RegCheckSeesNewId`).

## Model

| member | source | states |
|---|---|---|
| `CText.ToLower` | 58_Project.c:376 | a capital letter maps to a small letter, every other character to itself |
| `CText.ToLowerTable` | 58_Project.c:376 | tolower takes the k-th capital letter of the alphabet to the k-th small letter and leaves small letters alone |
| `CText.CapitalsComplete` | 58_Project.c:376 | every capital letter is one of the 26 in that table |
| `CText.Lower` | Final.c:52-56 | the same length, and each character is the tolower of the input's character at that position |
| `CText.LowerFixed` | Final.c:52-56 | lower-casing leaves a string alone iff it has no capital letter, and its result never has one |
| `CText.EqualsIgnoreCaseChars` | 58_Project.c:194 | strcasecmp reports equality iff both strings have the same length and every pair of characters is equal after tolower |
| `CText.CaseVariants` | 58_Project.c:376 | changing one capital letter into its small letter keeps the match; changing it into any other small letter breaks it |
| `CText.Truncate` | Final.c:273-274 | strncpy into an n+1 buffer keeps a prefix of at most n characters, all of a shorter string |
| `CText.SkipSpaces` | 58_Project.c:172 | the suffix after the leading white space; it starts with no white space and what was skipped is white space |
| `CText.OccursAt` | Final.c:415 | strstr (`Occurs`) finds the needle exactly when some window of the haystack equals it |
| `CText.IsOwnerName` | 58_Project.c:97-109 | `is_valid_owner_name` (the same in both variants, Final.c:75-87, up to the length limit) accepts iff the name has 1..maxLen characters, all letters or spaces, at least one of them a letter |
| `CText.LettersAndSpaces` | 58_Project.c:102-108 | the owner-name loop accepts iff every character is a letter or a space and some character is a letter |
| `Records.RemoveAt` | 58_Project.c:809-812 | one element fewer; the elements before k kept, those after k moved down by one |
| `Records.ShiftDown` | 58_Project.c:809-812 | the shift loop on the array leaves RemoveAt of the first n records in the first n-1 slots and changes nothing else |
| `Csv.IndexOf` | 58_Project.c:258 | strchr: the first position of the character |
| `Csv.CutAt` | 58_Project.c:258-261 | the prefix before the first occurrence of the character, all of the string when there is none |
| `Csv.Lines` | 58_Project.c:256 | the lines fgets returns hold no line break |
| `Csv.Tokens` | 58_Project.c:265-286 | strtok on ',' yields non-empty pieces without commas, made of the line's characters |
| `Csv.TokensAreNonEmptyPieces` | 58_Project.c:265-286 | strtok gives the non-empty pieces between commas, so runs of commas collapse |
| `Csv.SplitJoin` | 58_Project.c:303 | splitting fields joined by commas gives back the fields when none holds a comma |
| `Csv.TokensOfJoin` | 58_Project.c:303 | strtok over a joined line gives back its non-empty fields |
| `Csv.FormatLineIsJoin` | 58_Project.c:303 | the line save_all writes is the four fields joined by commas |
| `Csv.LinesOfSave` | 58_Project.c:302-304 | the lines of the saved text are the records' lines, one per record, in order |
| `Csv.LinesCons` | 58_Project.c:303 | a line ending in '\n' splits off as the first line |
| `Csv.CollectOfSave` | 58_Project.c:256-291 | loading saved text with any line parser returns what the parser makes of each record's line, in order |
| `Csv.CollectAll` | 58_Project.c:256-291 | a property every parsed line has holds of every loaded record |
| `Csv.CollectAppend` | 58_Project.c:256-291 | loading two blocks of lines is loading each in turn |
| `Csv.SavedTokens` | Final.c:218-220 | the tokens of a saved line are the record's four fields when none is empty or holds ',' or '\r' |
| `Csv.LoadStops` | 58_Project.c:256 | the read loop's `count < max` keeps the first max records of the file |
| `Dates.IsLeapYear` | 58_Project.c:112-116 | leap iff divisible by 4 and not by 100, or divisible by 400 |
| `Dates.DaysInMonth` | 58_Project.c:128-135 | 28..31 days; 29 iff February of a leap year, 28 iff February of another year |
| `Dates.DaysInMonthIsTable` | 58_Project.c:128-135 | the month lengths agree with the usual table |
| `Dates.Decimal` | 58_Project.c:142 | the digits of n, no leading zero, denote n |
| `Dates.ZeroPad` | 58_Project.c:142 | %0wd: digits denoting n, left-padded with zeros to width w |
| `Dates.DigitRun` | 58_Project.c:123 | the length of the leading run of digits |
| `Dates.ScanDigits` | 58_Project.c:123 | once blanks and sign are consumed, the digit conversion of %d succeeds iff a digit comes next |
| `Dates.ScanIntUnsigned` | 58_Project.c:123 | with no sign after the blanks, %d (`ScanInt`) reads the digits after the leading white space |
| `Dates.ScanIntConsumes` | 58_Project.c:123 | a successful %d consumes at least one character and leaves a suffix of its input |
| `Dates.ScanIntSlashConsumes` | 58_Project.c:123 | a successful "%d/" (`ScanIntSlash`) reads the same number as %d and also consumes the slash after it |
| `Dates.ScanIntParts` | 58_Project.c:123 | on filtered text a successful %d is blanks, then digits denoting the value, then a rest that does not start with a digit |
| `Dates.ScanIntSlashParts` | 58_Project.c:123 | on filtered text a successful "%d/" is blanks, digits denoting the value, '/', and the rest |
| `Dates.ScanDateShape` | 58_Project.c:123 | on blanks, digits, '/', blanks, digits, '/', blanks, digits and a tail not starting with a digit, the scan yields the three numbers |
| `Dates.ScanDateParts` | 58_Project.c:123 | conversely, a successful scan (`ScanDate`) of filtered text has exactly that shape and those values |
| `Dates.ShapeDateChars` | 58_Project.c:138-140 | such a string passes the character filter (`DateChars`) when its tail does |
| `Dates.InCalendarBounds` | 58_Project.c:125-137 | a date passing the range checks (`InCalendar`) has a day 1..31, a 31st only in a long month and a 29 February only in a leap year |
| `Dates.FormatDateScans` | 58_Project.c:142 | scanning a date printed by `FormatDate` gives back the day, month and year |
| `Dates.FormatDateChars` | 58_Project.c:142 | a normalised date passes the character filter |
| `Dates.FormatDateShape` | 58_Project.c:142 | for fields that fit their widths a normalised date has the DD/MM/YYYY layout (`DateShaped`): 10 characters, '/' at 2 and 5, digits elsewhere |
| `Strict.IsValidId` | 58_Project.c:74-82 | accepts iff 4 characters: an upper-case letter, then three digits other than 000 |
| `Strict.IsValidCarReg` | 58_Project.c:84-94 | accepts iff 7 characters: three upper-case letters, then four digits other than 0000 |
| `Strict.IdNumber` | 58_Project.c:74-82 | the ID's digits denote a number in 1..999 |
| `Strict.IdFromNumber` | 58_Project.c:74-82 | every letter with every number 1..999, zero-padded, is a valid ID |
| `Strict.CarRegNumber` | 58_Project.c:84-94 | the registration's digits denote a number in 1..9999 |
| `Strict.CarRegFromNumber` | 58_Project.c:84-94 | every three letters with every number 1..9999, zero-padded, are a valid registration |
| `Strict.IdIsNeverCarReg` | 58_Project.c:74-94 | no valid ID equals a valid registration, even ignoring case |
| `Strict.OwnerNameLongest` | 58_Project.c:97-100 | with OWNER_MAX_LEN 40, `is_valid_owner_name` accepts a name of 40 letters and refuses one of 41 |
| `Strict.ValidateDate` | 58_Project.c:119-145 | on success the output has the DD/MM/YYYY shape |
| `Strict.DateAccepted` | 58_Project.c:119-145 | every string of the scanner's shape with a filtered tail and a date of 1990..2026 is accepted and normalised to %02d/%02d/%04d |
| `Strict.DateAcceptedShape` | 58_Project.c:119-145 | every accepted string has that shape and a calendar date of 1990..2026 |
| `Strict.DateIdempotent` | 58_Project.c:142 | validating the normalised output again succeeds with the same output |
| `Strict.NormalDateAccepted` | 58_Project.c:119-144 | a string is the normalised form of some calendar date of 1990..2026 (`NormalDate`) iff validating it returns it unchanged |
| `Strict.LeapDayAccepted` | 58_Project.c:112-116 | 29/02/2024 is accepted as itself |
| `Strict.LeapDayRefused` | 58_Project.c:128-137 | 29/02/2023 is refused |
| `Strict.TrailingTextIgnored` | 58_Project.c:123 | the scan ignores the text after the year: 01/08/2025/99 is accepted |
| `Strict.TrimRight` | 58_Project.c:176-177 | a prefix ending in no white space, with only white space after it |
| `Strict.Trim` | 58_Project.c:168-178 | trimmed on both sides and no longer than the input |
| `Strict.TrimParts` | 58_Project.c:168-178 | the input is white space, then the trimmed text, then white space |
| `Strict.TrimKeeps` | 58_Project.c:168-178 | a trimmed string is left alone |
| `Strict.TrimIdempotent` | 58_Project.c:168-178 | trimming twice is trimming once |
| `Strict.LeadingSpaces` | 58_Project.c:171-172 | the scan stops at the first character that is not white space |
| `Strict.MoveToFront` | 58_Project.c:173 | memmove puts the text from start, with its NUL, at the front and leaves the rest of the buffer alone |
| `Strict.ClearTrailing` | 58_Project.c:175-177 | the trailing white space is overwritten with NULs, the rest of the buffer is left alone, and the returned end is the length of the text without trailing white space |
| `Strict.TrimWhitespace` | 58_Project.c:168-178 | the buffer ends up holding the trimmed text, a NUL and the leftover characters; its new length is the trimmed length |
| `Strict.TrimmedBufferReads` | 58_Project.c:168-178 | read as a C string, the buffer after trimming is the trimmed text |
| `Strict.FindFrom` | 58_Project.c:375-379 | the first index from i on whose ID or registration equals the key ignoring case, or -1 when none does |
| `Strict.FindByIdOrReg` | 58_Project.c:374-380 | the smallest matching index, or -1 exactly when no record matches |
| `Strict.FindCaseInsensitive` | 58_Project.c:192-200 | the smallest matching index, or -1 exactly when no record matches |
| `Strict.FindersAgree` | 58_Project.c:192-200 | both lookups return the same index for every key |
| `Strict.NoMatchOfOtherLength` | 58_Project.c:374-380 | a key of a length no ID or registration has is not found |
| `Strict.TrimKey` | 58_Project.c:592 | the key copied into a buffer and trimmed in place reads back as Trim of the key, as search_record (line 522) and update_record do |
| `Strict.Shown` | 58_Project.c:536-550 | no more records shown than loaded; ShownMembers and ShownAppend fix which ones and in what order |
| `Strict.SearchRecord` | 58_Project.c:499-561 | nothing with no records; otherwise the records shown are exactly Shown of the loaded records under the trimmed key, and found counts them |
| `Strict.ShownAppend` | 58_Project.c:536-550 | the records shown from two blocks are those of each in turn, so file order is kept |
| `Strict.ShownMembers` | 58_Project.c:537-541 | a record is shown iff it is loaded and its ID or registration equals the key ignoring case |
| `Strict.ShownNone` | 58_Project.c:554-555 | "No matches found." iff the first-match lookup finds nothing for the same key |
| `Strict.FirstShownIsFound` | 58_Project.c:536-550 | the first record shown is the one the first-match lookup finds |
| `Strict.FindInPrefixMiss` | 58_Project.c:374-380 | the records before the first match hold no match |
| `Strict.LeadingSpaceTrimmed` | 58_Project.c:168-178 | white space before the text does not change the trimmed text |
| `Strict.PaddedKeyShown` | 58_Project.c:522 | a key typed with white space before a record's ID still shows that record, because the key is trimmed first |
| `Strict.PaddedSampleKey` | 58_Project.c:522 | " I001" is found by no first-match lookup over the samples, yet search_record shows record I001 |
| `Strict.SampleFindsId` | 58_Project.c:853-859 | "i002" is found at the second sample record, and at the second record of a fresh file's 16 |
| `Strict.SampleFindsCarReg` | 58_Project.c:877-883 | "xyz5678" is found at the second sample record, and at the second record of a fresh file's 16 |
| `Strict.SampleMiss` | 58_Project.c:889-896 | "NONEXIST" is found in no sample record, nor in a fresh file's 16 |
| `Strict.FindInPrefix` | 58_Project.c:374-380 | a match found before index m is found at the same index among the first m records |
| `Strict.FreshFileFinds` | 58_Project.c:837 | a key the samples match before index 16, or nowhere, is found at the same index in the records a fresh start loads |
| `Strict.SampleLengths` | 58_Project.c:218-239 | every sample ID has 4 characters and every sample registration 7 |
| `Strict.TrimChars` | 58_Project.c:168-178 | trimming introduces no character |
| `Strict.TrimEmpty` | 58_Project.c:168-178 | trimming leaves something iff some character is not white space (`HasText`) |
| `Strict.Column` | 58_Project.c:267-269 | a loaded field fits its column, is trimmed and is made of the token's characters; a token that fits is just trimmed |
| `Strict.ParseLine` | 58_Project.c:258-290 | a line gives a record iff strtok finds at least four tokens after the cut at '\r' |
| `Strict.TokenSafe` | 58_Project.c:258-286 | a token holds no ',', '\r' or '\n' |
| `Strict.ColumnClean` | 58_Project.c:267-287 | such a token's column is within its limit, trimmed and separator-free |
| `Strict.ParseLineClean` | 58_Project.c:258-290 | every loaded record is clean |
| `Strict.LinesClean` | 58_Project.c:256-291 | every line of a file gives a clean record, if any |
| `Strict.Load` | 58_Project.c:247-293 | at most max records, each clean |
| `Strict.ReadLine` | 58_Project.c:258-290 | one loop round writes the line's record into slot count exactly when the line gives one, and nothing else |
| `Strict.LoadAll` | 58_Project.c:247-293 | the read loop fills the array with the records Load returns, in file order, and leaves the later slots alone |
| `Strict.StorableReloads` | 58_Project.c:258-304 | a clean record with no empty field is savable and reloads as itself |
| `Strict.SavableFieldChars` | 58_Project.c:303 | a savable field is non-empty and holds no ',', '\r' or '\n' |
| `Strict.SavableNoLineBreak` | 58_Project.c:303 | a savable record's line has no line break |
| `Strict.SavableIsPlain` | 58_Project.c:265-287 | a savable field is one whole token and its column is its trimmed form |
| `Strict.ParseSaved` | 58_Project.c:296-307 | the saved line of a savable record loads as the record with each field trimmed |
| `Strict.CollectSaved` | 58_Project.c:256-304 | the lines of the saved text parse to the trimmed records, in order |
| `Strict.SaveLoadTrims` | 58_Project.c:296-307 | save then load gives the records, each field trimmed |
| `Strict.SaveLoad` | 58_Project.c:296-307 | save then load gives back at most max storable records unchanged |
| `Strict.LoadSaveLoad` | 58_Project.c:247-307 | saving loaded storable records and loading again gives the same records |
| `Strict.SavedBlankIsDropped` | 58_Project.c:258-290 | a record with an empty field is saved but not loaded back, since strtok skips empty fields |
| `Strict.SavedBlankLine` | 58_Project.c:258-290 | the saved line of a record with an empty field gives no record |
| `Strict.SamplesStorable` | 58_Project.c:218-239 | every sample record is storable |
| `Strict.BootstrapAsWritten` | 58_Project.c:206-244 | an existing file is left alone; a missing one gets the first 16 sample lines |
| `Strict.BootstrapAsWrittenLoses4` | 58_Project.c:240-242 | a new file loads the first 16 of the 20 samples |
| `Strict.Bootstrap` | 58_Project.c:206-211 | an existing file is left alone |
| `Strict.BootstrapLoadsSamples` | 58_Project.c:217-243 | with all 20 lines written, a new file loads the twenty samples in order |
| `Strict.LoadFile` | 58_Project.c:240-248 | a missing file loads the first 16 samples, as ensure_csv_has_sample writes them; an existing file loads its own text; at most 1000 records |
| `StrictCrud.Add` | 58_Project.c:382-497 | succeeds iff there is room and the ID, registration, owner and date pass their checks with neither key found; the result appends the entered record; Full at 1000 |
| `StrictCrud.AddRecord` | 58_Project.c:382-497 | on the array: arr[n] becomes the new record and n grows by one, or nothing changes and the problem is reported |
| `StrictCrud.FoundAtEnd` | 58_Project.c:374-380 | a key found nowhere is found at the end once a matching record is appended |
| `StrictCrud.AddedIsFound` | 58_Project.c:484 | the added record is found by its ID and by its registration at index n |
| `StrictCrud.AddTwiceFails` | 58_Project.c:412-415 | adding the same answers again is refused |
| `StrictCrud.AppendKeepsUnique` | 58_Project.c:412-431 | appending a record no record matches keeps IDs and registrations unique |
| `StrictCrud.AddKeepsUnique` | 58_Project.c:405-435 | add keeps every ID and registration unique |
| `StrictCrud.EnteredIsValid` | 58_Project.c:405-459 | the entered record is well-formed, its date normalised |
| `StrictCrud.AllValidAppend` | 58_Project.c:484 | appending a well-formed record keeps every record well-formed |
| `StrictCrud.AddKeepsValid` | 58_Project.c:484 | add keeps every record well-formed |
| `StrictCrud.Revise` | 58_Project.c:639-717 | the edited copy exists iff every non-empty answer passes and a new ID or registration is matched by no record, or the first record matching it is record idx; blank answers keep fields; a refusal is always one of the field problems, never NotFound or NoRecords |
| `StrictCrud.Update` | 58_Project.c:563-752 | NoRecords on an empty file; NotFound iff no record matches the trimmed key; otherwise only the found record changes, to its revision |
| `StrictCrud.FindKey` | 58_Project.c:597-609 | the inline search loop returns the ignore-case first match |
| `StrictCrud.UpdateRecord` | 58_Project.c:563-752 | on the array: arr[idx] = newRec when every answer passes, nothing changes otherwise |
| `StrictCrud.BlankAnswersKeep` | 58_Project.c:647-707 | blank answers leave the records as they were |
| `StrictCrud.OnlyHolder` | 58_Project.c:654-658 | a value the found record may take is held by no other record |
| `StrictCrud.HeldByNoOther` | 58_Project.c:639-685 | a value kept or newly taken by the record is held by no other record |
| `StrictCrud.ReplaceKeepsUnique` | 58_Project.c:739 | replacing a record by one no other record matches keeps uniqueness |
| `StrictCrud.UpdateShape` | 58_Project.c:639-739 | a successful update replaces the record found for the trimmed key, and only it, by its revision |
| `StrictCrud.UpdateRevisable` | 58_Project.c:639-717 | the answers of a successful update passed every prompt loop's check against the record found |
| `StrictCrud.UpdateKeepsUnique` | 58_Project.c:644-685 | update keeps every ID and registration unique |
| `StrictCrud.RevisedIsValid` | 58_Project.c:644-717 | revising a well-formed record with accepted answers gives a well-formed record |
| `StrictCrud.UpdateKeepsValid` | 58_Project.c:639-739 | update keeps every record well-formed |
| `StrictCrud.Delete` | 58_Project.c:754-829 | NoRecords on an empty file; NotFound iff no record matches; otherwise the first match is removed and the others keep their order |
| `StrictCrud.DeleteRecord` | 58_Project.c:754-829 | on the array: the suffix shifts down and n shrinks by one, or nothing changes |
| `StrictCrud.DeleteKeepsUnique` | 58_Project.c:809-812 | delete keeps uniqueness |
| `StrictCrud.DeleteKeepsValid` | 58_Project.c:809-812 | delete keeps every record well-formed |
| `StrictCrud.DeletedIsGone` | 58_Project.c:936-937 | after a delete the key is found no more |
| `Lenient.AlnumRun` | Final.c:69-71 | true iff every character is an ASCII letter or digit |
| `Lenient.IsValidIdOrReg` | Final.c:65-73 | accepts iff 1..20 characters, all ASCII letters or digits |
| `Lenient.OwnerNameLongest` | Final.c:75-78 | with the 60-character owner limit, `is_valid_owner_name` accepts a name of 60 letters and refuses one of 61 |
| `Lenient.DateAccepted` | Final.c:98-120 | a string of the scanner's shape with a filtered tail is accepted iff its numbers make a calendar date of 1880..2100 |
| `Lenient.DateAcceptedShape` | Final.c:98-120 | every accepted string has that shape and date |
| `Lenient.DateHasNoComma` | Final.c:116-118 | an accepted date is non-empty and holds no comma |
| `Lenient.LeapDay2000Accepted` | Final.c:91-95 | 29/02/2000 is accepted |
| `Lenient.LeapDay2100Refused` | Final.c:91-95 | 29/02/2100 is refused, since 2100 is not a leap year |
| `Lenient.February2100` | Final.c:106-109 | February 2100 has 28 days |
| `Lenient.StoredDateMayBeRefused` | Final.c:355-364 | an accepted date can be cut to a stored form that is refused |
| `Lenient.LowerIdempotent` | Final.c:52-56 | lower-casing twice is lower-casing once |
| `Lenient.KeyIgnoresCaseAndTail` | Final.c:272-275 | the compared form ignores case and everything after 20 characters |
| `Lenient.FindFrom` | Final.c:280-291 | the first index from i on whose cut and lower-cased ID or registration equals the key's, or -1 |
| `Lenient.FindByIdOrReg` | Final.c:271-293 | the smallest matching index, or -1 exactly when none matches |
| `Lenient.FindSameKey` | Final.c:271-293 | keys with the same compared form are found at the same index |
| `Lenient.FindIgnoresCaseAndTail` | Final.c:272-275 | find(k) == find(k cut to 20) == find(lower-cased k) |
| `Lenient.ToLowerStr` | Final.c:52-56 | the buffer's characters before the NUL are lower-cased in place and the rest is left alone |
| `Lenient.LowerCopy` | Final.c:272-275 | the strncpy-and-lower-case copy is the compared form of the string |
| `Lenient.Matches` | Final.c:405-419 | no more matches than records |
| `Lenient.SearchRecord` | Final.c:396-421 | the records shown are exactly Matches of the loaded records, and found counts them |
| `Lenient.MatchesAppend` | Final.c:405-419 | the matches of two blocks are the matches of each in turn, so file order is kept |
| `Lenient.MatchesMembers` | Final.c:415 | a record is shown iff it is loaded and its compared ID or registration contains the compared key |
| `Lenient.MatchesNone` | Final.c:420 | "No matches" iff no record's ID or registration contains the key |
| `Lenient.EmptyKeyShowsAll` | Final.c:415 | an empty key shows every record |
| `Lenient.FoundIsShown` | Final.c:289-290 | the record find_by_id_or_reg finds is among those search shows |
| `Lenient.ParseLine` | Final.c:178-205 | a line gives a record iff strtok finds at least four tokens after the cut at '\r' |
| `Lenient.TokenSavable` | Final.c:185-203 | a token cut to its column is a savable field |
| `Lenient.ParseLineSavable` | Final.c:178-205 | every loaded record is savable |
| `Lenient.LinesSavable` | Final.c:176-206 | every line of a file gives a savable record, if any |
| `Lenient.Load` | Final.c:167-209 | at most max records, each savable |
| `Lenient.ReadLine` | Final.c:176-205 | one loop round writes the line's record into slot count exactly when the line gives one, and nothing else |
| `Lenient.LoadAll` | Final.c:167-209 | the read loop fills the array with the records Load returns, in file order |
| `Lenient.SavableIsPlain` | Final.c:185-203 | a savable field is one whole token and its column is itself |
| `Lenient.ParseSaved` | Final.c:212-223 | the saved line of a savable record loads as the same record |
| `Lenient.SaveLoad` | Final.c:212-223 | save then load gives back at most max savable records unchanged |
| `Lenient.LoadSaveLoad` | Final.c:167-223 | saving loaded records and loading again gives the same records, for every file |
| `Lenient.SamplesSavable` | Final.c:138-159 | every sample record is savable |
| `Lenient.Bootstrap` | Final.c:125-130 | an existing file is left alone |
| `Lenient.BootstrapLoadsSamples` | Final.c:160-162 | the loop writes ID_REG_MAX_LEN = 20 lines, so a new file loads the twenty samples in order |
| `Lenient.LoadFile` | Final.c:167-168 | at most 1000 records, each savable |
| `LenientCrud.Add` | Final.c:295-381 | succeeds iff there is room and the ID, registration, owner and date pass their checks with neither key found; appends the record with the date cut to 10; Full at 1000 |
| `LenientCrud.AddRecord` | Final.c:295-381 | on the array: arr[n] becomes the new record and n grows by one, or nothing changes and the problem is reported |
| `LenientCrud.FoundAtEnd` | Final.c:280-292 | a key found nowhere is found at the end once a matching record is appended |
| `LenientCrud.AddedIsFound` | Final.c:378 | the added record is found by its ID and by its registration at index n |
| `LenientCrud.AddTwiceFails` | Final.c:316-319 | adding the same answers again is refused |
| `LenientCrud.RegMayRepeatId` | Final.c:326-340 | a registration equal to the new ID is still accepted |
| `LenientCrud.AppendKeepsUnique` | Final.c:316-336 | appending a record no record matches keeps uniqueness |
| `LenientCrud.AddKeepsUnique` | Final.c:309-340 | add keeps every ID and registration unique |
| `LenientCrud.IdRegSavable` | Final.c:65-73 | an accepted ID or registration is a savable field |
| `LenientCrud.OwnerSavable` | Final.c:76-88 | an accepted owner name is a savable field |
| `LenientCrud.DateSavable` | Final.c:361-362 | an accepted date without line breaks, cut to 10, is a savable field |
| `LenientCrud.AllSavableAppend` | Final.c:378 | appending a savable record keeps every record savable |
| `LenientCrud.AddSaveReload` | Final.c:584-595 | after add, save and reload the records come back unchanged and the new ID is found at index n |
| `LenientCrud.WithId` | Final.c:466-467 | only record idx can differ once the new ID is written |
| `LenientCrud.TakeId` | Final.c:449-468 | the ID prompt passes iff blank, or well-formed and found nowhere but at idx; the ID is then written into arr[idx] |
| `LenientCrud.TakeCarReg` | Final.c:471-488 | the same for the registration, checked against the records as they are at that point |
| `LenientCrud.TakeOwner` | Final.c:491-503 | the owner prompt passes iff blank or valid; then the owner is written |
| `LenientCrud.TakeDate` | Final.c:506-518 | the date prompt passes iff blank or valid; then the date, cut to 10, is written |
| `LenientCrud.Revise` | Final.c:446-518 | only record idx changes; the prompts all pass iff Revisable, and then the record is its revision |
| `LenientCrud.ReviseInPlace` | Final.c:446-518 | a full revision replaces record idx by its revision |
| `LenientCrud.UpdateSteps` | Final.c:424-518 | NoRecords on an empty file; NotFound iff no record matches; no record other than the found one changes, even when a later prompt aborts |
| `LenientCrud.Update` | Final.c:424-522 | what is saved: NoRecords and NotFound as above; on success the found record is replaced by its revision |
| `LenientCrud.TakeIdStep` | Final.c:449-468 | on the array: the ID prompt does what TakeId says |
| `LenientCrud.TakeCarRegStep` | Final.c:471-488 | on the array: the registration prompt does what TakeCarReg says |
| `LenientCrud.TakeOwnerStep` | Final.c:491-503 | on the array: the owner prompt does what TakeOwner says |
| `LenientCrud.TakeDateStep` | Final.c:506-518 | on the array: the date prompt does what TakeDate says |
| `LenientCrud.UpdateRecord` | Final.c:424-522 | on the array: the same problem and the same array contents as UpdateSteps, with earlier fields already written when a later one aborts |
| `LenientCrud.BlankAnswersKeep` | Final.c:455-512 | blank answers leave the records as they were |
| `LenientCrud.RegCheckSeesNewId` | Final.c:480-484 | a registration that was free against the loaded records is refused once the new ID is written |
| `LenientCrud.OnlyHolder` | Final.c:462-463 | a value the found record may take is held by no other record |
| `LenientCrud.ReplaceKeepsUnique` | Final.c:466-517 | replacing a record that no other record matches keeps uniqueness |
| `LenientCrud.WithIdAlone` | Final.c:449-468 | after the ID step the found record is matched by no other record |
| `LenientCrud.UpdateKeepsUnique` | Final.c:449-488 | update keeps every ID and registration unique |
| `LenientCrud.RevisedIsSavable` | Final.c:466-517 | revising a savable record with accepted answers gives a savable record |
| `LenientCrud.UpdateKeepsSavable` | Final.c:466-517 | update keeps every record savable |
| `LenientCrud.UpdateSaveReload` | Final.c:520 | the updated records survive save and reload unchanged |
| `LenientCrud.FindIdFrom` | Final.c:545-553 | the first index from i on whose compared ID equals the compared key, or -1 |
| `LenientCrud.Delete` | Final.c:524-572 | NoRecords on an empty file; NotFound iff no ID matches; otherwise the first record with a matching ID is removed and the others keep their order |
| `LenientCrud.DeleteRecord` | Final.c:536-569 | on the array: the ID search loop, then the shift loop and n-1, or nothing changes |
| `LenientCrud.DeleteIgnoresReg` | Final.c:545-553 | a registration that find_by_id_or_reg finds deletes nothing |
| `LenientCrud.DeleteKeepsUnique` | Final.c:568-569 | delete keeps uniqueness |
| `LenientCrud.DeleteKeepsSavable` | Final.c:568-569 | delete keeps every record savable |
| `LenientCrud.DeletedIsGone` | Final.c:620-627 | after a delete the key is found no more, neither as an ID nor as a registration |

## Left out

- Menus, prompts, the `0` back answer, the Y/N confirmations, and all printing are left out. This covers `main`, `unit_test_menu`, `display_menu_top`, `input_line`, `confirmAction`, `display_records`, `display_all`, `fake_save_all` and `assert_equal_*`. A cancelled confirmation means the operation saves nothing, so it is not modelled separately. Because `0` is the back answer, the lenient program never stores an ID or registration `0`, although `is_valid_id_or_reg` (Final.c:65-73) accepts it: `input_line` (Final.c:242) and the update prompts (Final.c:454, 475) return on it first. `LenientCrud.Add` and `LenientCrud.Revise` therefore accept the answer `0`, which the program never passes on. In the strict variant `0` fails every ID and registration check anyway.
- `clear_screen` is left out: it is a `system()` call.
- Each prompt is modelled by one answer. A loop that asks again after a refused value becomes one attempt that reports the problem (`Records.Problem`). The same goes for the strict update's key prompt, which asks again until the key is found.
- Real file handles are left out: `fopen`, `fclose`, `perror` and failed opens or writes. The file is its text, `None` is a file that does not exist, and save is `Csv.SaveText`.
- The 511-character limit of `fgets` is left out: each line is assumed shorter than `MAX_LINE`. The 128-byte input buffers are left out too: an answer is any string.
- `sscanf` with `%d` is modelled with an optional sign and an unbounded value. Overflow on long digit runs is undefined behaviour in C and is left out.
- Character classes are those of the C locale. `_stricmp` and `strcasecmp` are both ASCII case-insensitive equality.
- Strings are assumed to hold no NUL. `Strict.TrimWhitespace`, `Strict.SearchRecord`, `StrictCrud.UpdateRecord`, `Lenient.ToLowerStr`, `Lenient.LowerCopy`, `Lenient.SearchRecord` and `LenientCrud.DeleteRecord` state this as a requirement on their inputs, so that a buffer's `strlen` is the length of the text it holds.
- The sample lines of `ensure_csv_has_sample` are modelled as the saved lines of `Records.Samples`: each line of the source is the four fields joined by commas.
- `Unit_Test.c`, `E2E_Test.c` and `Project.h` are not part of this model. They duplicate `58_Project.c`.
- The stray text at Final.c:754 is not part of this model.
- LenientCrud.AddSaveReload: requires that the typed date hold no '\r' or '\n'. The validator lets both through. `input_line` cuts the whole line break at the end of the typed line; a line break left inside a date is not modelled.
- LenientCrud.UpdateKeepsSavable: requires no '\r' or '\n' in the typed date. The update prompts (Final.c:453, 474, 494, 509) strip only one trailing '\n' or '\r', so a date typed with a CRLF ending, "1/8/2025\r\n", is kept as "1/8/2025\r". The validator passes the '\r' and the date is stored with it. That case is excluded here.
- LenientCrud.UpdateSaveReload: requires no '\r' or '\n' in the typed date. For the CRLF case above, the stored "1/8/2025\r" comes back after save and reload as "1/8/2025", so the round trip fails there; that case is excluded.
- CText.ToLower: its ensures says only that a capital becomes some small letter. Which letter it becomes, the one at the same place in the alphabet, is stated by `CText.ToLowerTable` and `CText.CapitalsComplete`. Keeping that out of the function's own contract keeps the proofs about case-insensitive keys small.
- Strict.SaveLoad: requires storable records, which are trimmed and have no empty field. `Strict.SaveLoadTrims` states what happens to untrimmed fields, and `Strict.SavedBlankIsDropped` what happens to empty ones.

## Findings

| source | as written | input that shows it | evidently intended | confidence | as-written member | corrected member |
|---|---|---|---|---|---|---|
| 58_Project.c:240 | the sample loop runs `i < ID_REG_MAX_LEN`, which is 16, so a new file gets 16 of the 20 sample lines | no CSV file at start-up: `load_all` then returns 16 records | all 20 samples written, as the comment at 217 and the 20-entry array say | not executed | `Strict.BootstrapAsWrittenLoses4` | `Strict.BootstrapLoadsSamples` |
