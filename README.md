# mongodb-backup-util, modelled in Dafny

This project models the two parts of mongodb-backup-util that hold its logic.

**`scheduleJobUtc`** translates a recurrence spec stated in some timezone into
the UTC field lists the job engine needs:

- Every field (a number, an array or a `TimeRange`) becomes a list of integers.
- A reference instant t0 takes the first value of every given field.
- t1 is t0 shifted by the machine's offset from UTC plus the target offset.
- Every value is moved by the difference of t0 and t1 truncated to its field.
  Calendar fields wrap through the calendar; the day of the week uses
  JavaScript's `% 7`.
- The rule holds only the fields the spec gave.

Instants are integer Gregorian date-times (module `Calendar`). Each of
moment's UTC setters is a function that carries overflow into the coarser
fields the way JavaScript's `Date` does. The per-field loop rewrites the
caller's arrays in place, as the source does, so arrays are Dafny `array`s
and the aliasing is part of the model.

**`BackupUtil`** is modelled as a class (module `Backup`). It works over:

- a filesystem, class `FileSystem.Fs`: a map from paths, each a list of
  components, to directories (with the names they record) or files.
  `readdirSync` returns a directory's names sorted by code point, which is
  the byte order libuv's `scandir` sorts UTF-8 names in;
- a database, class `Database.Db`: a map from collection names to document
  lists.

It models:

- **backup:** the target path is chosen and `~` is expanded. The
  `<db>-YYMMDD-HHmmss` snapshot name is built (module `Naming`). The root is
  created if absent, and an existing snapshot path is a collision. Otherwise
  the layout `<root>/<snapshot>/<collection>/<String(_id)>.bson` is written,
  one `writeFileSync` per streamed document.
- **restore:** `ls`, the missing path and the nonexistent path are handled
  first. Each entry of the snapshot directory is then dropped and rebuilt
  from its files, in the sorted order `readdirSync` returns them, with an
  ordered `bulkWrite` or with `createCollection`.
- **printBackups:** lists the snapshot directories under the root.

Every filesystem step keeps the tree well formed:

- each entry is listed by its parent directory;
- a directory lists each name once.

These are the main results:

- A backup that creates a snapshot leaves exactly the documents' files in
  every collection directory.
- A backup changes no existing file. The only new entries are the root, when
  it was absent, and the snapshot directory with everything below it. The only
  listings that change are the root's, which gains the snapshot's name, and,
  when the root is made, its parent's. This holds for document ids and
  collection names without `/`, `.` or `..` components (see "Left out").
- A collision writes nothing.
- Restoring a snapshot that backup wrote rebuilds every collection with the
  documents it was backed up with, ordered by file name (`<String(_id)>.bson`),
  not in stream order. This holds when the BSON decoder inverts the encoder
  and the ids are distinct (`Backup.BackupThenRestore`).
- When the server rejects the drop of a collection that exists, restore
  treats the drop as done. The ordered `bulkWrite` then appends the documents
  to what the collection already held, up to the first `_id` the collection
  already holds, where the server stops with a duplicate key error. A
  surviving collection that already holds every backed-up id is left as it
  was.

Some behaviour of the code is modelled as written:

- **A file that fails to deserialise adds nothing to its batch.** Its catch
  block (src/BackupUtil.ts:149-153) calls `exit()` and returns. `exit()`
  closes the database client and ends the process asynchronously, racing with
  the rest of restore. `exit()` is left out, so the model goes on with the
  remaining files and entries.
- **No retention routine and no name validator.** src/BackupUtil.ts has
  neither, so neither is modelled.
- **Restore checks existence before expanding `~`.** It checks the path as
  given (src/BackupUtil.ts:118), before `~` is expanded (src/BackupUtil.ts:124),
  so a path that starts with `~` only passes the check if it exists literally.
  The model does the same.

## Model

| member | source | states |
|---|---|---|
| Calendar.SetYear | src/misc/ScheduleJobUtc.ts:65 | set("year"): the year is v; month and time are kept; the day is kept when it fits the month in year v, and otherwise (29 February into a common year) clamped to the month's last day |
| Calendar.SetMonth | src/misc/ScheduleJobUtc.ts:66 | set("month"): the month index becomes 12·year + v, so v outside 0..11 carries into the year; in range the year is kept and the month is v; the day is clamped to the target month; the time is kept |
| Calendar.SetDate | src/misc/ScheduleJobUtc.ts:67 | set("date"): the day number is counted on from the first of the month, so overflow moves into later or earlier months; the time is kept |
| Calendar.SetDateInRange | src/misc/ScheduleJobUtc.ts:67 | a day inside the month is stored as it is |
| Calendar.SetHour | src/misc/ScheduleJobUtc.ts:68 | set("hour"): the hours since the epoch day move to day·24 + v, so overflow carries into days; minute and second are kept |
| Calendar.SetHourInRange | src/misc/ScheduleJobUtc.ts:68 | an hour in 0..23 is stored as it is |
| Calendar.SetMinute | src/misc/ScheduleJobUtc.ts:69 | set("minute"): minutes are counted on from the start of the hour, carrying into hours; the second is kept |
| Calendar.SetMinuteInRange | src/misc/ScheduleJobUtc.ts:69 | a minute in 0..59 is stored as it is |
| Calendar.SetSecond | src/misc/ScheduleJobUtc.ts:70 | set("second"): the time value changes by v minus the old second |
| Calendar.SetSecondInRange | src/misc/ScheduleJobUtc.ts:70 | a second in 0..59 is stored as it is |
| Calendar.AddMinutes | src/misc/ScheduleJobUtc.ts:74 | add(n minutes): the time value grows by 60·n seconds and the second is kept |
| Calendar.FromSeconds | src/misc/ScheduleJobUtc.ts:74 | the valid instant at a time value, whose time value is that value |
| Calendar.Decompose | src/misc/ScheduleJobUtc.ts:74 | carrying seconds up to months gives a valid instant with the same time value |
| Calendar.SecondsInjective | src/misc/ScheduleJobUtc.ts:73-74 | two valid instants with the same time value are equal |
| Calendar.SecondsInjectiveAll | src/misc/ScheduleJobUtc.ts:73-74 | the same, for all pairs of instants |
| Calendar.NormDate | src/misc/ScheduleJobUtc.ts:67 | a day outside its month is normalised into the month it lands in, keeping its day count |
| Calendar.MonthsDisjoint | src/misc/ScheduleJobUtc.ts:67 | different months cover disjoint day numbers |
| Calendar.DaysBeforeMonthGrows | src/misc/ScheduleJobUtc.ts:67 | the day count of month starts is monotone |
| Calendar.SecondsSplit | src/misc/ScheduleJobUtc.ts:74 | a valid instant's time value determines its day, hour, minute and second |
| Calendar.DayNumberSplit | src/misc/ScheduleJobUtc.ts:67 | a valid instant's day number determines its year, month and day |
| Calendar.DaysIn | src/misc/ScheduleJobUtc.ts:67 | months have 28 to 31 days |
| Calendar.DaysInMonth | src/misc/ScheduleJobUtc.ts:67 | months have 28 to 31 days |
| Schedule.ValueToArray | src/misc/ScheduleJobUtc.ts:33-48 | undefined gives a new empty array and a number a new one-element array; an array is returned itself, not copied; a TimeRange gives a new array of start + i for i = 0, step, … while i < end |
| Schedule.RangeFromShape | src/misc/ScheduleJobUtc.ts:41-43 | the values from an offset on: empty exactly when the offset is not below end, consecutive values step apart, the last offset below end |
| Schedule.RangeShape | src/misc/ScheduleJobUtc.ts:41-43 | a TimeRange starts at start, steps by step, is empty exactly when end <= 0, and the bound applies to the offset from start, not to the value |
| Schedule.RangeFromUnit | src/misc/ScheduleJobUtc.ts:23 | with step 1 the values from an offset on are consecutive |
| Schedule.RangeUnitStep | src/misc/ScheduleJobUtc.ts:23 | with the default step 1, TimeRange(start, end) is start, …, start + end − 1 |
| Schedule.WorkDaysRange | src/tests/schedules.ts:29 | TimeRange(1, 5) stands for [1, 2, 3, 4, 5] |
| Schedule.FieldIndex | src/misc/ScheduleJobUtc.ts:52-60 | the position of every field in the values object's order |
| Schedule.JobSpec.constructor | src/misc/ScheduleJobUtc.ts:7-15 | a spec holds the fields it is given |
| Schedule.Set | src/misc/ScheduleJobUtc.ts:130 | setting a calendar field gives a valid instant |
| Schedule.SetFirst | src/misc/ScheduleJobUtc.ts:65-70 | the first value is set; an empty list makes the setter a getter and keeps the instant |
| Schedule.SetIfGiven | src/misc/ScheduleJobUtc.ts:65-70 | only a given field is set |
| Schedule.T0 | src/misc/ScheduleJobUtc.ts:63-73 | t0 is valid: now, with the first value of each given field set, year down to second |
| Schedule.T0TakesFirstValues | src/misc/ScheduleJobUtc.ts:63-73 | with in-range first values whose day fits the resulting month, t0 carries exactly those values and keeps now's values for fields not given, on every day of the month but a 29 February with no date given (which setting a year clamps); dayOfWeek has no say |
| Schedule.GivenDate | src/misc/ScheduleJobUtc.ts:67 | a given in-month day is set as it is |
| Schedule.GivenHour | src/misc/ScheduleJobUtc.ts:68 | a given in-range hour is set as it is |
| Schedule.GivenMinute | src/misc/ScheduleJobUtc.ts:69 | a given in-range minute is set as it is |
| Schedule.GivenSecond | src/misc/ScheduleJobUtc.ts:70 | a given in-range second is set as it is |
| Schedule.WholeHourInstant | src/misc/ScheduleJobUtc.ts:74 | a shift by n whole hours keeps minute and second and moves the hour count by n |
| Schedule.YearEndInstant | src/misc/ScheduleJobUtc.ts:74 | one hour after 31 December 2000, 23:30 it is 1 January 2001, 00:30 |
| Schedule.YearEndShift | src/misc/ScheduleJobUtc.ts:76-93 | across the midnight of 31 December 2000 the year, month, date and hour diffs are each 1, and a scheduled month 11 is adjusted to month 0 |
| Schedule.WholeHourShift | src/misc/ScheduleJobUtc.ts:74-118 | for a whole-hour shift n: the hour diff is n, the minute and second diffs are 0, the date diff is the number of midnights crossed, and the dayOfWeek diff equals the date diff |
| Schedule.JsRem | src/misc/ScheduleJobUtc.ts:136 | JavaScript's %: magnitude below the divisor, sign of the dividend |
| Schedule.JsRemWeekday | src/misc/ScheduleJobUtc.ts:136 | (v + diff) % 7 names the same weekday as v + diff, but lies in −6..−1 for a negative sum |
| Schedule.Adjusted | src/misc/ScheduleJobUtc.ts:126-137 | the adjusted list keeps the input's length, and the running copy t2 stays valid |
| Schedule.ReadBack | src/misc/ScheduleJobUtc.ts:130 | a field read back after setting w: the year as set; month, hour, minute and second wrapped into range; date in 1..31 |
| Schedule.MonthReadBack | src/misc/ScheduleJobUtc.ts:130 | the month reads back as w % 12 |
| Schedule.HourReadBack | src/misc/ScheduleJobUtc.ts:130 | the hour reads back as w % 24 |
| Schedule.MinuteReadBack | src/misc/ScheduleJobUtc.ts:130 | the minute reads back as w % 60 |
| Schedule.SecondReadBack | src/misc/ScheduleJobUtc.ts:130 | the second reads back as w % 60 |
| Schedule.AdjustedValue | src/misc/ScheduleJobUtc.ts:129-137 | every output value is its input plus diff, read back through its field (or the JavaScript remainder by 7 for dayOfWeek) |
| Schedule.AdjustedDateFits | src/misc/ScheduleJobUtc.ts:130 | a date whose shifted day is 1..28 comes out as value + diff, whatever months earlier values carried t2 into |
| Schedule.MinutesAndSecondsKept | src/misc/ScheduleJobUtc.ts:102-112 | under a whole-hour shift, minute and second lists in 0..59 come out unchanged |
| Schedule.UnshiftedKept | src/misc/ScheduleJobUtc.ts:130 | with diff 0, in-range minutes and seconds are unchanged |
| Schedule.UnshiftedKeptAt | src/misc/ScheduleJobUtc.ts:130 | the same, at one position |
| Schedule.UnshiftedValue | src/misc/ScheduleJobUtc.ts:130 | an in-range minute or second set with diff 0 reads back as itself |
| Schedule.AdjustedStep | src/misc/ScheduleJobUtc.ts:129-137 | one more value extends the adjusted prefix by the value read back from the running t2 |
| Schedule.Splice | src/misc/ScheduleJobUtc.ts:130 | overwriting the element after the done prefix extends the prefix |
| Schedule.AdjustCalendarField | src/misc/ScheduleJobUtc.ts:126-132 | the array of a calendar field is rewritten in place to its adjusted list, with one t2 reused across its values |
| Schedule.AdjustAt | src/misc/ScheduleJobUtc.ts:130 | one turn of that loop keeps the invariant |
| Schedule.AdjustDayOfWeek | src/misc/ScheduleJobUtc.ts:135-137 | the dayOfWeek array is rewritten in place to (v + diff) % 7 with JavaScript's remainder |
| Schedule.AdjustField | src/misc/ScheduleJobUtc.ts:124-138 | each field's array is rewritten in place to its adjusted list |
| Schedule.FieldSetComplete | src/misc/ScheduleJobUtc.ts:52-60 | every field is among the values object's keys |
| Schedule.AllInFieldSet | src/misc/ScheduleJobUtc.ts:52-60 | the same, for all fields |
| Schedule.WithDefaultSecond | src/misc/ScheduleJobUtc.ts:50 | an undefined second becomes 0 and every other field is kept |
| Schedule.InputValues | src/misc/ScheduleJobUtc.ts:52-60 | the values object has a list for every field |
| Schedule.InjectiveValues | src/misc/ScheduleJobUtc.ts:39 | when the spec gives no array twice, no array serves two fields |
| Schedule.Lookup | src/misc/ScheduleJobUtc.ts:53-59 | a field of the spec, or undefined |
| Schedule.MakeValues | src/misc/ScheduleJobUtc.ts:52-60 | every field gets the list valueToArray gives for it: a given array is that very array, any other list a fresh array, and an undefined field's array is empty |
| Schedule.AdjustedValues | src/misc/ScheduleJobUtc.ts:122-140 | every field of the values object keeps its key |
| Schedule.Scheduled | src/misc/ScheduleJobUtc.ts:62-140 | the lists handed on cover the same fields as the values object |
| Schedule.ScheduledFrom | src/misc/ScheduleJobUtc.ts:62-140 | the scheduled lists are the lists adjusted between t0 and the shifted t1 |
| Schedule.AdjustAll | src/misc/ScheduleJobUtc.ts:122-140 | when no array serves two fields, every array holds its field's adjusted list |
| Schedule.AdjustFieldAt | src/misc/ScheduleJobUtc.ts:122-140 | one field's turn adjusts its array and leaves every other field's list alone |
| Schedule.InitialInstant | src/misc/ScheduleJobUtc.ts:62-73 | the method builds exactly T0 from the arrays and leaves them unchanged |
| Schedule.InputValuesUnchanged | src/misc/ScheduleJobUtc.ts:50-60 | the values object's lists depend only on the spec's arrays |
| Schedule.RuleOf | src/misc/ScheduleJobUtc.ts:142-149 | the rule sets exactly the fields the spec defines, each to its array |
| Schedule.BuildRule | src/misc/ScheduleJobUtc.ts:52-149 | the rule has exactly the spec's fields; a field given as an array gets that very array, rewritten in place; when no array is given twice, the rule's lists are the Scheduled lists |
| Schedule.ScheduleJobUtc | src/misc/ScheduleJobUtc.ts:31-151 | the spec gains second = 0 if it had none; the rule carries second and exactly the spec's fields; when no array is given for two fields, its lists are the Scheduled lists under the shift by the machine offset plus 60·utcOffset minutes |
| Naming.ExpandTilde | src/BackupUtil.ts:52 | a ~ at the start, followed by the end or a slash, becomes the home directory; any other string is unchanged |
| Naming.ExpandTildeCases | src/BackupUtil.ts:124 | ~user and a string not starting with ~ are left alone; "~" alone becomes home; expansion keeps the rest |
| Naming.ExpandTildeIdempotent | src/BackupUtil.ts:199 | expanding twice is expanding once when home itself has no expandable ~ |
| Naming.ZeroFill2 | src/BackupUtil.ts:64 | a non-negative field prints as two digits; a negative one gets a minus sign |
| Naming.ParseZeroFill2 | src/BackupUtil.ts:64 | two zero-filled digits read back as the number |
| Naming.YearOfCentury | src/BackupUtil.ts:64 | YY is JavaScript's year % 100, in −99..99, and the plain remainder for years from 0 |
| Naming.StampFields | src/BackupUtil.ts:64 | a stamp reads back as six fields |
| Naming.StampHasShape | src/BackupUtil.ts:64 | the stamp is six digits, a dash, six digits |
| Naming.SnapshotNameShape | src/BackupUtil.ts:64 | the name is the database name, a dash and the stamp, |dbName| + 14 characters long |
| Naming.StampRoundTrip | src/BackupUtil.ts:64 | the stamp reads back as year % 100, month + 1, day, hour, minute and second |
| Naming.SnapshotNameInjective | src/BackupUtil.ts:64-66 | two backups of a database collide only when taken in the same second of the same year of the century |
| FileSystem.Join | src/BackupUtil.ts:65 | joining appends one component: the parent is the directory and the base is the name |
| FileSystem.NothingBelow | src/BackupUtil.ts:59-60 | nothing lies below an absent path of a well-formed tree |
| FileSystem.AfterMkdir | src/BackupUtil.ts:72 | mkdirSync adds exactly the new path, and the parent records its name |
| FileSystem.MkdirKeepsValid | src/BackupUtil.ts:72 | mkdirSync keeps the tree well formed, makes an empty directory, and changes nothing but the parent's listing |
| FileSystem.AfterWrite | src/BackupUtil.ts:86 | writeFileSync adds at most the written path |
| FileSystem.WriteKeepsValid | src/BackupUtil.ts:86 | writeFileSync keeps the tree well formed, stores the data, and changes nothing but the file and its parent's listing |
| FileSystem.ReplaceKeepsValid | src/BackupUtil.ts:86 | overwriting a file keeps the tree well formed |
| FileSystem.CreateKeepsValid | src/BackupUtil.ts:86 | a new file, recorded by its parent, keeps the tree well formed |
| FileSystem.NameLeTotal | src/BackupUtil.ts:127 | any two names are ordered one way or the other |
| FileSystem.NameLeAntisymmetric | src/BackupUtil.ts:127 | two names each sorting no later than the other are equal |
| FileSystem.InsertBy | src/BackupUtil.ts:127 | inserting adds one element |
| FileSystem.InsertPermutes | src/BackupUtil.ts:127 | inserting adds exactly the element, keeping the others |
| FileSystem.InsertOrdered | src/BackupUtil.ts:127 | inserting into an ordered sequence keeps it ordered |
| FileSystem.InsertDistinct | src/BackupUtil.ts:127 | inserting a new element into a sequence without repeats leaves none |
| FileSystem.SortBy | src/BackupUtil.ts:127 | sorting keeps the length |
| FileSystem.SortPermutes | src/BackupUtil.ts:127 | the sort is a permutation of its input |
| FileSystem.SortMembers | src/BackupUtil.ts:127 | the sort holds exactly the input's elements |
| FileSystem.SortOrdered | src/BackupUtil.ts:127 | the sort is ordered by key |
| FileSystem.SortDistinct | src/BackupUtil.ts:127 | sorting names without repeats leaves none |
| FileSystem.SortedNames | src/BackupUtil.ts:127 | readdirSync returns as many names as the directory records |
| FileSystem.Fs.constructor | src/BackupUtil.ts:4 | the filesystem holds the given tree |
| FileSystem.Fs.Listing | src/BackupUtil.ts:127 | readdirSync gives a directory's names sorted by code point, and fails exactly on a missing entry or a file |
| FileSystem.Fs.ReadFile | src/BackupUtil.ts:147 | readFileSync gives a file's data, and fails exactly on a missing entry or a directory |
| FileSystem.Fs.Mkdir | src/BackupUtil.ts:60 | mkdirSync succeeds exactly when the path is absent and its parent a directory; on failure nothing changes |
| FileSystem.Fs.WriteFile | src/BackupUtil.ts:86 | writeFileSync succeeds exactly when the parent is a directory and the path is not one; on failure nothing changes |
| Database.Ids | src/BackupUtil.ts:173 | there are no more ids than documents |
| Database.IdsMembers | src/BackupUtil.ts:173 | every document's id is among the ids |
| Database.Inserted | src/BackupUtil.ts:173 | an ordered bulk inserts no more documents than it is given |
| Database.InsertedPrefix | src/BackupUtil.ts:173 | what an ordered bulk inserts is a prefix of it |
| Database.InsertedNew | src/BackupUtil.ts:173 | every inserted document has an `_id` neither the collection nor an earlier document of the bulk holds |
| Database.InsertedStops | src/BackupUtil.ts:173 | a bulk cut short stops at a document whose `_id` is taken |
| Database.InsertedAll | src/BackupUtil.ts:173 | a bulk of distinct ids none of which is held is inserted in full |
| Database.NoneInserted | src/BackupUtil.ts:173 | a bulk every id of which is held inserts nothing |
| Database.Db.constructor | src/BackupUtil.ts:126 | the database holds the given collections and the server's answers to drops |
| Database.Db.Drop | src/BackupUtil.ts:181 | a refused drop resolves false and keeps the collection; an existing collection is removed unless the server rejects its drop; a missing one, or one whose drop is rejected, rejects and nothing changes |
| Database.Db.BulkWrite | src/BackupUtil.ts:173 | the ordered bulkWrite appends, after what the collection holds, the documents up to the first whose `_id` is already taken, as Inserted says; a missing collection is created |
| Database.Db.CreateCollection | src/BackupUtil.ts:176 | an empty collection is created exactly when the name is free |
| Backup.Or | src/BackupUtil.ts:45 | `a || b` is empty only when b is |
| Backup.Names | src/BackupUtil.ts:78 | the collection names, in order |
| Backup.FileNames | src/BackupUtil.ts:85 | the documents' file names, in order |
| Backup.FilesNamed | src/BackupUtil.ts:85-86 | a file name holds a file exactly when some document is written to it |
| Backup.ListedFiles | src/BackupUtil.ts:140 | a collection directory records exactly the names of its files |
| Backup.ListedDistinctIds | src/BackupUtil.ts:83-86 | with distinct ids the directory records one file name per document; readdirSync returns them sorted (Backup.SortByFileName) |
| Backup.InsertByFileName | src/BackupUtil.ts:140 | inserting a document by file name inserts its file name among the file names |
| Backup.SortByFileName | src/BackupUtil.ts:140 | the file names of the documents ordered by file name are the sorted file names |
| Backup.SortedIdsDistinct | src/BackupUtil.ts:140 | ordered by file name, documents with distinct ids keep distinct ids, and their file names strictly increase |
| Backup.LastWriteWins | src/BackupUtil.ts:83-86 | a file holds the last document written to it |
| Backup.FileNameInjective | src/BackupUtil.ts:85 | two documents share a file only when their ids print alike |
| Backup.DistinctIdsKeepAll | src/BackupUtil.ts:83-86 | with distinct ids every document keeps its own file with its own serialisation |
| Backup.EqualIdStringsCollide | src/BackupUtil.ts:85 | of two documents whose ids both print as 1, only the later reaches the snapshot |
| Backup.KeepsFilesOf | src/BackupUtil.ts:72 | a step that changes only a directory keeps every file |
| Backup.KeepsFilesTrans | src/BackupUtil.ts:59-89 | keeping every file composes |
| Backup.AddsUnderTrans | src/BackupUtil.ts:59-89 | additions below a subdirectory are additions below the root |
| Backup.WriteDocs | src/BackupUtil.ts:83-89 | writing the documents into a directory of files leaves a directory of files |
| Backup.WriteDocsValid | src/BackupUtil.ts:83-89 | writing the documents keeps the tree well formed |
| Backup.WriteDocsContents | src/BackupUtil.ts:83-89 | an empty directory ends up holding exactly the documents' files; nothing outside it changes |
| Backup.WriteStep | src/BackupUtil.ts:86 | one more write keeps that statement |
| Backup.WriteStepFrame | src/BackupUtil.ts:86 | a write into the collection directory keeps everything outside it and adds only below it |
| Backup.WriteStepFiles | src/BackupUtil.ts:86 | a write adds or replaces exactly one file of the directory |
| Backup.WriteDocsListing | src/BackupUtil.ts:83-89 | the directory records the file names once each, in the order of their first writes; readdirSync returns them sorted |
| Backup.ListingStep | src/BackupUtil.ts:86 | a write adds a new file's name to the recorded names and leaves them alone for an existing file |
| Backup.NewDirEmpty | src/BackupUtil.ts:79 | a directory just made holds nothing |
| Backup.EmptyDirHoldsNothing | src/BackupUtil.ts:59-66 | a root made just now cannot hold the snapshot path |
| Backup.NewCollection | src/BackupUtil.ts:76-89 | one collection's mkdirSync and writes keep the tree well formed |
| Backup.NewCollectionContents | src/BackupUtil.ts:76-89 | the collection directory gets its layout and the snapshot directory records its name; nothing else changes |
| Backup.Snapshot | src/BackupUtil.ts:76-100 | the forEach over the collections keeps the tree well formed |
| Backup.DistinctSnoc | src/BackupUtil.ts:76-79 | a name can be added without a repeat exactly when it is new |
| Backup.LayoutKept | src/BackupUtil.ts:76-89 | writing a sibling collection does not disturb a collection's layout |
| Backup.SnapshotContents | src/BackupUtil.ts:72-100 | the collections are written exactly when their names are distinct; then the snapshot directory records their names, each collection with its layout; nothing outside it changes |
| Backup.CollectionNameTaken | src/BackupUtil.ts:79 | a repeated collection name makes mkdirSync fail |
| Backup.AddCollection | src/BackupUtil.ts:76-89 | a collection with a new name extends the snapshot layout |
| Backup.LayoutsKept | src/BackupUtil.ts:76-89 | the collections already written keep their layouts |
| Backup.Batch | src/BackupUtil.ts:140-159 | the batch has at most one document per file name it is given |
| Backup.BatchAppend | src/BackupUtil.ts:140-161 | the batch of a split listing is the two batches in order, so a failing file drops out without disturbing the others |
| Backup.BatchAllRead | src/BackupUtil.ts:140-159 | when every file deserialises, the batch holds them all, each at the position of its name |
| Backup.BatchFromFiles | src/BackupUtil.ts:140-159 | every document of the batch comes from a listed file |
| Backup.RestoreReadsBack | src/BackupUtil.ts:140-159 | with a decoder that inverts the encoder and distinct ids, the batch read from a backed-up collection in readdirSync's order is its documents ordered by file name |
| Backup.RebuiltFromSnapshot | src/BackupUtil.ts:127-181 | a collection rebuilt from a backed-up entry receives, after what the drop left, the documents ordered by file name up to the first id already held |
| Backup.BackupThenRestore | src/BackupUtil.ts:72-181 | a restored snapshot records the backed-up collections; each one rebuilt receives its documents ordered by file name: exactly those when its drop went through or found nothing; after a rejected drop, what was there followed by them up to the first id already held, so nothing when every id is held and all of them when none is |
| Backup.SnapshotStops | src/BackupUtil.ts:79 | once a mkdirSync has thrown, later collections change nothing |
| Backup.RestoredAsRebase | src/BackupUtil.ts:127-181 | one entry's result holds against any state that agrees on its collection |
| Backup.RestoredAsKept | src/BackupUtil.ts:127-181 | later entries leave an entry's collection as it was restored |
| Backup.BackupUtil.constructor | src/BackupUtil.ts:17 | the target directory starts empty |
| Backup.BackupUtil.Backup | src/BackupUtil.ts:43-99 | an empty target does nothing; otherwise the target is ~-expanded; the outcome is a collision exactly when the snapshot path existed, and then nothing is written; it fails exactly otherwise when names repeat or the root is unusable; a created snapshot is new, named root/<db>-stamp, and has the layout, and the root then lists what it listed before (nothing when just made) plus the snapshot name; no existing file changes; every new entry is the root or lies below the snapshot path; no node but the root's and its parent's changes |
| Backup.BackupUtil.MakeSnapshot | src/BackupUtil.ts:59-100 | the same, from the resolved root on |
| Backup.BackupUtil.MakeRoot | src/BackupUtil.ts:59-62 | the root is created only when absent; an existing root is left as it is; the root is the only new entry and only its parent's listing changes |
| Backup.BackupUtil.CreateSnapshot | src/BackupUtil.ts:72-100 | mkdirSync of the snapshot directory, then the collections: created exactly when the directory can be made and names are distinct; the parent's listing gains the snapshot's name and is the only node changed; everything new lies below the snapshot |
| Backup.MkdirThenFill | src/BackupUtil.ts:72-89 | making the snapshot directory and filling it changes only its parent's listing, which gains its name, keeps every file, and adds only below it |
| Backup.BackupUtil.FillSnapshot | src/BackupUtil.ts:76-100 | the collections are written exactly when their names are distinct, with the layout; only the snapshot directory's node changes and everything new lies below it |
| Backup.BackupUtil.BackupCollections | src/BackupUtil.ts:76-100 | the loop leaves the tree Snapshot computes |
| Backup.BackupUtil.BackupCollection | src/BackupUtil.ts:78-89 | mkdirSync, then one writeFileSync per document, leaves the tree NewCollection computes |
| Backup.BackupUtil.PrintBackups | src/BackupUtil.ts:188-207 | an empty path lists nothing; otherwise every entry of the expanded, resolved root is listed as root/name, in readdirSync's sorted order, each once, and no entry is missed |
| Backup.BackupUtil.Restore | src/BackupUtil.ts:106-184 | "ls" lists instead; an empty path and a path absent before expansion stop without touching the database; otherwise each entry of the expanded root is dropped and rebuilt as RestoredAs says, and collections not listed are untouched |
| Backup.BackupUtil.RestoreAll | src/BackupUtil.ts:127-183 | every entry is restored, and only the listed collections change |
| Backup.BackupUtil.RestoreCollection | src/BackupUtil.ts:129-181 | a refused drop changes nothing; a rejected drop counts as done; an entry that is not a directory leaves the collection as the drop left it; otherwise the collection holds what the drop left followed by what the ordered bulkWrite inserts of the batch read in readdirSync's order |
| Backup.BackupUtil.Rebuild | src/BackupUtil.ts:135-177 | after the drop: bulkWrite of a non-empty batch, read in readdirSync's order and appended up to the first duplicate `_id`, or createCollection of an empty one, which leaves an existing collection alone |
| Backup.BackupUtil.ReadBatch | src/BackupUtil.ts:140-161 | the loop builds exactly Batch |

## Left out

- src/DbRemote.ts is not part of this model. The database name and the list of collections with their documents are inputs of `Backup`. The query filter passed to `find` is left out; all documents are backed up.
- src/Main.ts (argument parsing, configuration loading), the constructor's dispatch on the first argument, signal handlers, `exit()`, `process.exit` and `Logger` output are left out. The messages a failure logs are folded into the outcome datatypes.
- Streams, promise chains and the completion-by-index checks (src/BackupUtil.ts:93, 166) are asynchronous ordering and are left out. Each collection's documents are written in stream order, and collections are handled one after another. A backup of zero collections, which never reaches its `exit()` in the source, is not distinguished from others.
- Restore's `readdirSync` calls (src/BackupUtil.ts:127, 140) and backup's `mkdirSync` calls that throw do so inside promise callbacks, so they reject a promise that nothing handles. Whether Node then ends the process depends on its unhandled-rejection mode; the model reports `Failed` for backup and `Unreadable` for a restore entry, and restore goes on with the other entries.
- Backup.BackupUtil.PrintBackups: its `readdirSync` (src/BackupUtil.ts:201) runs synchronously, also when reached from restore's `ls` branch (src/BackupUtil.ts:110-112). A throw there is an uncaught exception that ends the process. The `Unlistable` outcome stands for that crash.
- Backup.BackupUtil.BackupCollections: the model writes each collection's documents right after making its directory. The source makes every collection directory (src/BackupUtil.ts:79) before any document is written (src/BackupUtil.ts:83-86). A successful backup leaves the same tree either way. After a `mkdirSync` fails at collection k, the model has written the documents of collections 0..k-1, while the source has left their directories empty at that point. The `Failed` outcome states only the frame, not this partial tree.
- Database.Db.BulkWrite: the duplicate key stop of the ordered `bulkWrite` is modelled; `Inserted` compares ids as `String(_id)`, so two ids of different BSON types that print alike count as one. Other server errors are left out. The error reported to the callback, and that of a `createCollection` of a name the rejected drop left in place, only reach the log, which is left out.
- `path.resolve` is an abstract function parameter.
- FileSystem.Join, Backup.BackupUtil.Backup: `path.join` appends one component and does not normalise. In the source, an `_id` or collection name holding `/` makes `writeFileSync` or `mkdirSync` throw. One holding `..` writes outside its collection directory, possibly outside the root. The frame of `Backup` and its `Failed` condition hold only for names without `/`, `.` or `..` components. `os.homedir()` and `config.path` are constructor parameters. `$` patterns in the home directory as a replacement string are left out.
- `Backup.BackupUtil.targetDir` holds the `~`-expanded string rather than its resolved path. Every operation applies `resolve` to it where the source uses the resolved value. In printBackups the `|| config.path` fallback is left out, because the resolved path is never empty.
- BSON `serialize` and `deserialize` are opaque function parameters, with `deserialize` returning `None` where it throws. Their round trip is not asserted; `Backup.BackupThenRestore` takes it as a hypothesis.
- `readdirSync` returns names sorted by code point (`FileSystem.SortedNames`). libuv's `scandir` sorts them with `strcmp` on their UTF-8 bytes, and code-point order is UTF-8 byte order. Names that are not valid Unicode, and file systems whose names are not UTF-8, are left out.
- Backup.ListedDistinctIds, Backup.WriteDocsListing, Backup.ListingStep: these state the order in which a directory records names, which is creation order. No operation of the source observes that order. `readdirSync` returns the names sorted, and the contracts of `PrintBackups`, `Restore`, `Rebuild` and `BackupThenRestore` are stated on the sorted names.
- src/Interfaces.ts and src/Constants.ts hold only types, and the node-schedule engine, `scheduleJob` and `PrintNextInvocations` are external. The model ends at the recurrence rule handed to the engine.
- Utils.ts is not part of this model. Its `objForEach` is taken to visit the values object's fields in declaration order, year to dayOfWeek.
- JavaScript numbers are modelled as unbounded integers. Fractional field values or `TimeRange` steps are left out, and so is `Date`'s range of ±8.64e15 ms, beyond which a time value is invalid.
- Milliseconds and fractional results of moment's `diff(…, true)` are left out. The shift is in whole minutes: `getTimezoneOffset` is an integer parameter and `utcOffset` a whole number of hours. `Schedule.Diff` divides with Dafny's floor division; with a whole-hour shift every division is exact.
- The current time (`moment.utc()`, `moment()`) and the machine's timezone offset are parameters. The snapshot stamp is formatted from the given local instant.
- Schedule.ValueToArray: requires a TimeRange whose loop terminates (step > 0, or end <= 0). The source loops forever otherwise.
- Schedule.AdjustAll, Schedule.BuildRule, Schedule.ScheduleJobUtc: the adjusted contents are stated only when no array is given for two fields. With shared arrays, the source adjusts the same array twice.
