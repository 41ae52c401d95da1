# import_photos: the ingestion decision loop, in Dafny

`import_photos.py` copies photos and videos from a phone's storage into a
local archive of date folders. For every source file, `main()` does four
things:

- checks the file's timestamp against a date window;
- works out the canonical bucket folder `dest_path + strftime(folder_format)`;
- scans the folders that the glob `bucket*` yields, to skip files that are
  already archived and to choose the destination folder;
- copies the file, creating and describing a new folder when there is none.

After a `.jpg` is copied, `main()` can validate it against its EXIF
capture date. Four counters record the outcome of every file. This project
models that loop and the small policies it uses. It also models the
settings-file validity rule of `load_settings`.

The model is functional. The archive is a sequence of folders, in the order
the directory listing yields them, and each folder has a set of file names.
Standard input is one scripted sequence of lines. The y/n prompt and the
folder-description prompt both read from it. When the script runs out,
`input()` raises `EOFError`. The file operation and the EXIF reader are
oracle parameters. One run is a fold of `StepEntry` over the entries
(`Ingest.RunEntries`). The field `lookup` of `Ingest.Config` picks the folder
a copied photo is validated in. `AsWritten` is the program as it stands, and
`Corrected` is the evident intention (see "## Findings").

Modules:

- `Text`: separator, lower-casing and substring test.
- `Optional` and `Faults`: the option type, and the uncaught exceptions.
- `Prompt`: `input()` and `continue_running`.
- `Archive`: folders and glob matching.
- `Bucket`: the date window, the bucket scan, and new-folder naming and creation.
- `Tally`: file kinds and counters.
- `Validation`: `validate_photo`.
- `Ingest`: one step, the run, and `main`.
- `RunProperties`: lemmas about whole runs.
- `Settings`: `load_settings`.

Some behaviours of the code are easy to misread. The model keeps them as
written:

- When several folders match a bucket, the code uses the **last** match
  (every match overwrites `dest_path_date`), not the first
  (`Bucket.LastAnnotatedFolderWins`).
- A glob `*` stays inside one path component. So a folder matches a bucket
  only when the text after the canonical path holds no separator. On
  Windows both `\` and `/` separate path components (`Text.IsSep`,
  `Archive.Matches`).
- For an invalid settings file, `save_settings` is called with the
  **merged** values: options found in the file are passed on, and only the
  missing ones take defaults. It is not called with pure defaults.
- Test mode does not always count what a live run would copy. A live run
  adds each copy to the archive. A later entry with the same name and the
  same bucket then finds it, provided the description of a newly created
  folder holds neither `\` nor `/` (`RunProperties.TestRunCountsDuplicateTwice`,
  `RunProperties.LiveRunIgnoresDuplicate`).
- Validation also runs after an aborted copy that the user chose to
  continue, because line 192 sits outside the `aborted` branch. The file was
  never copied, so opening it raises (`RunProperties.AbortedPhotoIsStillValidated`).
- Validation at line 193 opens the photo under the destination the scan
  chose. `copy()` only rebinds its own local path, so a photo copied into a
  new annotated folder is not found, and the run crashes
  (`RunProperties.AsWrittenRunCrashesAfterNewFolder`).
- configparser lets an option of the `[DEFAULT]` section stand in for a
  missing option of "Device" or "Options" (`Settings.DefaultSectionSuppliesOption`).

An uncaught exception ends the process with exit status 1, the same as
`return 1`. The model records it as `Crashed(fault)`.

## Model

| member | source | states |
|---|---|---|
| Prompt.ContinueRunning | import_photos.py:34-41 | The result is None exactly when no response lower-cases to "y" or "n". Otherwise the answer comes from the first such response, and is false exactly when it is "n". Only the lines after that response are left unread. |
| Prompt.JunkIsSkipped | import_photos.py:36-37 | Any number of unaccepted responses before a "y"/"n" is skipped. The lines after the accepted response are left untouched for later prompts. |
| Prompt.DecisiveIsLowerYesOrNo | import_photos.py:36-41 | A response ends the prompt exactly when it lower-cases to "y" or "n", and it declines exactly when it lower-cases to "n". |
| Prompt.ReadLine | import_photos.py:118 | A line is read exactly when the script is not exhausted, and exactly one line is consumed. |
| Text.Lower | import_photos.py:164 | `str.lower()` keeps the length and lower-cases each character on its own. |
| Text.Contains | import_photos.py:164 | Python's `sub in s` holds exactly when `sub` occurs at some position of `s`. |
| Text.LowerAppend | import_photos.py:164 | Lower-casing distributes over concatenation, so an extension's case is decided by the extension alone. |
| Tally.KindOf | import_photos.py:164-169 | A name is a photo exactly when ".jpg" occurs in its lower-cased form. Otherwise it is a video exactly when ".mov" occurs. Any other name is neither. |
| Tally.Counters.Copied | import_photos.py:181-186 | A copied file raises exactly the counter of its kind by one, and leaves `files_ignored` alone. |
| Tally.Counters.Ignored | import_photos.py:199-200 | `files_ignored` goes up by one, and the copy counters are unchanged. |
| Tally.UpperCaseJpgIsPhoto | import_photos.py:164-165 | A name ending in ".JPG", in any case, is counted as a photo. |
| Tally.UpperCaseMovIsVideo | import_photos.py:166-167 | A name ending in ".MOV" is counted as a video when ".jpg" does not occur earlier in the name. |
| Tally.PngIsOther | import_photos.py:168-169 | A name that mentions neither extension falls through to the other-files counter. |
| Tally.JpgAnywhereIsPhoto | import_photos.py:164-165 | ".jpg" anywhere in the lower-cased name makes the file a photo and subject to validation, even if ".mov" also occurs. |
| Tally.ShortTailAddsNothing | import_photos.py:164-169 | Appending a different four-character extension creates no new occurrence of ".jpg" or ".mov". |
| Bucket.InWindow | import_photos.py:150 | The window excludes its lower bound and includes its upper bound. It is empty unless the lower bound is below the upper one. |
| Archive.Matches | import_photos.py:153 | The glob `canonical*` yields a path exactly when the path starts with `canonical` and no character after that is a separator, `\` or `/`. |
| Archive.FolderExists | import_photos.py:116 | `exists` on a folder holds exactly when some listed folder has that path. |
| Archive.FileExists | import_photos.py:158 | `exists` on `folder\name` holds exactly when a listed folder with that path holds the name, and then the folder exists. |
| Bucket.Canonical | import_photos.py:151 | The bucket path starts with the archive root, and the rest of it is exactly the formatted date. |
| Bucket.ResolveFrom | import_photos.py:156-162 | The scan stops exactly when some glob-matched folder holds a file of that name, and it stops in the first such folder. Otherwise it ends on the last matched folder, or keeps the destination it started with when nothing matches. |
| Bucket.Resolve | import_photos.py:151-162 | A file is found exactly when it is archived in a matched folder, and it is found in the first matched folder that holds it. Otherwise the destination is the last matched folder, or the canonical path when nothing matches. Either way, the destination matches the bucket. |
| Bucket.LastAnnotatedFolderWins | import_photos.py:156-157 | When two annotated folders exist for a bucket, the one listed last is chosen. |
| Bucket.AnnotatedPath | import_photos.py:119-120 | The folder created for a bucket is the bucket path itself exactly when the description is empty. Otherwise it is the bucket path, a space, and the description. |
| Bucket.NewFolderName | import_photos.py:119-122 | The new folder name starts with the canonical path, ends with the separator, and drops back to the annotated path without it. The description can be read back from it. |
| Bucket.AnnotatedPathMatches | import_photos.py:116-123 | A folder created with a description is found by a later bucket glob exactly when the description holds neither `\` nor `/`. |
| Bucket.PrepareFolder | import_photos.py:116-123 | An existing destination is used unchanged, and nothing is read. Otherwise one line is read as the description, and the annotated folder is added only if it did not exist. `makedirs` on an existing path, or an exhausted script, raises. |
| Archive.AddFolder | import_photos.py:123 | Creating a folder adds exactly that folder. It removes nothing and adds no file. |
| Archive.AddFile | import_photos.py:126-128 | A copy adds exactly one file, to the named folder when that folder exists. No folder appears and nothing is removed. |
| Archive.FileExistsPersists | import_photos.py:158 | A file found in the archive is still found after the archive grows. |
| Validation.ReadExif | import_photos.py:92-95 | Opening the file fails exactly when it is not in the folder. A file without a DateTimeOriginal tag is told apart from a dated one. |
| Validation.ValidatePhoto | import_photos.py:95-103 | The result is "Validated" exactly when the tag is present and both dates format to the same string, and then no input is read. On a mismatch, the prompt decides between ignored ("y") and failed ("n"). A missing file or tag is an error, never a match. |
| Validation.CheckFolder | import_photos.py:193 | As written, the photo is looked for in the destination the scan chose. With the correction, it is looked for in the folder it landed in. |
| Validation.LookupsDifferOnlyForAnnotatedFolder | import_photos.py:116-123 | The two lookups disagree exactly when `copy()` had to create the folder and was given a non-empty description. |
| Validation.AsWrittenValidationMissesAnnotatedFolder | import_photos.py:193 | As written, a photo copied into a newly annotated folder is looked for under the bare canonical path. The file is not there, and validation raises. |
| Validation.CopiedPhotoIsFound | import_photos.py:193 | Looked for in the folder it was copied into, a photo that was copied successfully is always found. |
| Ingest.Decide | import_photos.py:150-162 | An entry is out of range exactly when `min < t <= max` fails. It is already archived exactly when it is in the window and some matched folder holds its name. Otherwise it goes to the last matched folder, or to the canonical path, which then does not exist. |
| Ingest.AfterCopy | import_photos.py:192-198 | Only photos are validated, and only when validation is on. The run halts exactly when validation returns False, and crashes exactly when validation raises. Whenever validation returns, the run goes on with exactly the script lines its prompt left unread. Counters and archive stay unchanged. |
| Ingest.Transfer | import_photos.py:124-198 | A failed transfer that was not aborted halts the run with the counters unchanged. An aborted transfer asks whether to go on: "n" halts, and an exhausted script crashes. A successful transfer adds the file to its folder, counts it once by kind, and hands the photo to validation in the folder `lookup` picks. The same holds for an aborted transfer answered "y", uncounted and with nothing added. |
| Ingest.LiveCopy | import_photos.py:116-198 | An exception from `makedirs` or an exhausted script ends the run before the transfer. Otherwise the step is the transfer into the folder `copy()` prepared. The archive only grows, and the counters rise by at most the one copy. |
| Ingest.StepEntry | import_photos.py:144-201 | An entry outside the window, or one already archived, only increments `files_ignored`. No counter decreases, and the total grows by at most one. In test mode, the step never stops, creates no folder, reads no input, and increments exactly one counter. An entry to copy is counted by kind in test mode, and is handed to the live copy otherwise. |
| Ingest.RunEntries | import_photos.py:144-213 | A completed run has processed every entry. A stopped run has processed at least one. The archive only grows, and the counters grow by at most one per processed entry. |
| Ingest.Main | import_photos.py:133-141 | A missing source folder ends the run with exit 1 before any entry is processed. |
| Ingest.ExitCode | import_photos.py:139-213 | The exit status is 0 exactly when the run completed, and 1 otherwise. |
| RunProperties.RunStopsForGood | import_photos.py:174-198 | Once a step halts or crashes, no later entry is processed: the run over any longer list ends exactly as the run over the prefix. |
| RunProperties.RunCarriesOn | import_photos.py:144-213 | A run that gets through a prefix goes on with the rest from the state the prefix reached, and the processed counts add up. |
| RunProperties.TwoEntryRun | import_photos.py:144-201 | Two entries whose steps both go on complete the run in the state the second step leaves, with both processed. |
| RunProperties.TestStepCounts | import_photos.py:163-170 | In test mode, an in-window entry that no folder of its bucket holds is counted once as a copy of its kind, and nothing else changes. |
| RunProperties.TestRunCountsEverything | import_photos.py:163-170 | A test run always completes, leaves archive and input untouched, and counts every entry in exactly one of the four counters. |
| RunProperties.StepArchives | import_photos.py:151-190 | After a live step that goes on, an in-window entry is in a folder that its bucket glob yields. This assumes every transfer succeeds and no script line holds `\` or `/`. |
| RunProperties.CompletedRunArchivesWindow | import_photos.py:144-213 | After a completed live run, every in-window entry is archived in its bucket. This assumes every transfer succeeds and no script line holds `\` or `/`. |
| RunProperties.ArchivedEntriesAreIgnored | import_photos.py:156-161 | A run over entries that are all archived or outside the window completes. It only increments `files_ignored`, once per entry, and changes nothing else. |
| RunProperties.SecondRunCopiesNothing | import_photos.py:133-213 | Re-running over the same source after a completed live run copies nothing, creates no folder, and counts every entry as ignored. This assumes every transfer succeeds and no script line holds `\` or `/`. |
| RunProperties.TestRunCountsDuplicateTwice | import_photos.py:163-170 | In test mode, the same entry twice, from any archive where no folder of its bucket holds it, completes with the entry counted twice as a file to copy and nothing else changed. |
| RunProperties.LiveStepCounts | import_photos.py:173-186 | A live step that copies a not-yet-archived entry and goes on counts it once, by kind. This assumes every transfer succeeds. |
| RunProperties.LiveRunIgnoresDuplicate | import_photos.py:156-190 | From any archive where no folder of its bucket holds it, a live run over the same entry twice completes: the first copy is counted by kind, and the second is ignored. This assumes the first step goes on, every transfer succeeds, and no script line holds `\` or `/`. |
| RunProperties.LiveCopyIntoEmptyArchive | import_photos.py:116-190 | With an empty archive, a live copy counts the entry once, consumes the description line, and archives the entry. This assumes validation is off, every transfer succeeds, and the description holds neither `\` nor `/`. |
| RunProperties.FreshBucketIsCopied | import_photos.py:150-173 | With no folder in the archive, a live in-window entry is handed to `copy()` with the bare bucket path as its destination. The folder the file lands in then carries the description `copy()` reads. |
| RunProperties.ArchivedEntryIsIgnored | import_photos.py:156-161 | One already-archived entry only increments `files_ignored`. |
| RunProperties.CopyTargetLacksFile | import_photos.py:156-162 | The folder a copy is headed for does not hold a file of that name yet. |
| RunProperties.DeclinedMismatchHalts | import_photos.py:192-198 | For any live entry to copy, a photo whose validation ends in "n" after a date mismatch halts the run, under either lookup. |
| RunProperties.MissingPhotoCrashes | import_photos.py:192-193 | Validating a photo in a folder that does not hold it ends the run on a missing-file error. |
| RunProperties.AbortedCopyIsValidated | import_photos.py:174-193 | An aborted photo transfer that the user continues from is validated anyway, and the missing file crashes the run. |
| RunProperties.AbortedPhotoIsStillValidated | import_photos.py:174-198 | For an entry to copy in a live run with validation on, cancelling the photo's transfer and answering "y" ends the run on a missing-file error. This holds for both lookups. |
| RunProperties.AsWrittenCopyCrashes | import_photos.py:116-193 | As written, a photo copied into a new folder described "Birthday" is opened under the bare bucket path, and the step dies of the missing file. |
| RunProperties.AsWrittenRunCrashesAfterNewFolder | import_photos.py:133-198 | As written, with validation on and no folder for the bucket, a run over one photo with the description "Birthday" crashes on the missing file and exits with 1. |
| RunProperties.CorrectedCopyGoesOn | import_photos.py:116-198 | With the corrected lookup, the same photo is found where it landed. A matching EXIF date lets the step go on with one photo counted. |
| RunProperties.CorrectedRunValidatesNewFolder | import_photos.py:133-213 | With the corrected lookup, the same run completes with one photo copied and the description consumed. |
| Settings.Visible | import_photos.py:262-301 | `has_option` and `get` see a section's own options, and the `[DEFAULT]` options it lacks. A section's own value wins. |
| Settings.LoadSettings | import_photos.py:257-308 | The file is valid exactly when it was found and has both sections and every option except `date_range_max`. An option counts as present when the section or `[DEFAULT]` has it. Each setting comes from the file when the file has it, and from the default otherwise. A missing `date_range_max` becomes "now". The file is rewritten exactly when it is invalid. |
| Settings.MissingUpperBoundIsNotAnError | import_photos.py:279-282 | Removing `date_range_max` from a valid file (from "Device" and from `[DEFAULT]`) leaves it valid, and the upper bound becomes "now". |
| Settings.MissingRequiredOptionForcesRewrite | import_photos.py:262-308 | Removing any other required option from its section and from `[DEFAULT]` forces a rewrite. |
| Settings.DefaultSectionSuppliesOption | import_photos.py:298-301 | A valid file stays valid when "Options" loses `test` but `[DEFAULT]` has it, and `test` then takes the `[DEFAULT]` value. |

## Findings

| source | as written | input that shows it | evidently intended | confidence | as-written member | corrected member |
|---|---|---|---|---|---|---|
| import_photos.py:193 | `validate_photo(dest_path_date + "\\" + file_name, …)` reads the photo from the destination the scan chose. But `copy()` (lines 116-123) put it into the newly created `dest_path_date + " " + description`. | A bucket with no folder yet, the description "Birthday", validation on, and a `.jpg` in the window: `open` raises `FileNotFoundError` and the run dies. | Validate the photo in the folder it was copied into. | high, not executed | RunProperties.AsWrittenRunCrashesAfterNewFolder | RunProperties.CorrectedRunValidatesNewFolder |

`Validation.CheckFolder` gives the folder line 193 builds under
`AsWritten`, and the corrected folder under `Corrected`. `Ingest.Transfer`
validates in the one that `Config.lookup` picks.
With `AsWritten`, the run is the program as written. With `Corrected`, it
is the intended program. The step-level halves are
`Validation.AsWrittenValidationMissesAnnotatedFolder` and
`Validation.CopiedPhotoIsFound`. The other run lemmas hold for both lookups.

## Left out

- Win32 shell and COM calls are not modelled: `get_source_folder`,
  `get_date_taken` and the `IFileOperation` calls in `copy`. They are
  foreign calls. The source listing is an `Option<seq<Entry>>` (None when
  the folder is not found). Each entry's timestamp is an integer. The
  transfer is the `mover` oracle, which returns `(success, aborted)`.
- Opening the file and reading EXIF through `exifread` is not modelled.
  Whether the file exists comes from the archive. The tag comes from the
  `exif` oracle, which maps a path to an optional date.
- `strftime`, `strptime` and `dateutil` time zones are not modelled.
  `folder_format` is an abstract function from timestamp to string. EXIF
  dates and file dates are integers in one time frame.
- Settings values are not parsed: `literal_eval`, `getboolean`, `tz.gettz`
  and `strptime`, with their exceptions. Settings are kept as raw strings.
  `configparser` serialisation and the file writing in `save_settings` are
  I/O. Only the decision to rewrite is modelled.
- Settings.LoadSettings: option names are taken as configparser stores them,
  after its lower-casing. configparser's interpolation is not modelled, and
  values are read raw:
  - `%(name)s` references are not expanded;
  - a lone `%` makes `get` raise `InterpolationSyntaxError`. This includes
    an unescaped strftime pattern read for `folder_format` at line 287;
  - a lone `%` makes `set` in `save_settings` raise `ValueError` (line 227,
    even for the default `folder_format`) before the file is opened;
  - `save_settings` writes `local_timezone` as the zone's `tzname()`
    (line 220), not the value read.
  The model stops at the decision to rewrite. It does not reproduce these
  exceptions or the text written.
- Printing, verbose output and the dependency checks that `exit(2)` are
  I/O. They are not modelled.
- `str.lower()` is modelled for ASCII letters only. Unicode case mappings
  are not modelled.
- Glob matching is modelled as literal matching with exact case:
  - Windows' case-insensitive matching is not modelled, for the glob or for
    `os.path.exists` at lines 116 and 158. `FolderExists` and `FileExists`
    compare exact strings.
  - Glob metacharacters inside `dest_path` or the formatted date are not
    modelled.
  - Names starting with '.' are treated like any other name.
  - The archive holds folders only, so a plain file that the bucket glob
    would also yield is not modelled.
- A newly created folder is placed at the end of the enumeration order.
- Bucket.PrepareFolder: Windows naming rules are not modelled. `makedirs`
  raises `OSError` for a description holding a character that Windows
  reserves (`< > : " | ? *`), and Windows drops a trailing space or dot
  from a folder name. The model creates the folder with the name as given.
  Its `PrepFault` cases are only an existing folder and an exhausted script.
- The intermediate directories that `makedirs` creates are not modelled.
  This covers the missing parents of the bucket path, such as a year folder
  when the folder format nests, and the folders a description containing a
  separator makes. Only the leaf folder is added.
- An aborted transfer leaves no file behind. A failed transfer leaves no
  file behind.
- The source's syntax errors (lines 226 and 261), the use of `verbose`
  before it is defined (line 31), and the missing `strptime` format
  arguments (lines 276 and 280) are not reproduced. The model follows the
  evident intended logic.
- RunProperties.SecondRunCopiesNothing: it assumes that every transfer
  succeeds unaborted and that no input line contains `\` or `/`. Without
  these assumptions, a re-run can copy again, because the aborted file was
  never archived or because the description made a nested folder.
