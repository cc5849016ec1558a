# File Management System core, modelled in Dafny

This project models the core of a small Python file-management tool. The
tool finds duplicate files, removes them or moves them to an archive, sorts
files into folders, and names screenshots after the text they contain. The
model covers:

- **Duplicate finding and resolution** (`finder.py`):
  - `scan_for_duplicates` buckets files by size, hashes the files whose
    size bucket has more than one member, and reports every hash shared by
    more than one file.
  - `remove_duplicates` deletes the members whose index is not in the keep
    list.
  - `archive_duplicates` moves every member except the first into the
    archive, under a name that is not already taken there.
- **Utilities** (`utils.py`):
  - the normalisation step of `validate_path`;
  - the unit selection of `format_file_size`;
  - the `sanitize_filename` pipeline.
- **Renaming** (`renamer.py`):
  - the free-name search of `ensure_unique_filename`;
  - the word classification and word budget of `generate_descriptive_name`.
- **Organising** (`organizer.py`):
  - the extension table and `get_file_category`;
  - the three sorting passes `organize_by_type`, `organize_by_date` and
    `organize_by_project`.

The modules follow the program:

| module | models |
|---|---|
| `Base` | `Option` and `Result` |
| `Text` | the ASCII string operations the code uses: `split`, `join`, `strip`, `lower`, `isupper`, `isdigit`, `in` on strings, integer rendering |
| `Dict` | Python dictionaries as insertion-ordered association lists: `d[k] = v`, `d.get(k, default)`, counting |
| `PathNames` | `Path.name`, `.stem`, `.suffix`, the `stem_k + suffix` search for a free name, and POSIX pure paths: `Path(s)`, the `/` operator and `str` |
| `Utils` | `utils.py` |
| `FinderSpec` | the scan as fold functions over the enumerated paths, with their proofs |
| `Resolve` | removal and archiving as fold functions over the group members, with their proofs |
| `Finder` | class `FileSystem`, whose methods carry the loops of `finder.py` and are proved equal to those folds |
| `Renamer` | `renamer.py` |
| `Organizer` | `organizer.py` |

## Environment and oracles

The file system is the object `Finder.FileSystem`. It has three fields:

- `files` maps each path to its size and modification time.
- `archive` holds the names present in the archive directory.
- `locked` holds the paths whose `unlink` or move raises.

Everything the Python code gets from the operating system is a parameter of
the model:

- `accessibleDir` answers the existence, directory and readability checks of
  `validate_path`.
- `enumerate` stands for `rglob`/`glob`.
- `hashOf` stands for `calculate_file_hash`. It returns `""` when the file
  cannot be read.
- `moveFile` stands for `move_file_safely` and returns its boolean.
- `dateFolder` stands for `strftime('%Y-%m-%d')` of a timestamp.
- `timestamp` stands for `datetime.now().strftime(...)` in the renamer.

Some values are narrowed, and one is added:

- The keep list of `remove_duplicates` is a sequence of integers.
- A recorded size is either a number or a value that `int()` rejects.
- Each organiser method also returns the moves it requested, so that
  "nothing is moved in preview mode" can be stated.

## Code versus documentation

Where the comments or docstrings and the code disagree, the model follows
the code:

- **`remove_duplicates` can delete a whole group.** The comment says at
  least one file is kept. But a keep list whose indices all fall outside a
  group deletes every member of it (`Resolve.RemoveWholeGroup`).
- **A vanished file is not an error.** A non-kept member whose file no
  longer exists is counted as processed, with no error, and adds nothing
  to the space saved or moved (`Resolve.RemoveVanishedStep`,
  `Resolve.ArchiveVanishedStep`, `Resolve.RemoveSavedPresent`,
  `Resolve.ArchiveMovedPresent`).
- **`archive_duplicates` converts the size after the move.** A size that
  cannot be converted therefore leaves the file archived and counted while
  also reporting an error; `processed` is not incremented for it
  (`Resolve.ArchiveSizeFailStep`).
- **`generate_descriptive_name` can pick six words.** The comment says "Max
  5 words total", but the limit is tested only after a regular word is
  added. So a prefix, four important words and one regular word make six
  (`Renamer.SixWordsPossible`).
- **The second `sanitize_filename` doc example is wrong.** It suggests that
  a special character becomes an underscore. The code deletes it, so
  `hello@world#test.pdf` gives `helloworldtest.pdf`
  (`Utils.SanitizeDropsOtherChars`).

## Model

| member | source | states |
|---|---|---|
| Text.Words | renamer.py:141-144 | `str.split()`: every piece is a non-empty run of non-whitespace characters |
| Text.WordsJoinRoundTrip | renamer.py:141-144 | splitting the space-joined words gives back the same words, so the re-join at line 141 does not change the words |
| Text.Contains | renamer.py:194-199 | substring test: true exactly when the pattern occurs at some position |
| Text.NatToStringRoundTrip | renamer.py:266 | the decimal rendering of a counter reads back as the same number |
| Text.NatToStringInjective | renamer.py:266 | distinct counters give distinct renderings |
| Text.StripEmpty | utils.py:40-43 | `strip` gives the empty string exactly when every character is stripped, and leaves a string with no strippable end unchanged |
| Text.Strip | utils.py:40 | stripping never lengthens the string, and leaves neither end in the stripped set |
| Text.KeepIf | utils.py:136 | a character filter keeps only accepted characters and is the identity when all are accepted |
| Dict.Put | finder.py:87-90 | `d[k] = v` keeps keys distinct, makes `k` present and adds no other key |
| Dict.TallyOfCounts | organizer.py:207 | counting keys one at a time gives each key's number of occurrences, and the counts sum to the number of keys |
| PathNames.Name | finder.py:41 | `Path.name` contains no `/` |
| PathNames.StemSuffix | renamer.py:254-255 | stem followed by suffix is the name; the suffix is empty or one dot followed by non-dots |
| PathNames.NumberedInjective | renamer.py:266 | different counters give different candidate names |
| PathNames.FreeIndex | renamer.py:263-270 | the counter where the search stops: its name is free, every earlier one is taken, and it is at most the number of existing names |
| PathNames.FreeIndexUnique | renamer.py:263-270 | any counter whose name is free and whose predecessors are all taken is that counter |
| PathNames.FreeName | renamer.py:258-270 | the chosen name is never taken, and is the name itself when that is free |
| Utils.ValidatePath | utils.py:36-64 | rejects a non-string and an empty string; accepts exactly when the stripped path is non-empty and the directory oracle accepts it |
| Utils.NormalizePathShape | utils.py:40 | the normalised path is a contiguous slice of the input and does not start or end with a single quote |
| Utils.BlankPathRejected | utils.py:40-43 | a path of only whitespace is rejected |
| Utils.UnitIndex | utils.py:92-99 | the unit chosen is the largest power of 1024 not above the size, capped at TB |
| Utils.UnitIndexUnique | utils.py:97-99 | any unit index meeting the loop's exit conditions is that unit |
| Utils.ScaleToUnit | utils.py:93-99 | the dividing loop stops at that unit, with the size divided by 1024 that many times |
| Utils.FormatFileSize | utils.py:88-105 | negative sizes give `0 B`; sizes below 1024 give the integer and `B`; larger sizes give the unit chosen and a value that times the unit's power is the size |
| Utils.ReplaceSpaces | utils.py:132 | each space becomes `_`, and every other character stays |
| Utils.CollapseUnderscores | utils.py:139 | leaves no `__`; empty only for empty input; keeps the last character; the identity when there is no `__` |
| Utils.SanitizeShape | utils.py:128-148 | the result is non-empty, uses only letters, digits, `_`, `-` and `.`, has no `__`, and does not start or end with `_` or `.` |
| Utils.SanitizeFixes | utils.py:128-148 | an already sanitised name is returned unchanged |
| Utils.SanitizeIdempotent | utils.py:128-148 | sanitising twice is sanitising once |
| Utils.SanitizeKeepsLettersDigitsDashes | utils.py:128-148 | the letters, digits and dashes of the input survive in order; with none of them the result is `unnamed` |
| Utils.SanitizeSpacedWords | utils.py:128-148 | two words, a word in parentheses and an extension, all without `_`: each space becomes one `_` and the parentheses are deleted |
| Utils.SanitizeExample | utils.py:123-124 | `My File (2023).txt` becomes `My_File_2023.txt`, as the first doc example says |
| Utils.SanitizeDropsOtherChars | utils.py:132-136 | a character that is neither a space nor a filename character is deleted, not replaced |
| FinderSpec.FileInfo | finder.py:33-48 | a record exists exactly for a present path and carries that path and its size |
| FinderSpec.SizeMapOfInv | finder.py:73-90 | the size buckets have distinct sizes, no repeated paths, and hold exactly the enumerated files of at least 100 bytes with that size |
| FinderSpec.HashedPathsAreRivals | finder.py:97-100 | a path is hashed exactly when it is such a file and another such file has its size; no path is hashed twice |
| FinderSpec.HashMapOfInv | finder.py:100-110 | the hash buckets have distinct non-empty hashes, and each holds the records of the hashed readable paths with that hash, in order |
| FinderSpec.GroupsOfFacts | finder.py:119-127 | groups are kept for exactly the hashes with more than one file, with count and total size computed from their files |
| FinderSpec.ScanGroupsWellFormed | finder.py:119-129 | the reported hashes are distinct; each group's count is its number of files, at least 2, and its total size is the sum of their sizes |
| FinderSpec.GroupFiles | finder.py:119-127 | a group's key is a non-empty hash, and its files are the records of exactly the hashed paths with that hash |
| FinderSpec.ScanGroupMember | finder.py:73-129 | every reported file was enumerated, is at least 100 bytes, has a same-size rival, was readable with the group's hash, and its record is its file information |
| FinderSpec.ScanGroupsDisjoint | finder.py:73-129 | no file is reported twice, in one group or in two |
| FinderSpec.ScanGroupsComplete | finder.py:73-129 | a file is reported exactly when it is eligible and another eligible file has the same hash |
| FinderSpec.EligibleReported | finder.py:73-129 | two different eligible files with the same hash are both reported |
| Finder.FileSystem.BucketBySize | finder.py:71-94 | the first loop builds the size map of the specification |
| Finder.FileSystem.HashBucket | finder.py:98-110 | hashing one size bucket extends the hash map of the specification by that bucket's paths |
| Finder.FileSystem.HashPath | finder.py:100-110 | hashing one path adds an empty entry for a new non-empty digest and appends the path's record; an unreadable path changes nothing |
| Finder.FileSystem.HashBySize | finder.py:97-114 | the nested second loop builds the hash map of the specification |
| Finder.FileSystem.CollectGroups | finder.py:118-127 | the final loop builds the groups of the specification |
| Finder.FileSystem.ScanForDuplicates | finder.py:51-129 | an invalid directory fails with `Invalid or inaccessible path: <directory>`; otherwise the result is the groups of the specification |
| Resolve.EffectiveKeep | finder.py:150-153 | an empty keep list becomes `[0]`; any other one is used as given |
| Resolve.RemoveCounts | finder.py:147-176 | every member is processed or reported, never both; the kept count is the number of members whose index is kept; each removal deletes exactly one existing file and nothing else |
| Resolve.RemoveKeeps | finder.py:155-168 | a file named only by kept members survives |
| Resolve.RemoveNotKept | finder.py:157-165 | a member whose index is not kept is gone afterwards, unless its deletion or size conversion fails |
| Resolve.RemoveSaved | finder.py:155-170 | when every member's file exists and nothing fails, there are no errors, the removals are the non-kept members, and the space saved is their total size |
| Resolve.RemoveVanishedStep | finder.py:157-170 | a non-kept member whose file is gone changes no file and is counted as processed only |
| Resolve.RemoveUntouched | finder.py:155-170 | a file that no member names exists afterwards exactly when it existed before |
| Resolve.RemoveNoErrors | finder.py:155-173 | with no failing deletion or size, whether or not the files exist, there are no errors and every member is processed |
| Resolve.RemoveSavedPresent | finder.py:157-170 | with no failure and distinct paths, the removals are the non-kept members whose file exists, and the space saved is their total size |
| Resolve.RemoveWholeGroup | finder.py:150-168 | a keep list with no index inside the group keeps nothing and deletes every member |
| Finder.FileSystem.RemoveMember | finder.py:156-173 | one loop step changes the file system and the result as the specification's step does |
| Finder.FileSystem.RemoveGroup | finder.py:155-173 | the inner loop over one group extends the specification's run by that group's members |
| Finder.FileSystem.RemoveDuplicates | finder.py:132-179 | the file system afterwards and the result are those of the specification; `success` is false exactly when an error was reported |
| Resolve.ArchiveCounts | finder.py:201-241 | every member is processed or reported, never both; first members are counted as kept; each move deletes one file and adds one archive name, without overwriting any |
| Resolve.ArchiveKeepsFirst | finder.py:205-232 | a file named only by first members is never moved |
| Resolve.ArchiveMoved | finder.py:205-234 | when every member's file exists and nothing fails, there are no errors, every later member is archived, and the space moved is their total size |
| Resolve.ArchiveVanishedStep | finder.py:207-234 | a later member whose file is gone changes neither the files nor the archive and is counted as processed only |
| Resolve.ArchiveSizeFailStep | finder.py:225-237 | a size that fails to convert after the move leaves the file moved to a new archive name and counted as archived, reports `Failed to archive <path>`, and adds neither to `processed` nor to the space moved |
| Resolve.ArchiveUntouched | finder.py:205-234 | a file that no member names exists afterwards exactly when it existed before |
| Resolve.ArchiveNoErrors | finder.py:205-237 | with no failing move or size, whether or not the files exist, there are no errors and every member is processed |
| Resolve.ArchiveMovedPresent | finder.py:207-234 | with no failure and distinct paths, the archived files are the later members whose file exists, and the space moved is their total size |
| Finder.FileSystem.FreeArchiveName | finder.py:212-222 | the counter loop stops at the first free name in the archive |
| Finder.FileSystem.ArchiveMember | finder.py:206-237 | one loop step changes the file system, the archive and the result as the specification's step does |
| Finder.FileSystem.ArchiveGroup | finder.py:205-237 | the inner loop over one group extends the specification's run by that group's members |
| Finder.FileSystem.ArchiveDuplicates | finder.py:182-243 | the file system, the archive and the result afterwards are those of the specification |
| Renamer.EnsureUniqueFilename | renamer.py:252-270 | returns the name when it is free; otherwise `stem_k + suffix` for the least k ≥ 1 that is free, and never a taken name |
| Renamer.CleanWord | renamer.py:160 | the cleaned word has only word characters |
| Renamer.RegularIsShort | renamer.py:178-189 | a word classed regular has at most four characters |
| Renamer.ClassifiedImportant | renamer.py:158-186 | every important word is at least two characters long, not a short number, not a filler word, and is classed important |
| Renamer.ClassifiedRegular | renamer.py:158-189 | every regular word is usable, classed regular, and at most four characters long |
| Renamer.ClassifiedFrom | renamer.py:158-189 | every classified word is the cleaned form of a word of the text |
| Renamer.ClassifyWords | renamer.py:158-189 | the classification loop yields the specified important and regular words |
| Renamer.WithImportantFacts | renamer.py:209-214 | the important-word loop only appends words of its pool, keeps the words already chosen, and keeps the joined name within `max_length` once a word is added |
| Renamer.WithRegularFacts | renamer.py:217-221 | the regular-word loop does the same, and ends with at most five words, or with one word more than it started with when it started with five or more |
| Renamer.DocPrefix | renamer.py:192-199 | the prefix is `Certificate`, `Invoice` or `Ticket` under exactly the substring conditions, in that priority |
| Renamer.SelectedFacts | renamer.py:202-221 | at most six words; the prefix comes first; later words come from the first four important and first two regular words; once one is added, the joined name fits `max_length` |
| Renamer.SelectedSkipsPrefix | renamer.py:209-212 | after the prefix, a word equal to it up to case can only be a regular word |
| Renamer.SixWords | renamer.py:202-221 | a prefix, four important words of other lengths and one regular word, each of at most seven characters, all fit 48 characters and are all chosen |
| Renamer.SixWordsPossible | renamer.py:217-221 | six words are reachable, despite the five-word comment |
| Renamer.SelectWords | renamer.py:202-221 | the two budget loops yield the specified word list |
| Renamer.FallbackWords | renamer.py:224-231 | the fallback loop yields the specified words |
| Renamer.SelectedFromText | renamer.py:141-221 | for a text, every chosen word after the prefix is a usable cleaned word of the text and is never the prefix again up to case |
| Renamer.GenerateDescriptiveName | renamer.py:131-249 | the method computes the specified name |
| Renamer.BlankTextName | renamer.py:136-138 | empty or all-whitespace text gives `screenshot_<timestamp>` |
| Renamer.DescriptiveNameShape | renamer.py:234-249 | the name is `screenshot_<timestamp>` or a sanitised name of at least three characters |
| Organizer.Lookup | organizer.py:102-106 | finds the first category listing the extension, and nothing exactly when no list has it |
| Organizer.CategoryListsDisjoint | organizer.py:20-31 | no extension is listed under two categories |
| Organizer.GetFileCategory | organizer.py:84-106 | `Others` exactly when no list holds the lower-cased extension; otherwise the category whose list holds it |
| Organizer.GetFileCategoryExamples | organizer.py:94-98 | `.pdf` is a document, and `.unknown` is `Others` |
| PathNames.SegmentsConcat | organizer.py:203-204 | splitting at slashes: a slash separates the segments of both sides |
| PathNames.PartsConcat | organizer.py:203-204 | the components of `a/b` are those of `a` followed by those of `b`; empty and `.` segments are dropped |
| PathNames.PartsOfPart | organizer.py:203-204 | a plain name is a single component |
| PathNames.PathStrSnoc | organizer.py:204 | adding a component to a non-empty path adds a slash and the component to its string |
| PathNames.PathOfTrailingSlash | organizer.py:203 | a trailing slash does not change the path |
| Organizer.DestinationPlain | organizer.py:203-204 | for a target in normal form and plain folder and file names, `str(Path(target) / folder / name)` is the three joined by slashes |
| Organizer.DestinationAbsoluteFolder | organizer.py:362-363 | an absolute folder, such as a project mapped to `/tmp`, replaces the target directory |
| Organizer.DestinationTrailingSlash | organizer.py:203-204 | a target written with a trailing slash gives the same destination |
| Organizer.PlaceAllCounts | organizer.py:209-217 | every file is processed or reported, never both; preview processes all and moves nothing; execute requests one move per file, in order, from its path to its destination |
| Organizer.PlaceAllErrors | organizer.py:214-217 | each error names a file whose move failed, and each failed move leaves its error |
| Organizer.PlaceFile | organizer.py:209-217 | one loop step in preview counts the file; in execute it requests the move and counts it or records `Failed to move: <name>` |
| Organizer.SortInto | organizer.py:197-217 | the loop's counts are the tally of the folders, and its progress is the specified placement, each file to `str(Path(target) / folder / name)` |
| Organizer.OrganizeByType | organizer.py:162-230 | an invalid target returns at once with `success` false, one error, nothing processed and no summary; otherwise `success` holds regardless of failed moves, the per-category counts tally every file and sum to `total_files`, and `processed` plus errors is the number of files |
| Organizer.OrganizeByDate | organizer.py:233-304 | as for type, with each file's folder its date folder |
| Organizer.MatchProjectFirst | organizer.py:354-358 | the project chosen is that of the first rule whose lower-cased pattern occurs in the lower-cased name; no project when none applies |
| Organizer.FindProject | organizer.py:353-358 | the inner rule loop, left at the first match, yields that project |
| Organizer.ProjectFolders | organizer.py:360-379 | a file's folder is its matched project, or `Unmatched` when nothing matches or the project name is empty |
| Organizer.MatchedSplit | organizer.py:360-379 | matched and unmatched files together are all the files, and every tallied project is non-empty and was matched |
| Organizer.SortByProject | organizer.py:349-387 | the loop's counts, unmatched total and progress are those specified |
| Organizer.OrganizeByProject | organizer.py:307-402 | an invalid target, then empty rules, return at once with one error each; otherwise `success` holds, the project counts plus the unmatched count equal `total_files`, and `processed` plus errors is the number of files |

## Left out

- File contents and MD5: `calculate_file_hash` is the oracle `hashOf` on the path. The chunked read and the digest are library code.
- Operating-system effects: `rglob`/`glob`, `stat` and `os.access` become oracles or fields of `FileSystem`. So do `unlink` and `shutil.move` raising. `mkdir`, `utime`, `expanduser`, `resolve` and symbolic links are not modelled.
- Directories are not entries of the file map, so the `is_file()` test always holds.
- `get_file_info` reads a stable file system: the second `stat` (finder.py:37-42) sees what the first saw, and `resolve()` returns the path itself. A failure between the two stats is not modelled.
- The text of caught exceptions: errors hold only the fixed prefix, such as `Failed to remove <path>`, without the `: <exception>` tail.
- A group entry without a `path` key, and any other malformed group dictionary, are not modelled.
- Utils.FormatFileSize: states the unit and the exact quotient, not its `.1f` decimal rendering, because floating-point formatting is not modelled. The `int`/`float` type test is left out, since the model takes an integer.
- Utils.SanitizeFilename: the non-string input branch is not modelled.
- Unicode: `\w`, `isupper`, `isdigit`, `lower` and `split` are modelled on ASCII only.
- Renamer.EnsureUniqueFilename: a file name containing `/` is not modelled; the directory is the set of names present in it. For `""`, `.` and `..`, `path / filename` names the directory itself or its parent, which exists, so the code numbers the name; the model treats these as names of entries and returns them unchanged when they are not in the set.
- OCR (`preprocess_image`, `extract_text_*`), `rename_screenshots` and the Flask application in `app.py` are outside the core.
- `scan_directory` and the body of `move_file_safely` are input and output; the scan's records are the `FileEntry` values given to the organiser.
- Logging (`setup_logging`, `log_operation`).
- Organizer.OrganizeByType, Organizer.OrganizeByDate, Organizer.OrganizeByProject: moves are requests to the oracle `moveFile`. Their effect on a file system, such as a later move seeing an earlier one, is not modelled.
- Organizer.Destination: pure POSIX paths only. A path starting with exactly two slashes keeps both in pathlib but one in the model; `..` is kept, as in pathlib; `resolve()` and symbolic links are not modelled.
- PlaceAllCounts: the destination is `str(Path(target) / folder / name)` under the limits of `Organizer.Destination` above.
- Finder.FileSystem.ArchiveDuplicates: the archive directory is the set `archive`, kept apart from `files`. A file moved there never appears in `files`, and moving a member that already lies in the archive directory does not free its name in `archive`.
