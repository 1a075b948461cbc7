# Font file renamer — Dafny model

`rename-file-name-to-title.py` renames every font file in a directory to the
full font name stored in the font's OpenType `name` table (nameID 4 on the
Windows platform, platformID 3). Files whose name cannot be resolved are moved
into the subdirectory `failed_fonts`, under a name that collides with nothing
already there.

This project models that core in Dafny 4.11:

- `font_names.dfy` (module `FontNames`): `get_font_name`. It finds the first
  Windows full-name record in table order. It cuts a name holding `;` to the
  text after the last `;` and strips whitespace the way Python's `str.strip()`
  does. It collapses every failure to `None`.
- `file_names.dfy` (module `FileNames`): `FONT_EXTENSIONS`, `os.path.splitext`
  on entry names (leading dots are not an extension), and the names
  `move_failed_font` tries (`name`, `root_1ext`, `root_2ext`, ...). It also holds
  that function's counter loop as a method, proved to return the first free name
  and to terminate.
- `font_directory.dfy` (module `FontDirectory`): the scan. A directory is a map from entry names to entries
  (regular file or subdirectory), plus the entries of `failed_fonts`.
  `Step` and `Run` are the specification of one loop iteration and of the whole
  scan. The class `FontFolder` holds the two maps and implements
  `move_failed_font`, `os.rename` and `rename_font_files_in_directory` as
  methods proved equal to that specification.
- `wrappers.dfy` (module `Wrappers`): the `Option` type.

The main results are these:

- A completed scan over a listing of every entry leaves each font file under
  its target name (`ScanSettles`).
- A second scan therefore changes nothing (`ScanIdempotent`).
- Quarantining never overwrites an entry of `failed_fonts`, adds exactly one
  entry with the file's contents, and keeps the extension (`Quarantined`).

The program does not catch filesystem errors per file: one failing rename or
move ends the scan. The model follows that. `Step` returns `None` and `Run`
reports an incomplete outcome, with the directory as it was before the failing
call. Two such failures depend on the directory state alone, and the model
covers both:

- a rename onto an existing subdirectory;
- a quarantine while `failed_fonts` is a regular file.

A name without `;` is returned exactly as decoded, with no trimming, as the code
does. The rename does not check its target: an existing regular file there is
replaced, which is what `os.rename` does on POSIX systems.

## Model

| member | source | states |
|---|---|---|
| `FontNames.FindFullNameFrom` | rename-file-name-to-title.py:13-14 | the search from position k returns the first record at or after k with nameID 4 and platformID 3, or None when no record from k on matches |
| `FontNames.FindFullName` | rename-file-name-to-title.py:13-14 | the search over a whole table finds a record exactly when one matches, and then it finds the first in table order |
| `FontNames.JoinSplit` | rename-file-name-to-title.py:19 | `split(";")` loses nothing: joining its parts with `;` gives back the decoded text |
| `FontNames.Split` | rename-file-name-to-title.py:19 | `split(";")` yields at least one part and no part holds a `;` |
| `FontNames.LastSegment` | rename-file-name-to-title.py:19 | `split(";")[-1]` holds no `;`; `LastSegmentFollowsLastSeparator` says where it sits in the text |
| `FontNames.LastSegmentFollowsLastSeparator` | rename-file-name-to-title.py:19 | `split(";")[-1]` holds no `;` and is a suffix of the text; with a `;` present a `;` stands right before it, and without one it is the whole text |
| `FontNames.Strip` | rename-file-name-to-title.py:19 | `strip()` returns a slice that neither starts nor ends with whitespace, and everything it cut off is whitespace |
| `FontNames.ResolveFullName` | rename-file-name-to-title.py:17-21 | a decoded name without `;` is returned unchanged; with a `;` the result holds no `;` and is the stripped text after a `;` that has no `;` after it |
| `FontNames.ResolveAfterLastSemicolon` | rename-file-name-to-title.py:18-19 | for any prefix, `prefix;tail` with no `;` in tail resolves to the stripped tail |
| `FontNames.ResolveBlankTail` | rename-file-name-to-title.py:18-19 | a name that is only whitespace after its last `;` (as "Foo;   ") resolves to the empty text |
| `FontNames.GetFontName` | rename-file-name-to-title.py:9-25 | the result is present exactly when the font parses, has a name table, and its first Windows full-name record decodes, and then it is that record's resolved text; every other case is None |
| `FileNames.Ext` | rename-file-name-to-title.py:53 | the extension is a suffix of the name, and when non-empty it is a dot followed by dot-free text; `ExtEmptyIff` and `ExtOfAppended` say when it is empty |
| `FileNames.ExtEmptyIff` | rename-file-name-to-title.py:53 | a name has an extension exactly when some dot in it follows a character that is not a dot (leading dots do not start an extension) |
| `FileNames.Root` | rename-file-name-to-title.py:37-38 | root followed by extension gives back the name |
| `FileNames.Decimal` | rename-file-name-to-title.py:38 | `str(counter)`: a non-empty string of decimal digits, a single digit exactly for counters below ten, and without a leading zero otherwise; with `ParseDecimalOfDecimal` this is the canonical decimal text |
| `FileNames.FontExtensionsAreExtensionShaped` | rename-file-name-to-title.py:6 | each of the four font extensions (`FontExtensions`, the lower-case set `.ttf`, `.otf`, `.ttc`, `.fon`) is a dot followed by dot-free text, so each can be the extension of a name |
| `FileNames.ExtOfAppended` | rename-file-name-to-title.py:57 | appending an extension to a resolved name gives a name with that extension, unless the resolved name is all dots, when it has none |
| `FileNames.ParseDecimalOfDecimal` | rename-file-name-to-title.py:38 | reading back the decimal text of the counter gives the counter |
| `FileNames.DecimalInjective` | rename-file-name-to-title.py:38 | different counters have different decimal texts |
| `FileNames.SlotName` | rename-file-name-to-title.py:32-38 | the first name tried is the file's own name and every later one is longer; `SlotNameKeepsExtension` and `SlotNameInjective` say the rest |
| `FileNames.SlotNameKeepsExtension` | rename-file-name-to-title.py:37-38 | every name tried in the failure directory ends with the original extension |
| `FileNames.SlotNameInjective` | rename-file-name-to-title.py:35-39 | different counters give different names, so no name is tried twice |
| `FileNames.TakenBound` | rename-file-name-to-title.py:36-39 | if the first k names are all taken then at least k names exist, so the search ends |
| `FileNames.FirstFreeIndexFrom` | rename-file-name-to-title.py:35-39 | the index found is free and every earlier name is taken |
| `FileNames.FirstFreeSlot` | rename-file-name-to-title.py:32-39 | the destination name is not already present and ends with the original extension |
| `FileNames.FirstFreeSlotIsFirst` | rename-file-name-to-title.py:32-39 | the destination is the first free name in the order `name`, `root_1ext`, `root_2ext`, ... |
| `FileNames.SecondFailureGetsSuffixOne` | rename-file-name-to-title.py:32-38 | when the plain name is taken and `root_1ext` is free, the file lands on `root_1ext` |
| `FileNames.FindFreeSlot` | rename-file-name-to-title.py:32-39 | the counter loop returns exactly the first free name |
| `FontDirectory.TargetName` | rename-file-name-to-title.py:55-57 | there is no target exactly when the resolved name is missing or empty; otherwise the target is the resolved name followed by the file's own extension |
| `FontDirectory.TargetKeepsExtension` | rename-file-name-to-title.py:53-57 | the target keeps the file's extension, with its case, unless the resolved name is all dots |
| `FontDirectory.Renamed` | rename-file-name-to-title.py:61-62 | the rename fails exactly when the target is a subdirectory; otherwise the contents move to the target, the old name is gone, and every other entry and the failure directory are unchanged |
| `FontDirectory.Quarantined` | rename-file-name-to-title.py:28-41 | the move fails exactly when `failed_fonts` is a regular file; otherwise the failure directory exists, the file leaves the scanned directory, all other entries stay, and the failure directory gains exactly one new entry with the file's contents under a name that was free and keeps the extension, with all old entries kept; that name is the first free one in the order `name`, `root_1ext`, `root_2ext`, ... |
| `FontDirectory.IsCandidate` | rename-file-name-to-title.py:53-54 | only regular files with one of the four extensions are processed; `failed_fonts` itself never is |
| `FontDirectory.Step` | rename-file-name-to-title.py:53-67 | only a font file can make an iteration fail; a successful iteration either leaves the directory as it was or moves the listed file away, and never overwrites a file already in the failure directory; `StepSkipsNonCandidates`, `StepRenameDecision` and `StepQuarantinesUnnamed` give the cases |
| `FontDirectory.Run` | rename-file-name-to-title.py:49-67 | the loop over the listing keeps the failure directory empty unless it exists as a directory, and no file already in the failure directory when the loop starts is overwritten or removed |
| `FontDirectory.StepSkipsNonCandidates` | rename-file-name-to-title.py:53-54 | entries that are not regular files with one of the four extensions are left alone |
| `FontDirectory.UpperCaseExtensionSkipped` | rename-file-name-to-title.py:53-54 | extension matching is case-sensitive: `X.TTF` is left alone |
| `FontDirectory.StepRenameDecision` | rename-file-name-to-title.py:56-65 | for a file with a usable name the directory is unchanged exactly when the target equals the current name; otherwise, when the target is not a subdirectory, the file moves to the target |
| `FontDirectory.CaseOnlyDifferenceRenamed` | rename-file-name-to-title.py:60-62 | `myfont.ttf` whose resolved name is `MyFont` is renamed to `MyFont.ttf` |
| `FontDirectory.StepQuarantinesUnnamed` | rename-file-name-to-title.py:56-67 | a font file whose name is missing or empty is quarantined and leaves the scanned directory |
| `FontDirectory.StepPreservesWellFormed` | rename-file-name-to-title.py:30-31 | every step keeps the failure directory empty unless it exists as a directory |
| `FontDirectory.RenamedLandsAtTarget` | rename-file-name-to-title.py:57-62 | a renamed file sits at its own target name afterwards |
| `FontDirectory.StepSettles` | rename-file-name-to-title.py:49-67 | one iteration leaves the processed entry at its target and keeps every settled entry settled |
| `FontDirectory.RunSettlesRest` | rename-file-name-to-title.py:49-67 | entries outside the rest of the listing stay settled, and a completed run settles the whole directory |
| `FontDirectory.ScanSettles` | rename-file-name-to-title.py:45-67 | a completed scan over a listing of every entry leaves every font file under its target name |
| `FontDirectory.ScanOfSettledChangesNothing` | rename-file-name-to-title.py:49-65 | scanning a settled directory, in any order, completes and changes nothing |
| `FontDirectory.ScanIdempotent` | rename-file-name-to-title.py:45-67 | running the tool a second time after a completed run makes no changes |
| `FontDirectory.FontFolder.RenameFile` | rename-file-name-to-title.py:62 | the new state is the one `Renamed` gives, or the old one on failure, and the failure directory invariant holds |
| `FontDirectory.FontFolder.MoveFailedFont` | rename-file-name-to-title.py:28-41 | creates the failure directory when absent, searches for a free name and moves the file; the new state is the one `Quarantined` gives, or the old one on failure |
| `FontDirectory.FontFolder.ProcessEntry` | rename-file-name-to-title.py:50-67 | one iteration of the loop changes the state as `Step` says |
| `FontDirectory.FontFolder.RenameFontFilesInDirectory` | rename-file-name-to-title.py:45-67 | the final state and completion flag are those of `Run` over the listing, and on completion every font file carries its target name |

## Left out

- Parsing the font file and decoding UTF-16-BE are left out, because they are a foreign library and a codec. A file's contents are given as the parser's view (`FontData`): unparsable, no `name` table, or a list of records. Each record's text is already decoded, or absent when its bytes do not decode.
- What the font library makes of a particular file format (for instance of `.ttc` collections) is part of that input and is not modelled.
- Console output (lines 24, 42, 63, 65) is left out because it does not change the directory.
- The module-level driver on `os.getcwd()` (lines 71-72) is left out. The scanned directory is the `FontFolder` object, and the result of `os.listdir` is the `listing` parameter, in whatever order the filesystem gives.
- Entry names are atomic strings. The model does not cover a resolved name holding a path separator or a NUL, which `os.path.join` would turn into a path into a subdirectory or an error.
- Filesystem errors are modelled only where the directory state determines them: a rename onto a subdirectory, and `failed_fonts` being a regular file. Permission errors, full disks, symbolic links and case-insensitive filesystems are not modelled.
- The copy-and-delete fallback of `shutil.move` across filesystems is not modelled. Within one filesystem it behaves like the modelled rename.
- The contents of subdirectories other than `failed_fonts` are not modelled. The scan never looks inside them.
- `os.makedirs` creating missing parents is not modelled: the parent of `failed_fonts` is the scanned directory, which exists.
