# Picasa ini resolution engine, in Dafny

This project models the resolution engine of `PicasaToIPTC`
(`pictureparser.py`). The engine reads Picasa's per-directory `.picasa.ini`
files and does three things:

- It builds an album registry from the `.album:` sections. The registry maps
  each album token to its name, and a token redefined with another name is a
  conflict.
- It aggregates, per photo path, the album names from the photo's
  `albums = t1,t2,...` line plus a `star` pseudo-album. A second claim on a
  path that already has a record is a conflict.
- It merges a record's names into the photo's IPTC keywords by set union.

The Python class keeps its state in class-level dictionaries (`albums`,
`photos`). The model passes that state explicitly. Every stateful step
takes the table it updates (`GetAlbums` a `Registry`, `PhotoPass` a
`PhotoTable`, and the document steps `ParseIni` and `Run` both, as
`Tables`). It returns a `Result` that is either the updated value or the
`Conflict` that would have raised the source's `AssertionError`.

Files:

- `results.dfy`: `Option` and `Result`.
- `text.dfy`: the Python 2 string primitives the engine relies on: ASCII
  `str.lower`, `str.rfind`, `str.split(",")` and `posixpath.splitext`.
- `model.dfy`: the entities: `Entry`, `Section`, `Document`, `PhotoRecord`,
  `Tables`, `Conflict` and `Env`. `Env` abstracts `os.path.isfile` and
  `os.path.join`.
- `albums.dfy`: `get_albums` and `parse_album`, plus a declarative reading
  of when registration fails and what it builds.
- `photos.dfy`: the extension filter of `parse_ini` and `parse_photo`. The
  setdefault-and-append loop is written as the source has it (`AddUids`,
  `ApplyEntry`, `ApplyEntries`). It is then proved equal to a reference
  reading (`SectionTags`, `HasStar`, `Extend`).
- `pipeline.dfy`: `parse_ini` for one document and the loop over
  documents, with the invariant every stored record keeps.
- `keywords.dfy`: the keyword union of `write_info`.
- `scenarios.dfy`: concrete cases. These include the filter on sample names
  and an end-to-end run in which a photo section comes before the album it
  uses.

## Notes on the source

Three behaviours of `pictureparser.py` are easy to misread, and the model
keeps each as written:

- A claim on a photo path is a conflict only when an earlier section
  actually created a record for that path, and only when the file exists
  (pictureparser.py:94-99, 106, 109). A section that resolves no album and
  has no `star` line leaves no record, so a later claim on the same path
  goes through.
- An album token registered under an empty name is dropped when a photo
  refers to it, just like an unknown token (pictureparser.py:105, `if
  album:`).
- Repeated tokens are kept: a token listed twice in a photo's `albums`
  line puts its name into the record twice (pictureparser.py:103-107).

## Model

| member | source | states |
|---|---|---|
| Text.LowerSpec | pictureparser.py:66 | `name.lower()` keeps the length, leaves no upper-case ASCII letter, keeps every other character and shifts each upper-case letter by 32 |
| Text.LowerIdempotent | pictureparser.py:66 | lower-casing an already lower-cased name changes nothing |
| Text.LastIndexOf | pictureparser.py:66 | `rfind` as `splitext` uses it: the index holds the character and no later index does, or -1 when the character is absent |
| Text.SplitExtParts | pictureparser.py:66 | `splitext` returns a root and an extension that concatenate back to the name; a non-empty extension is a dot followed by no dot and no slash |
| Text.SplitExtSpec | pictureparser.py:66-67 | `splitext` reports an extension exactly when the name has a last dot, after the last slash, preceded within its component by a non-dot character, and the extension then starts at that dot |
| Text.Split | pictureparser.py:103 | `value.split(",")` returns at least one piece and no piece contains a comma |
| Text.SplitJoin | pictureparser.py:103 | joining the pieces of `value.split(",")` with commas gives back the value |
| Text.SplitLength | pictureparser.py:103 | there is exactly one more piece than commas in the value |
| Model.Lookup | pictureparser.py:86 | `section[key]` finds a value exactly when the key is present, and the value is one written for that key |
| Albums.AlbumSections | pictureparser.py:75-76 | the sections `get_albums` selects are exactly those whose name starts with `.album:` |
| Albums.OtherSections | pictureparser.py:78 | after `remove_section`, exactly the sections whose name does not start with `.album:` remain |
| Albums.AlbumSectionsAppend | pictureparser.py:75-76 | the album filter keeps document order: filtering two concatenated section lists gives the two filtered lists concatenated |
| Albums.OtherSectionsAppend | pictureparser.py:65-78 | the sections left after `remove_section` keep document order in the same sense |
| Albums.PartitionSections | pictureparser.py:75-78 | every section of a document ends up either in the album part or in the remaining part, never both, with repeats counted |
| Albums.ParseAlbum | pictureparser.py:80-90 | a section missing `token` or `name` leaves the registry unchanged; a new token adds exactly `token -> name` and keeps every other entry; the same name again leaves the registry as it is; a different name is an `AlbumConflict` carrying the token and both names |
| Albums.ParseAlbumIdempotent | pictureparser.py:86-90 | registering the same album section again, as a second document repeating the album does, leaves the registry as the first registration left it |
| Albums.RegisterAll | pictureparser.py:75-77 | the album loop only grows the registry (registered names never change), and it can fail only with an album conflict |
| Albums.GetAlbums | pictureparser.py:73-78 | `get_albums` only grows the registry, and it can fail only with an album conflict |
| Albums.RegisterAllSpec | pictureparser.py:75-90 | registration fails exactly when a section clashes with the registry or with another section of the sequence; on success the registry holds the old entries unchanged plus every defined token with its section's name, and no other key |
| Albums.RegisterAllError | pictureparser.py:86-89 | a failing registration reports a real conflict: some section proposes the reported name for the reported token, and the different registered name is the one held before or the one an earlier section gave that token |
| Albums.RegisterAllOrderFree | pictureparser.py:75-90 | when registration succeeds, the registry it builds does not depend on the order or repetition of the album sections |
| Photos.ClassifySpec | pictureparser.py:65-71 | a section is skipped silently exactly when its lower-cased name has no extension, and is handed to `parse_photo` exactly when that extension, without its dot, is `jpg`, `jpeg`, `raw` or `rw2` |
| Photos.ClassifyIgnoresCase | pictureparser.py:66 | the extension filter treats a name and its lower-cased form alike |
| Photos.ResolveTokens | pictureparser.py:103-105 | the resolved names are at most as many as the tokens, and a name is among them exactly when some token of the list is registered under that non-empty name |
| Photos.ResolveTokensAppend | pictureparser.py:103-107 | token resolution works token by token, in list order, keeping repeats: resolving a concatenation concatenates the resolutions |
| Photos.AddUidsSpec | pictureparser.py:103-107 | the per-token setdefault-and-append loop appends exactly the resolved names to the record, and creates no record when none resolves |
| Photos.ApplyEntrySpec | pictureparser.py:102-110 | an `albums` line appends its resolved names; a `star` line appends `star` and sets the flag; any other line changes nothing |
| Photos.StarTagged | pictureparser.py:108-110 | a section with a `star` line always contributes the `star` pseudo-album |
| Photos.ApplyEntriesSpec | pictureparser.py:101-110 | the key loop appends the section's tags in line order and stars the record when a `star` line is present; when nothing is appended, no record is created and the table is untouched |
| Photos.SectionTagsFromRegistry | pictureparser.py:104-110 | every tag a section contributes is non-empty and is either `star` or a registered album name |
| Photos.ParsePhoto | pictureparser.py:92-110 | a missing file leaves the table unchanged without error; an existing file whose path already has a record is a `DuplicatePhoto` conflict carrying the path, raised before any change; otherwise the path gets the record of the section's tags and star flag, or no record when it has no tags |
| Photos.ParseSection | pictureparser.py:66-71 | a section whose lower-cased name has an extension (a last dot after the last slash, not inside the leading run of dots) that is one of `jpg`, `jpeg`, `raw`, `rw2` goes to `parse_photo`; every other section leaves the table unchanged |
| Photos.PhotoPass | pictureparser.py:65-71 | the section loop never changes or removes an existing record, and it can fail only with a duplicate-photo conflict |
| Photos.PhotoPassOwners | pictureparser.py:65-110 | every record the loop adds is exactly the record built by one of its photo sections whose file exists and which yields at least one tag |
| Photos.PhotoPassFailure | pictureparser.py:65-110 | the section loop fails if and only if some photo section whose file exists reaches a path that already holds a record, from an earlier document or from an earlier section of the same loop; the error is `DuplicatePhoto` of the first such section's path, and no earlier section was a duplicate |
| Photos.WithinPassDuplicate | pictureparser.py:94-110 | once an earlier photo section of the same document has recorded a path, a later photo section on the same existing file makes the loop fail |
| Photos.DuplicateClaimFails | pictureparser.py:94-99 | a photo section whose file exists, and whose path already has a record when its turn comes (from before the loop or from an earlier section of it), makes the loop fail |
| Photos.PhotoPassRecord | pictureparser.py:65-110 | on success, a photo section whose file exists, whose path had no record and which yields a tag owns the record of its path: its tags and its star flag |
| Pipeline.ParseIni | pictureparser.py:59-71 | one document only grows the registry and only adds photo records; existing entries keep their values |
| Pipeline.Run | pictureparser.py:40-43 | the document loop only grows the registry and only adds photo records |
| Pipeline.ParseIniAlbums | pictureparser.py:63-90 | a document fails on an album conflict exactly when its album sections clash with the registry so far or with each other; on success every complete album section of the document is registered under its name |
| Pipeline.ParseIniNewRecords | pictureparser.py:63-78 | every record a document adds comes from a section whose name does not start with `.album:`, so album sections never produce photo records |
| Pipeline.SameDocumentAlbumsVisible | pictureparser.py:63-69 | a photo section sees every album of its own document, wherever the album section stands: its record is its tags resolved against the registry after all of the document's album sections |
| Pipeline.DuplicateAcrossDocuments | pictureparser.py:94-99 | a later document whose photo section claims an existing file that already has a record fails |
| Pipeline.ParseIniPreservesInv | pictureparser.py:92-110 | one document keeps every stored record well formed: its file exists, it is non-empty, a starred record holds `star`, and every name is `star` or a non-empty registered album name |
| Pipeline.RunPreservesInv | pictureparser.py:40-43 | the document loop keeps every stored record well formed |
| Pipeline.RunFromEmpty | pictureparser.py:40-43 | a run from empty tables that gets through its documents leaves only well-formed records |
| Keywords.MergeKeywords | pictureparser.py:117 | the merged keywords keep every old keyword, contain every album name and add nothing else |
| Keywords.MergeIdempotent | pictureparser.py:117 | merging the same record twice gives the same keywords as merging once |
| Keywords.WriteInfo | pictureparser.py:114-117 | every photo with a record gets keywords that keep its old ones, include all its album names and add nothing else; no other photo is written |
| Keywords.WriteInfoIdempotent | pictureparser.py:114-117 | running the write step again on the keywords it wrote writes the same keywords |
| Scenarios.ClassifyLoweredPhoto | pictureparser.py:66-69 | `img_1.jpg` is a photo |
| Scenarios.ClassifyUpperCasePhoto | pictureparser.py:66-69 | `IMG_1.JPG` is a photo too: case is ignored |
| Scenarios.ClassifyUnknownFormat | pictureparser.py:70-71 | `notes.txt` has an extension that is not a photo format |
| Scenarios.ClassifyLeadingDots | pictureparser.py:66-67 | `..jpg` has no extension: the leading run of dots is not one |
| Scenarios.ClassifyDotBeforeSlash | pictureparser.py:66-67 | `a.jpg/b` has no extension: a dot before the last slash does not count |
| Scenarios.MergeExample | pictureparser.py:117 | keywords {A, C} merged with albums [A, B] give {A, B, C} |
| Scenarios.TripTags | pictureparser.py:101-110 | with registry {t1: Trip}, the lines `albums = t1` and `star = 1` contribute [Trip, star] and a star |
| Scenarios.TripScenario | pictureparser.py:59-110 | a document with photo section `IMG_1.JPG` (`albums = t1`, `star = 1`) before `.album:xyz` (`token = t1`, `name = Trip`) yields registry {t1: Trip} and record [Trip, star], starred |
| Scenarios.TripKeywords | pictureparser.py:116-117 | writing that record keeps the photo's old keywords and adds `Trip` and `star` |

## Left out

- `scan_folder_for_inis` (pictureparser.py:51-57) walks the directory tree with `os.walk` and `fnmatch`. This is file-system traversal, so the model takes the documents as an ordered sequence.
- `configparser` reading (pictureparser.py:61-62) is outside the model. This covers opening the file, lower-casing option names, rejecting repeated sections or options, and the `DEFAULT` section, whose values the reader copies into every section. A document is a sequence of already parsed sections.
- `configparser` value interpolation (`BasicInterpolation`, applied to `section["token"]`, `section["name"]` and the values of `section.iteritems()` at pictureparser.py:86-90 and 101) is outside the model. Values are taken as they read after interpolation, so `%%` is already `%` and `%(x)s` already substituted. The error a lone `%` raises (`InterpolationSyntaxError`) is not modelled.
- Both conflicts are Python `assert` statements (pictureparser.py:88-89 and 98-99), and the model treats them as enabled. Under `python -O` or `PYTHONOPTIMIZE` they are stripped. A redefined token then silently takes the new name (pictureparser.py:90, so the last definition wins), and a second claim on a recorded path appends to the existing record through the `setdefault` calls (pictureparser.py:106-110). That optimised behaviour is not modelled.
- `os.path.isfile`, `os.path.join` and `os.path.dirname` (pictureparser.py:94-95) touch the file system. They are the abstract `Env.isFile` and `Env.join`, and a `Document` carries its directory.
- Lower-casing is ASCII only, as Python 2 `str.lower` does on byte strings. Unicode names are not modelled.
- `splitext` is modelled as POSIX `posixpath.splitext`, with `/` as the only separator. Windows separators are not modelled.
- `IPTCInfo` construction, `save()` and the `print` in `write_info` (pictureparser.py:115, 118-119) are foreign-library I/O. The old keywords enter as a function of the photo path, and the model produces the keyword set to write. The keyword list's order is not modelled, since the source builds it from a set.
- The `log.info`, `log.warning` and `log.debug` calls are not modelled. Their branches are: the `Kind` of a section separates silent skips from unknown-format warnings.
- `parse_folder`'s pretty-printing, `main`, argument parsing and logging configuration (pictureparser.py:34-49, 122-136) are reporting and CLI glue.
- The class-level `albums`, `photos` and `ini` attributes (pictureparser.py:26-28) are shared across instances. They are replaced by explicit `Tables` threaded through every step, so there is no cross-run state.
