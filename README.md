# sv: content types and route table

`sv` is a small static file server written in Go. At startup it walks a
directory tree and registers one HTTP route per file with Go's default
`ServeMux`. Each route is bound to an endpoint that remembers the file's path
and the `Content-Type` to send with it. This project models the two pieces of
that program that are pure logic, and proves properties about them:

- **The content-type resolver** (`getContentType`). It takes the text after
  the last `.` of a file name and looks it up, case-sensitively, in a fixed
  switch of about sixty extensions. A name with no `.`, a name ending in its
  last `.`, and every extension the switch does not list get
  `application/octet-stream`. Several cases build the type as a prefix
  followed by the extension itself (`"font/" + ext`).
- **The walk callback** in `run`. For each entry the walk reports:
  - a directory is passed over;
  - a file's path is split at its last `/` into a directory part, which keeps
    the `/`, and a file name;
  - every segment of the directory part is tested against the exclusion
    pattern, including the empty segment after the final `/`, and a match
    skips the file;
  - the file is registered at `"/" + dir` when its name is exactly
    `index.html`, and at `"/" + path` otherwise, with the content type of its
    name.

  The file name itself is never tested against the pattern.

Modules:

- `Options` holds the `Option` type.
- `Strings` models `strings.LastIndex` and `strings.Split` for a
  one-character separator.
- `ContentTypes` holds the resolver and the reference table it is proved
  against.
- `Routes` holds `filepath.Split`, the route rule, the segment loop and what
  the callback registers for one entry.
- `Registry` holds the mux as a class, whose `Handle` refuses a pattern it
  already has. It also holds the walk as a loop over a given sequence of
  entries, proved against a specification function `Walked`.

The model follows the code in these places:

- The resolver appends no `; charset=utf-8` parameter, and `NoCharsetParameter`
  proves that the result never carries one.
- There is no attachment threshold and no `Content-Length`.
- The extensions `sum`, `mod` and `lock` are not in the table.
- The switch's `".gitignore"` label can never match, because an extension
  never contains a `.`. A file named `.gitignore` is therefore served as
  `application/octet-stream` (`GitignoreCaseUnreachable`,
  `GitignoreFileFallsBack`).

The exclusion pattern is a parameter `excluded: string -> bool` standing for
the compiled regular expression's `MatchString`. The default pattern `^\.` is
written out as `DotPrefixed` for the examples.

## Model

| member | source | states |
|---|---|---|
| `Strings.LastIndexOf` | sv.go:132 | the result is -1 exactly when the character is absent; otherwise it is an occurrence with none after it |
| `Strings.LastIndexOfUnique` | sv.go:132 | an occurrence with none after it is the one `LastIndexOf` finds |
| `Strings.Split` | sv.go:53 | the pieces are never empty as a list, contain no separator, and join back to the input |
| `Strings.SplitWithoutSeparator` | sv.go:53 | a string without the separator splits into itself alone |
| `Strings.SplitAround` | sv.go:53 | splitting at one separator splits the two sides independently |
| `Strings.SplitJoin` | sv.go:53 | splitting undoes joining for separator-free pieces, the inverse of `Split`'s join property |
| `Strings.SplitFindsFirstPiece` | sv.go:53 | a separator-free piece followed by a separator is one of the pieces |
| `Strings.SplitFindsInnerPiece` | sv.go:53 | a separator-free piece between two separators is one of the pieces |
| `ContentTypes.Extension` | sv.go:132-137 | there is no extension exactly when the name has no `.` or ends with its last `.`; otherwise the extension is non-empty, dot-free, and the name is a stem, a `.` and the extension |
| `ContentTypes.ContentType` | sv.go:130-212 | the result is never empty, is a table value or the fallback, and is the fallback whenever there is no extension |
| `ContentTypes.ForExtension` | sv.go:138-210 | the switch itself, case by case; its own contract says only that the result is never empty, and `ForExtensionMatchesTable` states its full behaviour against the table |
| `ContentTypes.ForExtensionMatchesTable` | sv.go:138-210 | the switch returns the table's value for every extension the table lists and the fallback for every other, so it is total, never empty and never carries a charset parameter; a result under `text/` is one of the four text types |
| `ContentTypes.SwitchCaseIsTableEntry` | sv.go:138-207 | for a listed extension the switch's value is the table's, is not the fallback, is a text type exactly for the text extensions, and is under `text/` only when it is a text type |
| `ContentTypes.UnlistedFallsBack` | sv.go:208-209 | an extension the table does not list reaches the default case, whose type is not under `text/` |
| `ContentTypes.WebEntries` | sv.go:140-145 | each web case (`js`, `mjs`, `css`, `csv`, `html`, `htm`) returns its table value |
| `ContentTypes.ArchiveEntries` | sv.go:148-155 | each archive case returns its table value |
| `ContentTypes.DataEntries` | sv.go:150-171 | each data, XHTML and shell-script case returns its table value |
| `ContentTypes.DocumentEntries` | sv.go:156-167 | each office-document case returns its table value |
| `ContentTypes.FontEntries` | sv.go:174-175 | each font case returns its table value |
| `ContentTypes.AudioEntries` | sv.go:178-181 | each audio case returns its table value |
| `ContentTypes.ImageEntries` | sv.go:184-187 | each templated image case and TIFF returns its table value |
| `ContentTypes.PictureEntries` | sv.go:188-193 | the SVG, JPEG and icon cases return their table values |
| `ContentTypes.VideoEntries` | sv.go:196-201 | each video case returns its table value |
| `ContentTypes.PlainTextEntries` | sv.go:204-205 | each plain-text case returns `text/plain` |
| `ContentTypes.SourceEntries` | sv.go:206-207 | each program-source case returns `text/plain` |
| `ContentTypes.WebMedia` | sv.go:140-145 | the only web types under `text/` are `text/css`, `text/csv` and `text/html`; `js` and `mjs` give an `application/` type |
| `ContentTypes.ArchiveMedia` | sv.go:148-155 | no archive type is under `text/` |
| `ContentTypes.DataMedia` | sv.go:150-171 | no data-format, XHTML or shell-script type is under `text/` |
| `ContentTypes.DocumentMedia` | sv.go:156-167 | no office-document type is under `text/` |
| `ContentTypes.FontMedia` | sv.go:174-175 | no font type is under `text/` |
| `ContentTypes.AudioMedia` | sv.go:178-181 | no audio type is under `text/` |
| `ContentTypes.ImageMedia` | sv.go:184-187 | no templated image type nor TIFF is under `text/` |
| `ContentTypes.PictureMedia` | sv.go:188-193 | the SVG, JPEG and icon types are not under `text/` |
| `ContentTypes.VideoMedia` | sv.go:196-201 | no video type is under `text/` |
| `ContentTypes.LastExtensionDecides` | sv.go:132-138 | for any stem, the extension of `stem.ext` is `ext` and its type is the switch's value for `ext`: earlier dots play no part |
| `ContentTypes.DoubleExtension` | sv.go:152-153 | `a.tar.gz` is served as `application/gzip` |
| `ContentTypes.GitignoreCaseUnreachable` | sv.go:204 | no file name has the extension `.gitignore`, so that case label is dead |
| `ContentTypes.GitignoreKey` | sv.go:204-209 | the switch maps `.gitignore` to `text/plain` but `gitignore` to the fallback |
| `ContentTypes.GitignoreFileFallsBack` | sv.go:132-209 | any name ending in `.gitignore`, the file `.gitignore` included, has extension `gitignore` and is served as the fallback |
| `ContentTypes.TemplatedDocumentTypes` | sv.go:142-171 | `css`/`csv` give `text/` + ext, `zip`/`rtf`/`json`/`xml`/`pdf` give `application/` + ext, `sh`/`csh` give `application/x-` + ext |
| `ContentTypes.TemplatedSoundAndFontTypes` | sv.go:174-179 | `ttf`/`otf`/`woff`/`woff2` give `font/` + ext and `wav`/`aac`/`opus` give `audio/` + ext |
| `ContentTypes.TemplatedPictureTypes` | sv.go:184-201 | `bmp`/`gif`/`png`/`webp` give `image/` + ext and `mp4`/`webm`/`mpeg` give `video/` + ext |
| `ContentTypes.AliasedWebTypes` | sv.go:140-145 | `js` and `mjs` share `application/javascript`; `html` and `htm` share `text/html` |
| `ContentTypes.AliasedImageTypes` | sv.go:186-191 | `tif` and `tiff` share `image/tiff`; `jpg` and `jpeg` share `image/jpeg` |
| `ContentTypes.PlainTextTypes` | sv.go:204-207 | `txt`, `dat`, `md` and the program-source extensions all give `text/plain` |
| `ContentTypes.FallbackExactly` | sv.go:132-211 | the fallback is served exactly when there is no extension or the table does not list it |
| `ContentTypes.CaseSensitive` | sv.go:184-209 | `png` gives `image/png` but `PNG` falls back |
| `ContentTypes.NoCharsetParameter` | sv.go:130-212 | the result never ends with a charset parameter; it is one of the four text types exactly when the extension is a text extension; and any result under `text/` is one of those four, so no other text type is ever sent |
| `Routes.SplitPath` | sv.go:52 | the two parts concatenate to the path, the directory part is empty or ends with `/`, and the file name has no `/` |
| `Routes.SplitPathUnique` | sv.go:52 | any directory part followed by a `/`-free name is split back into exactly those two, the inverse of the concatenation |
| `Routes.DirPartHasNoFile` | sv.go:52 | a directory part splits into itself and an empty name |
| `Routes.Route` | sv.go:59-64 | every route starts with `/` and continues with a prefix of the path |
| `Routes.RouteOfIndex` | sv.go:59-61 | `index.html` under any directory part is served at `/` followed by that directory part |
| `Routes.RouteOfFile` | sv.go:62-64 | any other file is served at `/` followed by its whole path |
| `Routes.RouteInjective` | sv.go:59-64 | two file paths, each non-empty and not ending with `/`, that have the same route are the same path |
| `Routes.SkipFolder` | sv.go:53-58 | the loop skips the file exactly when some segment of the directory part matches the pattern |
| `Routes.Registration` | sv.go:49-64 | a registered binding is for the entry's own path, at a route starting with `/`, with a non-empty type from the table or the fallback |
| `Routes.RegistrationOfFile` | sv.go:49-64 | a directory is never registered; a file is registered exactly when its directory part is not excluded, at the index or file route and with the content type of its name |
| `Routes.OnlyFoldersAreTested` | sv.go:52-58 | two patterns that agree on the directory part's segments register the same thing, whatever they say of the file name |
| `Routes.FolderIsSegment` | sv.go:53 | a folder in a directory part is one of its segments |
| `Routes.FolderAboveFile` | sv.go:52-53 | the directory part of any path beneath a folder has that folder as a segment |
| `Routes.ExcludedFolderHidesSubtree` | sv.go:52-58 | nothing beneath an excluded folder is registered, at any depth |
| `Routes.EmptySegmentIsLast` | sv.go:53 | the empty segment is among the segments of every directory part |
| `Routes.EmptyMatchExcludesAll` | sv.go:53-58 | a pattern matching the empty string excludes every file |
| `Routes.HiddenFolderExample` | sv.go:27-58 | under the default pattern `.git/config` is not registered |
| `Routes.HiddenFileExample` | sv.go:27-58 | under the default pattern `site/.env` is registered |
| `Routes.TopLevelFileExample` | sv.go:27-58 | under the default pattern every file at the top of the walk other than `index.html` (the root `.` having been cleaned away) is registered at `/` followed by its name, with the content type of its name |
| `Routes.ParentRootHidesAll` | sv.go:27-58 | under the default pattern nothing below a walk root of `../site` is registered, because the root's `..` segment starts with a dot |
| `Registry.ServeMux.constructor` | sv.go:61-64 | the default mux starts empty |
| `Registry.ServeMux.Handle` | sv.go:61-64 | a new pattern is added with its endpoint; a pattern already present is refused and the table is unchanged |
| `Registry.Step` | sv.go:61-64 | an entry with no binding leaves the table as it was; a binding clashes exactly when its route is already present, and the clash names that route and leaves the table unchanged; otherwise the route is added with its endpoint and no existing route changes |
| `Registry.Bindings` | sv.go:48-67 | one binding, or none, per walk entry |
| `Registry.Walked` | sv.go:48-67 | the fold of `Step` over the bindings, stopping at the first clash; its own contract says that the starting routes are all still present and that a clash names a route of the final table, and `WalkedKeepsRoutes`, `WalkedSound`, `WalkedComplete` and `ConflictIsDuplicate` state the rest |
| `Registry.Visit` | sv.go:48-67 | the callback's new table and clash are those of `Step` on the entry's registration |
| `Registry.RegisterAll` | sv.go:48-67 | the final table and clash are those of `Walked` on the entries' bindings |
| `Registry.WalkedKeepsRoutes` | sv.go:61-64 | routes already in the table are never replaced or removed |
| `Registry.WalkedSound` | sv.go:48-67 | every route the walk adds is the route of one of the bindings, with that binding's endpoint |
| `Registry.WalkedComplete` | sv.go:48-67 | a walk without a clash has registered every binding at its route |
| `Registry.ConflictIsDuplicate` | sv.go:61-64 | a clash is on a route that was already present or that an earlier binding also had |
| `Registry.DistinctFilesDistinctRoutes` | sv.go:52-64 | distinct file paths, none ending with `/`, never produce two bindings with the same route |
| `Registry.DistinctFilesNeverClash` | sv.go:48-67 | from an empty mux, a walk that reports each file once never clashes and registers every non-excluded file |
| `Registry.TableServesWalkedFiles` | sv.go:48-67 | every route of the finished table serves a walked file that is not excluded, at that file's route, with the content type of its name |

## Left out

- Flag parsing, the help text and the globals (sv.go:16-36, 82-92): this is configuration and console output. The port does not enter the model and the pattern is a parameter. The directory enters through the paths: `filepath.Walk` passes the callback `filepath.Join` of the root and each entry's path below it, and `Join` cleans the result. The default root `.` therefore leaves no segment of its own (`./a.txt` is reported as `a.txt` and served at `/a.txt`, see `Routes.TopLevelFileExample`), while a root such as `site` or `../site` stays at the head of every path: `-d site` serves `/site/...`, and the root's segments are tested against the pattern. Under the default pattern a root of `../site` therefore serves nothing (`Routes.ParentRootHidesAll`).
- The startup checks, `os.Stat` and `regexp.Compile`, together with their error returns (sv.go:38-47): these are filesystem and library calls. Regular-expression semantics are not modelled; the compiled pattern is an arbitrary predicate on segments.
- `filepath.Walk` itself: its lexical traversal order, its error argument, and the callback dereferencing `info` before looking at the error. The walk is a given sequence of (path, is-directory) entries, each path being the walk's root joined with the path below it and cleaned as `filepath.Join` cleans it. The cleaning itself is not modelled.
- `endpoint.ServeHTTP` (sv.go:101-128): file reading, eager loading under `sync.Once`, the panic on a failed eager read, and the 404 and 500 replies in lazy mode. These are I/O and concurrency.
- `http.ListenAndServe` and the `Printf` log lines (sv.go:60, 63, 71-72): network and console I/O.
- `Registry.ServeMux.Handle`: the real mux panics on a duplicate pattern and the program dies. The model instead refuses the pattern and stops the walk with the clashing route.
- `Registry.ServeMux.Handle`: `ServeMux` pattern syntax (wildcards, host and method prefixes, the catch-all meaning of a trailing `/`) is not modelled. A pattern is an exact string key.
- Windows separators and volume names: the separator is `/`, as on Unix.
- Go strings are byte sequences; the model works on characters. The separators `.` and `/` are ASCII and cannot occur inside a multi-byte UTF-8 sequence, so every split falls in the same place.
- `Routes.HiddenFileExample`: it states only that `site/.env` is registered. Its exact binding follows from `Routes.RegistrationOfFile`.
- The server's documentation also describes a `; charset=utf-8` suffix on text types, an attachment size threshold with `Content-Disposition` and `Content-Length`, a host flag, and the extensions `sum`, `mod` and `lock`. None of these is in the code, and the model follows the code.
