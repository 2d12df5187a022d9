# Tools-and-resources MCP server, modelled in Dafny

This project models the request-handling core of `server.py`, a small Model
Context Protocol server. The server exposes two kinds of capability:

- **Tools**: `say_hello`, `create_sample_data` and `write_note`. `list_tools`
  announces them and `handle_tools` dispatches calls to them by name.
- **Resources**: `list_resources` builds a catalog of two synthetic resources,
  then one resource per `*.json` file and one per `*.txt` file in the working
  directory. `read_resource` resolves a URI to one of four branches:
  - the exact directory-listing URI `file://current-directory`;
  - the exact status URI `server://status`;
  - any other URI under `file://`;
  - everything else, which gets an "unknown resource" answer.

  Trailing slashes are stripped before matching.

The working directory is a value, `Files.FileSystem`. It holds the listing in
enumeration order, what each existing path holds, the paths whose opening
for reading fails whatever they hold (no read permission), and the paths
whose opening for writing fails, each with its message. A write replaces
what a file holds but changes neither kind of permission. Only a bare name (no `/`,
not `.` or `..`) written by a tool joins the listing of `.`. A tool call is a function
from a filesystem to an answer and the filesystem left behind. A resource
read is a function of the filesystem.

The modules follow the program's parts:

- `Strings`: Python's `startswith`, `endswith`, `rstrip`,
  `replace(…, 1)` and `join`, on `seq<char>`, plus a `split` that reads a
  joined listing back.
- `Files`: reading and writing one file.
- `Tools`: `list_tools` and `handle_tools`.
- `Resources`: `list_resources`. It is written as a method with the source's
  two append loops, proved equal to the function `Catalog`.
- `Resolver`: `read_resource`. It is written as a method with the source's
  listing loop, proved equal to the function `Resolve`.
- `Server`: properties that connect tools and resources through the shared
  filesystem, including the scenario of `client.py`.

Main results:

- The status count always equals the length of the catalog.
- Every catalog entry resolves back through its own URI.
- URIs in the catalog are distinct when file names are.
- A file that a tool writes under an addressable name (see the next point)
  is read back through `file://` + name as the text that was written, unless
  the file refuses reading. "Exactly" holds up to the text-mode newline
  translation that the model leaves out (see "Filesystem" under "Left out").
- `file://` + name reaches the file exactly when the name is non-empty, does
  not end with `/` or `\`, and is not `current-directory`: that name is
  shadowed by the listing URI.

Three facts about the code shape the model:

- The two fixed URIs are `file://current-directory` and `server://status`.
- `say_hello` without a name greets "World".
- `server.py` validates no arguments itself. Whatever the `mcp` library
  checks before it calls `handle_tools` is not modelled. A missing
  `filename` or `content` escapes from the handler as a `KeyError`; here
  that is the outcome `MissingArgument`.

## Model

| member | source | states |
|---|---|---|
| Tools.ListTools | server.py:50-88 | exactly three tools, named `say_hello`, `create_sample_data`, `write_note` in that order, with distinct names; every schema is an object schema whose required keys are declared properties; the required lists are `[name]`, `[filename]`, `[filename, content]` |
| Tools.CallTool | server.py:90-139 | every answer is one text item; the call fails with a missing argument exactly when `create_sample_data` lacks `filename` or `write_note` lacks `filename` or `content`, and the key named is absent; an unknown or `say_hello` call leaves the filesystem alone; the filesystem changes only through a write that did not fail |
| Tools.SayHelloGreets | server.py:94-96 | `say_hello` greets the given name, or "World" when none is given, and writes nothing |
| Tools.UnknownToolAnswered | server.py:138-139 | any other tool name gets the single "Unknown tool" text, with the filesystem unchanged |
| Tools.JsonFileName | server.py:99-101 | the file name ends in `.json` and begins with the given name; it is the given name when that already ends in `.json`, and the given name plus `.json` otherwise |
| Tools.JsonFileNameIdempotent | server.py:99-101 | normalising an already normalised name changes nothing |
| Tools.JsonFileNameAppendsOnce | server.py:100-101 | the result is either the name or the name plus one `.json` |
| Tools.CreateSampleDataWrites | server.py:98-126 | when opening for writing fails, the error text and an unchanged filesystem; otherwise the success text naming the normalised file, which now reads as the sample payload unless it refuses reading, every other path reads as before, the listing is unchanged or gains just that file, and a bare name is listed |
| Tools.WriteNoteWrites | server.py:128-136 | when opening for writing fails, the error text and an unchanged filesystem; otherwise the success text, the file reads as `Note created: <now>`, a blank line, then the content unless it refuses reading, every other path reads as before, the listing is unchanged or gains just that file, and a bare name is listed |
| Tools.Get | server.py:95 | a lookup finds a value exactly when the key is present, and that value is the argument's |
| Files.ReadFile | server.py:242-249 | a read finds nothing exactly when the path does not exist; an existing path that refuses reading fails with that message; otherwise the read returns the stored text or the error the content raises |
| Files.WriteFile | server.py:121-123 | a write fails exactly for a path that refuses opening for writing, with its message; otherwise the path reads back the written text unless it refuses reading, both permission maps stay as they were, and no other path changes; a bare name not yet listed is appended to the listing once, while a listed name or a path into another directory leaves the listing unchanged |
| Resources.ListResources | server.py:147-189 | the list built by appending the two synthetic resources and the two glob loops is `Catalog` of the listing |
| Resources.AppendScanned | server.py:171-187 | one glob loop appends exactly `Scanned` of the listing to what was there |
| Resources.CatalogShape | server.py:153-189 | the catalog has 2 + #json + #txt entries: directory listing (`text/plain`) first, status (`application/json`) second, then the JSON scan with `application/json`, then the text scan with `text/plain` |
| Resources.ScannedCount | server.py:218-219 | one scan yields as many descriptors as the glob counts |
| Resources.ScannedConcat | server.py:171-187 | scanning a listing in two pieces concatenates the two scans, so enumeration order is kept |
| Resources.ScannedMembers | server.py:171-187 | every scanned descriptor comes from a matching entry, and every matching entry has one |
| Resources.ScannedFrom | server.py:171-187 | each scanned descriptor at a position describes a matching entry at some index |
| Resources.ScannedMimeType | server.py:171-187 | every descriptor of a scan has its kind's media type |
| Resources.DescribeFile | server.py:171-187 | a scanned file's URI is `file://` + its name (the name can be read back from it), its media type follows the suffix, and its name and description end in the file name |
| Resources.ScannedDistinct | server.py:172-178 | distinct file names give distinct URIs within one scan |
| Resources.ScansApart | server.py:171-187 | no JSON descriptor shares a URI with a text descriptor |
| Resources.SyntheticApart | server.py:153-187 | no scanned URI is either synthetic URI |
| Resources.CatalogDistinct | server.py:153-189 | with distinct names in the listing, no URI occurs twice in the catalog |
| Resources.CatalogScannedEntries | server.py:171-187 | every catalog entry after the first two describes a listed file with the right suffix |
| Resources.SuffixesExclusive | server.py:171-187 | no name matches both globs |
| Resolver.ReadResource | server.py:192-252 | the content answered step by step (strip, four branches, listing loop, status counts, file read with its handlers) equals `Resolve` |
| Resolver.Resolve | server.py:192-252 | every read answers with exactly one item carrying the URI as received |
| Resolver.ListDirectory | server.py:205-212 | the listing built by the append loop is `ListingText` of the entries |
| Resolver.ReadBody | server.py:242-249 | the body of a file read is the not-found message naming the file when it does not exist, the error message when the file refuses reading or its content cannot be read, and the file's text otherwise |
| Resolver.RouteCases | server.py:199-252 | a URI falls through to "unknown" exactly when, stripped, it is neither the status URI nor under `file://`; a file read names the rest of the URI after the scheme, minus at most one trailing separator |
| Resolver.NormalizeSlashes | server.py:201 | trailing slashes do not change the stripped URI |
| Resolver.RouteIgnoresSlashes | server.py:200-236 | added trailing slashes keep a URI's branch, and keep the whole route outside the file branch |
| Resolver.FixedUrisResolve | server.py:201-215 | both fixed URIs reach their own branch with any number of trailing slashes |
| Resolver.FileRouteIgnoresOneSlash | server.py:238-241 | one trailing slash on a file URI reads the same file |
| Resolver.ListingBeforeFileScheme | server.py:203-236 | `file://current-directory` lies under the file scheme, yet takes the listing branch |
| Resolver.FileUriResolves | server.py:236-241 | `file://` + name reads that file exactly when the name is non-empty, does not end in a separator and is not `current-directory` |
| Resolver.CatalogResolves | server.py:153-241 | entry 0 of the catalog resolves to the listing, entry 1 to the status, and every later entry to a read of its own listed file |
| Resolver.ScannedNameAddressable | server.py:236-241 | every name a glob picks up can be addressed through its URI |
| Resolver.ListingLinesAt | server.py:205-210 | the listing has one line per entry, in enumeration order: a folder mark and `/` for directories, a file mark otherwise |
| Resolver.ListingReadBack | server.py:205-212 | when no name holds a newline, the text after the header splits at newlines back into one line per entry |
| Resolver.StatusCountsCatalog | server.py:215-234 | the status reports as many resources as `list_resources` lists, as many tools as `list_tools` lists, and the given time |
| Resolver.ReadCatalogEntry | server.py:236-249 | reading a scanned catalog entry gives that file's body |
| Resolver.FileBodyOutcomes | server.py:242-249 | the not-found message naming the file for a missing path; the error message for a path that refuses reading or content that cannot be read; the file's text otherwise |
| Resolver.UnknownUriAnswered | server.py:251-252 | a URI matching no branch gets the single "Unknown resource URI" item naming it |
| Strings.RStrip | server.py:201 | the result is a prefix of the input and does not end in the character, and everything removed is that character |
| Strings.ReplaceFirst | server.py:238 | with no occurrence of the pattern the string is unchanged; with a first occurrence at `k`, the result keeps everything before `k`, puts the replacement at `k`, then continues with what followed the pattern, and its length changes by the difference |
| Strings.FindFrom | server.py:238 | the first index at or after the start where the pattern occurs, or none when it occurs nowhere |
| Strings.ReplaceFirstAtStart | server.py:238 | replacing the first `file://` of a URI that begins with it drops exactly that prefix |
| Strings.SplitJoin | server.py:212 | splitting a newline join of newline-free lines gives the lines back |
| Server.StoredFileReads | server.py:236-245 | a stored file under an addressable name is read back through its `file://` URI |
| Server.StoredFileFails | server.py:236-249 | a file under an addressable name that refuses reading answers its read error through its `file://` URI |
| Server.ListedJsonInCatalog | server.py:171-178 | a listed `.json` file is a JSON resource of the catalog |
| Server.WriteNoteThenRead | server.py:236-249 | a note written under an addressable name is read back through `file://` + name as exactly the stored text; a file that refuses reading answers its read error instead |
| Server.CreateSampleDataThenRead | server.py:98-126 | after `create_sample_data` under a bare name, the file is a JSON resource of the next catalog, and reading its URI returns the sample payload, or the read error of a file that refuses reading |
| Server.StatusAfterCreate | server.py:218-222 | after `create_sample_data` under a bare name the status count still equals the catalog length, which grew by one exactly when the file is new |
| Server.NestedCreateUnlisted | server.py:98-126 | creating `data/users` stores `data/users.json`, which reads back through its URI unless it refuses reading, while the catalog of `.` stays as it was |
| Server.MatchCountAppend | server.py:218-219 | appending one entry adds one to a glob count exactly when the entry matches |
| Server.ClientScenario | client.py:112-125 | creating `users` writes `users.json` with the success text; the status then counts one more resource; reading `file://users.json` returns the sample payload |

## Left out

- Transport and protocol: the stdio transport, capability negotiation,
  `main` and the `mcp` library are not modelled. Nor is the wrapping of
  results in `ReadResourceResult` and `TextResourceContents`: a read is a
  sequence of `(uri, body)` items.
- URIs as received: the model's `uri` is `uri_str`, the string that
  `str(uri)` makes from the library's URL object. Any change that parsing
  makes to the URI before that point, such as the trailing slash that the comment
  at server.py:200 mentions, is not modelled. `Resolver.CatalogResolves`,
  `Resolver.ReadCatalogEntry` and the main result "every catalog entry
  resolves back" assume that a catalog URI reaches `read_resource`
  unchanged.
- Clocks: `datetime.now()` is a parameter `now` (or `later`) of each call.
- JSON: the sample payload is a string parameter `sampleJson`, and the
  status document is the structured `StatusReport` rather than its text.
  Neither `json.dump` nor `json.dumps` formatting is modelled.
- `Resolver.StatusCountsCatalog`: it compares the counts with the catalog of
  the same listing. The source scans the directory twice; the model reads
  one listing, so nothing can change in between.
- Glob and listdir: `Path('.').glob('*.json')` is modelled as the listed
  names ending in the suffix, in listing order. Hidden files, case rules and
  subdirectories the filesystem hides are not modelled, and directories
  with such a name are kept, as glob keeps them. `str(path)` is taken to
  be the bare name.
- Filesystem: the filesystem is abstract. Whether a read fails, and whether
  opening a path for writing fails (permissions, a directory in the way, a
  missing parent directory), is given by its state. A successful first write
  of a bare name appends a file entry at the end of the listing. Where
  `os.listdir` actually places a new name is up to the filesystem, so that
  position is a choice of the model; no result depends on it. Encodings and
  line-ending translation are not modelled. In particular, `open(filename,
  'r')` turns `\r` and `\r\n` into `\n`, so note content holding `\r` does
  not come back exactly in the source, while it does in the model.
- Files.WriteFile: paths are compared as strings, so aliases of one file
  such as `./a.txt` and `a.txt` are distinct files in the model. The model
  also does not resolve symbolic links or case-insensitive names.
- Tools.CreateSampleDataWrites: only a failure to open the file is modelled.
  `open(filename, 'w')` creates or truncates the file first, so a failure
  after the open (such as a full disk when the data is flushed) returns the
  error text but leaves an empty or partly written file. The model does not
  capture that.
- Tools.WriteNoteWrites: likewise, only a failure to open the file is
  modelled. A failure after the open (a full disk, or an encoding error on
  the note content) leaves an empty or partly written file, which the
  model does not capture.
- Arguments: every argument value is a string
  (`Tools.Arguments = map<string, string>`). A non-string value does not reach
  the model: f-string conversion of such values, and `endswith` on a non-string
  `filename`, are left out.
- Logging, `async` scheduling and concurrency between calls are not modelled,
  because none of them changes the answer of a single call.
- `client.py` appears only as the scenario of `Server.ClientScenario`; its
  printing is not modelled.
