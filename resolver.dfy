/**
 `read_resource`: the URI with its trailing slashes stripped picks one of four
 branches, first match wins: the exact directory-listing URI, the exact status
 URI, any URI under the `file://` scheme, and everything else.  Every branch
 answers with exactly one content item that carries the URI as received.
 */
module Resolver {
  import opened Strings
  import opened Files
  import opened Tools
  import opened Resources

  /** Which branch of `read_resource` a URI takes; a file read carries the extracted file name. */
  datatype Route = DirectoryListing | Status | FileRead(fileName: string) | UnknownUri

  /** The status document; its JSON rendering is not part of the model. */
  datatype StatusReport = StatusReport(
    serverName: string,
    version: string,
    status: string,
    uptime: string,
    capabilities: seq<string>,
    toolsCount: nat,
    resourcesAvailable: nat,
    currentTime: string)

  datatype Body = Text(text: string) | StatusJson(report: StatusReport)

  /** One `TextResourceContents` item. */
  datatype ResourceContents = ResourceContents(uri: string, body: Body)

  const ListingHeader := "Current Directory Contents:\n"

  /** `uri_str.rstrip('/')`. */
  function Normalize(uri: string): string {
    RStrip(uri, '/')
  }

  /** At most one trailing `/` or `\` removed. */
  function DropSeparator(f: string): string {
    if EndsWith(f, "/") || EndsWith(f, "\\") then f[..|f| - 1] else f
  }

  /** The file branch's name: the first `file://` replaced by nothing, then one trailing separator dropped. */
  function FileNameOf(uri: string): string {
    DropSeparator(ReplaceFirst(uri, FileScheme, ""))
  }

  /** The branch `read_resource` takes for `uri` (first match wins). */
  function RouteOf(uri: string): Route {
    var n := Normalize(uri);
    if n == CurrentDirectoryUri then DirectoryListing
    else if n == StatusUri then Status
    else if StartsWith(n, FileScheme) then FileRead(FileNameOf(uri))
    else UnknownUri
  }

  /** A URI whose stripped form is under the file scheme is itself under it. */
  lemma NormalizedUnderScheme(uri: string)
    requires StartsWith(Normalize(uri), FileScheme)
    ensures StartsWith(uri, FileScheme)
  {
    var n := Normalize(uri);
    assert uri[..|FileScheme|] == n[..|FileScheme|];
  }

  /** For a URI under the file scheme the name is the rest of the URI, minus one trailing separator. */
  lemma FileNameAtScheme(uri: string)
    requires StartsWith(uri, FileScheme)
    ensures FileNameOf(uri) == DropSeparator(uri[|FileScheme|..])
  {
    ReplaceFirstAtStart(uri, FileScheme);
  }

  /**
   The routing rule: a URI falls through to "unknown" exactly when, stripped,
   it is neither the status URI nor under the file scheme; a file read names
   the URI minus its scheme, minus at most one trailing separator.
   */
  lemma RouteCases(uri: string)
    ensures RouteOf(uri) == UnknownUri <==> Normalize(uri) != StatusUri && !StartsWith(Normalize(uri), FileScheme)
    ensures RouteOf(uri).FileRead? ==> StartsWith(uri, FileScheme)
    ensures RouteOf(uri).FileRead? ==>
      var rest := uri[|FileScheme|..];
      || RouteOf(uri).fileName == rest
      || (|rest| > 0 && rest[|rest| - 1] in {'/', '\\'} && RouteOf(uri).fileName == rest[..|rest| - 1])
  {
    var n := Normalize(uri);
    if n != CurrentDirectoryUri && n != StatusUri && StartsWith(n, FileScheme) {
      NormalizedUnderScheme(uri);
      FileNameAtScheme(uri);
    }
  }

  /** One line of the directory listing. */
  function EntryLine(e: Entry): string {
    if e.isDir then "\U{1F4C1} " + e.name + "/" else "\U{1F4C4} " + e.name
  }

  /** The lines of the directory listing, in enumeration order. */
  function ListingLines(entries: seq<Entry>): seq<string>
    decreases |entries|
  {
    if |entries| == 0 then []
    else ListingLines(entries[..|entries| - 1]) + [EntryLine(entries[|entries| - 1])]
  }

  function ListingText(entries: seq<Entry>): string {
    ListingHeader + Join(ListingLines(entries), '\n')
  }

  /** The status document for a listing: the resource count is recomputed from the same scan. */
  function StatusOf(entries: seq<Entry>, now: string): StatusReport {
    StatusReport("tools-and-resources-server", "1.0.0", "running", "active", ["tools", "resources"],
                 3, 2 + MatchCount(JsonData, entries) + MatchCount(TextData, entries), now)
  }

  function FileBody(fs: FileSystem, fileName: string): Body {
    match ReadFile(fs, fileName)
    case Read(t) => Text(t)
    case NotFound => Text("\U{274C} File not found: " + fileName)
    case ReadFailed(e) => Text("\U{274C} Error reading file: " + e)
  }

  function UnknownUriText(uri: string): string {
    "\U{274C} Unknown resource URI: " + uri
  }

  /** What `read_resource` answers for `uri`, with `now` the clock reading of the status branch. */
  function Resolve(fs: FileSystem, uri: string, now: string): (r: seq<ResourceContents>)
    ensures |r| == 1 && r[0].uri == uri
  {
    match RouteOf(uri)
    case DirectoryListing => [ResourceContents(uri, Text(ListingText(fs.entries)))]
    case Status => [ResourceContents(uri, StatusJson(StatusOf(fs.entries, now)))]
    case FileRead(f) => [ResourceContents(uri, FileBody(fs, f))]
    case UnknownUri => [ResourceContents(uri, Text(UnknownUriText(uri)))]
  }

  /** `read_resource`, step by step. */
  method ReadResource(fs: FileSystem, uri: string, now: string) returns (contents: seq<ResourceContents>)
    ensures contents == Resolve(fs, uri, now)
  {
    var normalized := RStrip(uri, '/');
    if normalized == CurrentDirectoryUri {
      var content := ListDirectory(fs.entries);
      contents := [ResourceContents(uri, Text(content))];
    } else if normalized == StatusUri {
      var jsonCount := MatchCount(JsonData, fs.entries);
      var txtCount := MatchCount(TextData, fs.entries);
      var baseResources := 2;
      var totalResources := baseResources + jsonCount + txtCount;
      var report := StatusReport("tools-and-resources-server", "1.0.0", "running", "active",
                                 ["tools", "resources"], 3, totalResources, now);
      contents := [ResourceContents(uri, StatusJson(report))];
    } else if StartsWith(normalized, FileScheme) {
      var filename := ReplaceFirst(uri, FileScheme, "");
      if EndsWith(filename, "/") || EndsWith(filename, "\\") {
        filename := filename[..|filename| - 1];
      }
      var body := ReadBody(fs, filename);
      contents := [ResourceContents(uri, body)];
    } else {
      contents := [ResourceContents(uri, Text(UnknownUriText(uri)))];
    }
  }

  /** The listing branch: one line per entry appended in a loop, then joined under the header. */
  method ListDirectory(entries: seq<Entry>) returns (content: string)
    ensures content == ListingText(entries)
  {
    var files: seq<string> := [];
    var i := 0;
    while i < |entries|
      invariant 0 <= i <= |entries|
      invariant files == ListingLines(entries[..i])
    {
      var item := entries[i];
      assert entries[..i + 1][..i] == entries[..i];
      if item.isDir {
        files := files + ["\U{1F4C1} " + item.name + "/"];
      } else {
        files := files + ["\U{1F4C4} " + item.name];
      }
      i := i + 1;
    }
    assert entries[..|entries|] == entries;
    content := ListingHeader + Join(files, '\n');
  }

  /**
   The `try`/`except` around `open(filename).read()`: the file's text, the
   not-found message naming the file, or the message of any other failure.
   */
  method ReadBody(fs: FileSystem, filename: string) returns (body: Body)
    ensures filename !in fs.files ==> body == Text("\U{274C} File not found: " + filename)
    ensures filename in fs.files && filename in fs.readErrors ==>
      body == Text("\U{274C} Error reading file: " + fs.readErrors[filename])
    ensures filename in fs.files && filename !in fs.readErrors && fs.files[filename].Contents? ==>
      body == Text(fs.files[filename].text)
    ensures filename in fs.files && filename !in fs.readErrors && fs.files[filename].Unreadable? ==>
      body == Text("\U{274C} Error reading file: " + fs.files[filename].reason)
    ensures body == FileBody(fs, filename)
  {
    if filename !in fs.files {
      body := Text("\U{274C} File not found: " + filename);
    } else if filename in fs.readErrors {
      body := Text("\U{274C} Error reading file: " + fs.readErrors[filename]);
    } else {
      match fs.files[filename]
      case Contents(t) =>
        body := Text(t);
      case Unreadable(e) =>
        body := Text("\U{274C} Error reading file: " + e);
    }
  }

  /** `k` slashes. */
  function Slashes(k: nat): (s: string)
    ensures |s| == k && forall i :: 0 <= i < k ==> s[i] == '/'
  {
    seq(k, _ => '/')
  }

  /** Trailing slashes do not change the stripped URI. */
  lemma {:induction false} NormalizeSlashes(uri: string, k: nat)
    ensures Normalize(uri + Slashes(k)) == Normalize(uri)
    decreases k
  {
    if k == 0 {
      assert uri + Slashes(k) == uri;
    } else {
      assert uri + Slashes(k) == (uri + Slashes(k - 1)) + ['/'];
      RStripAppend(uri + Slashes(k - 1), '/');
      NormalizeSlashes(uri, k - 1);
    }
  }

  /**
   Trailing-slash insensitivity: adding slashes to a URI keeps its branch, and
   keeps the whole route for the directory-listing, status and unknown
   branches (a file read's name drops only one separator).
   */
  lemma RouteIgnoresSlashes(uri: string, k: nat)
    ensures RouteOf(uri + Slashes(k)).FileRead? <==> RouteOf(uri).FileRead?
    ensures !RouteOf(uri).FileRead? ==> RouteOf(uri + Slashes(k)) == RouteOf(uri)
  {
    NormalizeSlashes(uri, k);
  }

  /** Both fixed URIs resolve to their own branch with any number of trailing slashes. */
  lemma FixedUrisResolve(k: nat)
    ensures RouteOf(CurrentDirectoryUri + Slashes(k)) == DirectoryListing
    ensures RouteOf(StatusUri + Slashes(k)) == Status
  {
    NormalizeSlashes(CurrentDirectoryUri, k);
    NormalizeSlashes(StatusUri, k);
    RStripNoop(CurrentDirectoryUri, '/');
    RStripNoop(StatusUri, '/');
  }

  /** One trailing slash on a file URI reads the same file. */
  lemma FileRouteIgnoresOneSlash(uri: string)
    requires RouteOf(uri).FileRead?
    requires !EndsWith(uri, "/") && !EndsWith(uri, "\\")
    ensures RouteOf(uri + "/") == RouteOf(uri)
  {
    var u := uri + "/";
    assert u == uri + Slashes(1);
    NormalizeSlashes(uri, 1);
    NormalizedUnderScheme(uri);
    AppendedUnderScheme(uri);
    FileNameAtScheme(uri);
    FileNameAtScheme(u);
    DropAppendedSeparator(uri);
  }

  lemma AppendedUnderScheme(uri: string)
    requires StartsWith(uri, FileScheme)
    ensures StartsWith(uri + "/", FileScheme)
    ensures (uri + "/")[|FileScheme|..] == uri[|FileScheme|..] + "/"
  {
    assert (uri + "/")[..|FileScheme|] == uri[..|FileScheme|];
  }

  /** Dropping one separator from a name that had one appended gives the name back. */
  lemma DropAppendedSeparator(uri: string)
    requires StartsWith(uri, FileScheme)
    requires !EndsWith(uri, "/") && !EndsWith(uri, "\\")
    ensures DropSeparator(uri[|FileScheme|..] + "/") == uri[|FileScheme|..]
    ensures DropSeparator(uri[|FileScheme|..]) == uri[|FileScheme|..]
  {
    var rest := uri[|FileScheme|..];
    assert (rest + "/")[..|rest|] == rest;
    assert |rest| > 0 ==> rest[|rest| - 1] == uri[|uri| - 1];
    assert EndsWith(rest, "/") ==> EndsWith(uri, "/");
    assert EndsWith(rest, "\\") ==> EndsWith(uri, "\\");
  }

  /** `file://current-directory` lies under the file scheme but takes the listing branch. */
  lemma ListingBeforeFileScheme()
    ensures StartsWith(CurrentDirectoryUri, FileScheme)
    ensures RouteOf(CurrentDirectoryUri) == DirectoryListing
  {
    RStripNoop(CurrentDirectoryUri, '/');
  }

  /**
   A file name is reachable as `file://` + name exactly when it is not empty,
   does not end in a separator and is not the listing's own name.
   */
  predicate Addressable(name: string) {
    && |name| > 0
    && name[|name| - 1] != '/' && name[|name| - 1] != '\\'
    && name != "current-directory"
  }

  /** The `file://` URI of a name reads that very file exactly when the name is addressable. */
  lemma FileUriResolves(name: string)
    ensures RouteOf(FileScheme + name) == FileRead(name) <==> Addressable(name)
  {
    if Addressable(name) {
      AddressableResolves(name);
    } else {
      UnaddressableMisses(name);
    }
  }

  /** `file://` + name lies under the scheme and yields the name minus at most one separator. */
  lemma FileUriParts(name: string)
    ensures StartsWith(FileScheme + name, FileScheme)
    ensures (FileScheme + name)[|FileScheme|..] == name
    ensures FileNameOf(FileScheme + name) == DropSeparator(name)
  {
    var uri := FileScheme + name;
    assert uri[..|FileScheme|] == FileScheme;
    assert uri[|FileScheme|..] == name;
    FileNameAtScheme(uri);
  }

  /** An addressable name is read through its `file://` URI. */
  lemma AddressableResolves(name: string)
    requires Addressable(name)
    ensures RouteOf(FileScheme + name) == FileRead(name)
  {
    var uri := FileScheme + name;
    FileUriParts(name);
    LastOfSchemed(name);
    RStripNoop(uri, '/');
    SchemedApart(name, "current-directory");
    ListingUnderScheme();
    SchemedNotStatus(name);
    PlainFileRoute(uri);
  }

  /** A schemed name ends where the name ends. */
  lemma LastOfSchemed(name: string)
    requires |name| > 0
    ensures (FileScheme + name)[|FileScheme + name| - 1] == name[|name| - 1]
  {
  }

  /** Prefixing the scheme keeps different names apart. */
  lemma SchemedApart(a: string, b: string)
    requires a != b
    ensures FileScheme + a != FileScheme + b
  {
    assert (FileScheme + a)[|FileScheme|..] == a;
    assert (FileScheme + b)[|FileScheme|..] == b;
  }

  /** The listing URI is itself a `file://` URI. */
  lemma ListingUnderScheme()
    ensures CurrentDirectoryUri == FileScheme + "current-directory"
  {
  }

  /** No `file://` URI is the status URI. */
  lemma SchemedNotStatus(name: string)
    ensures FileScheme + name != StatusUri
  {
    assert (FileScheme + name)[0] == 'f';
  }

  /** A URI that is already stripped, under the scheme and neither fixed URI, is a file read. */
  lemma PlainFileRoute(uri: string)
    requires Normalize(uri) == uri && StartsWith(uri, FileScheme)
    requires uri != CurrentDirectoryUri && uri != StatusUri
    ensures RouteOf(uri) == FileRead(FileNameOf(uri))
  {
  }

  /** Any other name is not: its URI routes elsewhere or reads a shorter name. */
  lemma UnaddressableMisses(name: string)
    requires !Addressable(name)
    ensures RouteOf(FileScheme + name) != FileRead(name)
  {
    if name == "current-directory" {
      ShadowedNameMisses();
    } else if |name| == 0 {
      BareSchemeMisses();
    } else {
      SeparatorNameMisses(name);
    }
  }

  /** A name ending in a separator loses it: the file read, if any, names one character less. */
  lemma SeparatorNameMisses(name: string)
    requires |name| > 0 && name[|name| - 1] in {'/', '\\'}
    ensures RouteOf(FileScheme + name) != FileRead(name)
  {
    var uri := FileScheme + name;
    FileUriParts(name);
    assert EndsWith(name, "/") || EndsWith(name, "\\");
    assert |FileNameOf(uri)| == |name| - 1;
    RouteFileName(uri);
  }

  /** The file branch carries the name `FileNameOf` extracts. */
  lemma RouteFileName(uri: string)
    ensures RouteOf(uri).FileRead? ==> RouteOf(uri).fileName == FileNameOf(uri)
  {
  }

  /** `file://current-directory` is the listing, never a file read. */
  lemma ShadowedNameMisses()
    ensures RouteOf(FileScheme + "current-directory") == DirectoryListing
  {
    var uri := FileScheme + "current-directory";
    assert uri == CurrentDirectoryUri;
    assert uri[|uri| - 1] == 'y';
    RStripNoop(uri, '/');
  }

  /** The bare scheme `file://` strips to `file:`, which no branch accepts. */
  lemma BareSchemeMisses()
    ensures RouteOf(FileScheme) == UnknownUri
  {
    var n := Normalize(FileScheme);
    assert FileScheme[4] == ':';
    assert |n| < |FileScheme|;
    assert |n| != |CurrentDirectoryUri| && |n| != |StatusUri|;
  }

  /** Every catalog entry resolves back to its own branch; a scanned file to a read of its own name. */
  lemma CatalogResolves(entries: seq<Entry>, i: nat)
    requires i < |Catalog(entries)|
    ensures i == 0 ==> RouteOf(Catalog(entries)[i].uri) == DirectoryListing
    ensures i == 1 ==> RouteOf(Catalog(entries)[i].uri) == Status
    ensures 2 <= i ==> exists e :: (e in entries
      && Catalog(entries)[i].uri == FileScheme + e.name
      && RouteOf(Catalog(entries)[i].uri) == FileRead(e.name))
  {
    FixedUrisResolve(0);
    assert CurrentDirectoryUri + Slashes(0) == CurrentDirectoryUri;
    assert StatusUri + Slashes(0) == StatusUri;
    if 2 <= i {
      CatalogScannedEntries(entries, i);
      var e, kind :| e in entries && Matches(kind, e) && Catalog(entries)[i] == kind.Describe(e.name);
      DescribeFile(kind, e.name);
      ScannedNameAddressable(kind, e.name);
      FileUriResolves(e.name);
    }
  }

  /** A name picked up by the scan ends in `.json` or `.txt`, so it can be addressed. */
  lemma ScannedNameAddressable(kind: FileKind, name: string)
    requires EndsWith(name, kind.Suffix())
    ensures Addressable(name)
  {
    var suffix := kind.Suffix();
    assert name[|name| - 1] == suffix[|suffix| - 1];
    assert suffix[|suffix| - 1] != 'y';
    assert "current-directory"[16] == 'y';
  }

  /** The listing has one line per entry, in enumeration order. */
  lemma {:induction false} ListingLinesAt(entries: seq<Entry>)
    ensures |ListingLines(entries)| == |entries|
    ensures forall i :: 0 <= i < |entries| ==> ListingLines(entries)[i] == EntryLine(entries[i])
    decreases |entries|
  {
    if |entries| > 0 {
      var init := entries[..|entries| - 1];
      ListingLinesAt(init);
      forall i | 0 <= i < |entries|
        ensures ListingLines(entries)[i] == EntryLine(entries[i])
      {
        if i < |init| {
          assert entries[i] == init[i];
        }
      }
    }
  }

  /** No listing line holds a newline unless its entry's name does. */
  lemma LinesWithoutNewline(entries: seq<Entry>)
    requires forall i :: 0 <= i < |entries| ==> '\n' !in entries[i].name
    ensures forall i :: 0 <= i < |ListingLines(entries)| ==> '\n' !in ListingLines(entries)[i]
  {
    ListingLinesAt(entries);
    var lines := ListingLines(entries);
    forall i | 0 <= i < |lines|
      ensures '\n' !in lines[i]
    {
      assert lines[i] == EntryLine(entries[i]);
    }
  }

  /** What follows a prefix is the rest of the concatenation. */
  lemma AfterPrefix(h: string, rest: string)
    ensures StartsWith(h + rest, h) && (h + rest)[|h|..] == rest
  {
    assert (h + rest)[..|h|] == h;
  }

  /**
   The listing can be read back: after the header, splitting at newlines
   gives one line per entry, provided no name holds a newline.
   */
  lemma ListingReadBack(entries: seq<Entry>)
    requires |entries| > 0
    requires forall i :: 0 <= i < |entries| ==> '\n' !in entries[i].name
    ensures StartsWith(ListingText(entries), ListingHeader)
    ensures Split(ListingText(entries)[|ListingHeader|..], '\n') == ListingLines(entries)
  {
    ListingLinesAt(entries);
    LinesWithoutNewline(entries);
    SplitJoin(ListingLines(entries), '\n');
    AfterPrefix(ListingHeader, Join(ListingLines(entries), '\n'));
  }

  /** The status branch counts exactly the catalog `list_resources` builds, and the three tools. */
  lemma StatusCountsCatalog(fs: FileSystem, uri: string, now: string)
    requires RouteOf(uri) == Status
    ensures Resolve(fs, uri, now)[0].body.StatusJson?
    ensures Resolve(fs, uri, now)[0].body.report.resourcesAvailable == |Catalog(fs.entries)|
    ensures Resolve(fs, uri, now)[0].body.report.toolsCount == |ListTools()|
    ensures Resolve(fs, uri, now)[0].body.report.currentTime == now
  {
    CatalogShape(fs.entries);
  }

  /** Reading a scanned catalog entry returns the file's text unchanged, or the handled error. */
  lemma ReadCatalogEntry(fs: FileSystem, i: nat, now: string)
    requires 2 <= i < |Catalog(fs.entries)|
    ensures exists e :: (e in fs.entries && Catalog(fs.entries)[i].uri == FileScheme + e.name
      && Resolve(fs, Catalog(fs.entries)[i].uri, now)
         == [ResourceContents(Catalog(fs.entries)[i].uri, FileBody(fs, e.name))])
  {
    CatalogResolves(fs.entries, i);
  }

  /** What a file read answers for each outcome of the read. */
  lemma FileBodyOutcomes(fs: FileSystem, fileName: string)
    ensures fileName !in fs.files ==> FileBody(fs, fileName) == Text("\U{274C} File not found: " + fileName)
    ensures fileName in fs.files && fileName in fs.readErrors ==>
      FileBody(fs, fileName) == Text("\U{274C} Error reading file: " + fs.readErrors[fileName])
    ensures fileName in fs.files && fileName !in fs.readErrors && fs.files[fileName].Contents? ==>
      FileBody(fs, fileName) == Text(fs.files[fileName].text)
    ensures fileName in fs.files && fileName !in fs.readErrors && fs.files[fileName].Unreadable? ==>
      FileBody(fs, fileName) == Text("\U{274C} Error reading file: " + fs.files[fileName].reason)
  {
  }

  /** A URI that matches no branch gets the single "unknown resource" item naming it. */
  lemma UnknownUriAnswered(fs: FileSystem, uri: string, now: string)
    requires Normalize(uri) != StatusUri && !StartsWith(Normalize(uri), FileScheme)
    ensures Resolve(fs, uri, now) == [ResourceContents(uri, Text(UnknownUriText(uri)))]
  {
  }
}
