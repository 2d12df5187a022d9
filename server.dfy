/**
 Properties that connect the tool half and the resource half of the server
 through the filesystem they share: what a tool writes, a resource read
 returns, and the status count follows the catalog as files appear.
 */
module Server {
  import opened Strings
  import opened Files
  import opened Tools
  import opened Resources
  import opened Resolver

  /** Appending one entry to the listing adds one to a glob count exactly when the entry matches. */
  lemma MatchCountAppend(kind: FileKind, entries: seq<Entry>, e: Entry)
    ensures MatchCount(kind, entries + [e]) == MatchCount(kind, entries) + (if Matches(kind, e) then 1 else 0)
  {
    assert (entries + [e])[..|entries|] == entries;
  }

  /** A file that holds `text` under an addressable name is read back through its `file://` URI. */
  lemma StoredFileReads(fs: FileSystem, filename: string, text: string, later: string)
    requires Addressable(filename) && ReadFile(fs, filename) == Read(text)
    ensures Resolve(fs, FileScheme + filename, later) == [ResourceContents(FileScheme + filename, Text(text))]
  {
    FileUriResolves(filename);
  }

  /** A file under an addressable name that refuses reading answers the read error through its URI. */
  lemma StoredFileFails(fs: FileSystem, filename: string, reason: string, later: string)
    requires Addressable(filename) && ReadFile(fs, filename) == ReadFailed(reason)
    ensures Resolve(fs, FileScheme + filename, later)
         == [ResourceContents(FileScheme + filename, Text("\U{274C} Error reading file: " + reason))]
  {
    FileUriResolves(filename);
  }

  /** A listed `.json` name is a JSON resource of the catalog. */
  lemma ListedJsonInCatalog(entries: seq<Entry>, filename: string)
    requires Listed(entries, filename) && EndsWith(filename, ".json")
    ensures JsonData.Describe(filename) in Catalog(entries)
  {
    var k :| 0 <= k < |entries| && entries[k].name == filename;
    ScannedMembers(JsonData, entries);
    assert entries[k] in entries && Matches(JsonData, entries[k]);
    assert JsonData.Describe(filename) in Scanned(JsonData, entries);
  }

  /**
   A note written by `write_note` under an addressable name is read back
   through `file://` + name as exactly the text that was stored, unless the
   file refuses reading (a write-only file), whose read error is answered.
   */
  lemma WriteNoteThenRead(fs: FileSystem, filename: string, content: string, now: string, later: string, sampleJson: string)
    requires Addressable(filename) && filename !in fs.writeErrors
    ensures var r := CallTool(fs, WriteNote, map["filename" := filename, "content" := content], now, sampleJson);
      && r.Answered?
      && (filename !in fs.readErrors ==>
            Resolve(r.fs, FileScheme + filename, later)
            == [ResourceContents(FileScheme + filename, Text(NoteText(now, content)))])
      && (filename in fs.readErrors ==>
            Resolve(r.fs, FileScheme + filename, later)
            == [ResourceContents(FileScheme + filename, Text("\U{274C} Error reading file: " + fs.readErrors[filename]))])
  {
    var args := map["filename" := filename, "content" := content];
    WriteNoteWrites(fs, args, now, sampleJson);
    var r := CallTool(fs, WriteNote, args, now, sampleJson);
    if filename in fs.readErrors {
      StoredFileFails(r.fs, filename, fs.readErrors[filename], later);
    } else {
      StoredFileReads(r.fs, filename, NoteText(now, content), later);
    }
  }

  /**
   `create_sample_data` under a bare name makes its file a catalog resource:
   the normalised name appears in the next catalog as a JSON resource, and
   reading that resource's URI returns the payload that was written, unless
   the file refuses reading, whose read error is answered.
   */
  lemma CreateSampleDataThenRead(fs: FileSystem, args: Arguments, now: string, later: string, sampleJson: string)
    requires "filename" in args && JsonFileName(args["filename"]) !in fs.writeErrors
    requires BareName(JsonFileName(args["filename"]))
    ensures var filename := JsonFileName(args["filename"]);
      var r := CallTool(fs, CreateSampleData, args, now, sampleJson);
      && r.Answered?
      && JsonData.Describe(filename) in Catalog(r.fs.entries)
      && (filename !in fs.readErrors ==>
            Resolve(r.fs, FileScheme + filename, later)
            == [ResourceContents(FileScheme + filename, Text(sampleJson))])
      && (filename in fs.readErrors ==>
            Resolve(r.fs, FileScheme + filename, later)
            == [ResourceContents(FileScheme + filename, Text("\U{274C} Error reading file: " + fs.readErrors[filename]))])
  {
    var filename := JsonFileName(args["filename"]);
    CreateSampleDataWrites(fs, args, now, sampleJson);
    var r := CallTool(fs, CreateSampleData, args, now, sampleJson);
    ListedJsonInCatalog(r.fs.entries, filename);
    ScannedNameAddressable(JsonData, filename);
    if filename in fs.readErrors {
      StoredFileFails(r.fs, filename, fs.readErrors[filename], later);
    } else {
      StoredFileReads(r.fs, filename, sampleJson, later);
    }
  }

  /**
   After `create_sample_data` writes a file under a bare name the status count
   still equals the length of the catalog, and it has grown by one exactly
   when the file is new.
   */
  lemma StatusAfterCreate(fs: FileSystem, args: Arguments, now: string, later: string, sampleJson: string)
    requires "filename" in args && JsonFileName(args["filename"]) !in fs.writeErrors
    requires BareName(JsonFileName(args["filename"]))
    ensures var filename := JsonFileName(args["filename"]);
      var fs' := CallTool(fs, CreateSampleData, args, now, sampleJson).fs;
      && |Catalog(fs'.entries)| == |Catalog(fs.entries)| + (if Listed(fs.entries, filename) then 0 else 1)
      && Resolve(fs', StatusUri, later)[0].body.report.resourcesAvailable == |Catalog(fs'.entries)|
  {
    var filename := JsonFileName(args["filename"]);
    var fs' := CallTool(fs, CreateSampleData, args, now, sampleJson).fs;
    CreateSampleDataWrites(fs, args, now, sampleJson);
    CatalogShape(fs.entries);
    CatalogShape(fs'.entries);
    if !Listed(fs.entries, filename) {
      var e := Entry(filename, false);
      assert fs'.entries == fs.entries + [e];
      MatchCountAppend(JsonData, fs.entries, e);
      MatchCountAppend(TextData, fs.entries, e);
      SuffixesExclusive(filename);
    }
    FixedUrisResolve(0);
    assert StatusUri + Slashes(0) == StatusUri;
    StatusCountsCatalog(fs', StatusUri, later);
  }

  /**
   A name with a directory part is written into that directory, out of sight
   of the scan of `.`: creating `data/users` stores `data/users.json`, which
   reads back through its URI (when it does not refuse reading), while the
   catalog stays as it was.
   */
  lemma NestedCreateUnlisted(fs: FileSystem, now: string, later: string, sampleJson: string)
    requires "data/users.json" !in fs.writeErrors
    ensures var r := CallTool(fs, CreateSampleData, map["filename" := "data/users"], now, sampleJson);
      && r.Answered?
      && Catalog(r.fs.entries) == Catalog(fs.entries)
      && ("data/users.json" !in fs.readErrors ==>
            Resolve(r.fs, FileScheme + "data/users.json", later)
            == [ResourceContents(FileScheme + "data/users.json", Text(sampleJson))])
  {
    var args := map["filename" := "data/users"];
    assert args["filename"] == "data/users";
    assert !EndsWith("data/users", ".json");
    assert JsonFileName("data/users") == "data/users" + ".json" == "data/users.json";
    assert !BareName("data/users.json") by {
      assert "data/users.json"[4] == '/';
    }
    CreateSampleDataWrites(fs, args, now, sampleJson);
    var r := CallTool(fs, CreateSampleData, args, now, sampleJson);
    ScannedNameAddressable(JsonData, "data/users.json");
    if "data/users.json" !in fs.readErrors {
      StoredFileReads(r.fs, "data/users.json", sampleJson, later);
    }
  }

  /**
   The scenario of the example client: create `users`, which is stored as
   `users.json`; the status then counts it, and reading `file://users.json`
   returns the sample payload.
   */
  lemma ClientScenario(fs: FileSystem, args: Arguments, now: string, later: string, sampleJson: string)
    requires args == map["filename" := "users"]
    requires "users.json" !in fs.writeErrors && "users.json" !in fs.readErrors
    requires !Listed(fs.entries, "users.json")
    ensures JsonFileName(args["filename"]) == "users.json"
    ensures var r := CallTool(fs, CreateSampleData, args, now, sampleJson);
      && r.Answered?
      && r.content == [TextContent("\U{2705} Created sample data file: " + JsonFileName(args["filename"]))]
      && Resolve(r.fs, StatusUri, later)[0].body.report.resourcesAvailable == |Catalog(fs.entries)| + 1
      && Resolve(r.fs, FileScheme + JsonFileName(args["filename"]), later)
         == [ResourceContents(FileScheme + JsonFileName(args["filename"]), Text(sampleJson))]
  {
    assert args["filename"] == "users";
    assert !EndsWith("users", ".json");
    assert JsonFileName("users") == "users" + ".json" == "users.json";
    assert BareName("users.json") by {
      assert forall i :: 0 <= i < |"users.json"| ==> "users.json"[i] != '/';
    }
    CreateSampleDataWrites(fs, args, now, sampleJson);
    StatusAfterCreate(fs, args, now, later, sampleJson);
    CreateSampleDataThenRead(fs, args, now, later, sampleJson);
  }
}
