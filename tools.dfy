/**
 The tool half of the server: the fixed catalog returned by `list_tools` and
 the name-based dispatch of `handle_tools`.  Every handled call answers with
 exactly one text item; a missing `filename` or `content` argument is the one
 outcome that escapes as an exception (`KeyError`), because it is looked up
 before the `try`.
 */
module Tools {
  import opened Wrappers
  import opened Strings
  import opened Files

  /** One declared input property: its name, its JSON type and an optional description. */
  datatype Property = Property(name: string, jsonType: string, description: Option<string>)

  /** An input schema: `{"type": …, "properties": {…}, "required": […]}`. */
  datatype Schema = Schema(jsonType: string, properties: seq<Property>, required: seq<string>)

  datatype Tool = Tool(name: string, description: string, inputSchema: Schema)

  /** A `TextContent` item; its `type` is always `"text"`. */
  datatype TextContent = TextContent(text: string)

  /**
   The result of one call: the answer together with the filesystem the call
   leaves behind, or the `KeyError` for an argument the handler indexed
   without a default.
   */
  datatype ToolOutcome =
    | Answered(content: seq<TextContent>, fs: FileSystem)
    | MissingArgument(key: string)

  /** Arguments of a call; the model takes every argument value to be a string. */
  type Arguments = map<string, string>

  const SayHello := "say_hello"
  const CreateSampleData := "create_sample_data"
  const WriteNote := "write_note"

  predicate Declared(schema: Schema, key: string) {
    exists i :: 0 <= i < |schema.properties| && schema.properties[i].name == key
  }

  /** An object schema whose every required key is one of its declared properties. */
  predicate WellFormedSchema(schema: Schema) {
    && schema.jsonType == "object"
    && forall k :: 0 <= k < |schema.required| ==> Declared(schema, schema.required[k])
  }

  predicate DistinctNames(tools: seq<Tool>) {
    forall i, j :: 0 <= i < j < |tools| ==> tools[i].name != tools[j].name
  }

  /** The catalog of `list_tools`: three tools in a fixed order, each with an object schema. */
  function ListTools(): (tools: seq<Tool>)
    ensures |tools| == 3
    ensures tools[0].name == SayHello && tools[1].name == CreateSampleData && tools[2].name == WriteNote
    ensures DistinctNames(tools)
    ensures forall i :: 0 <= i < |tools| ==> WellFormedSchema(tools[i].inputSchema)
    ensures tools[0].inputSchema.required == ["name"]
    ensures tools[1].inputSchema.required == ["filename"]
    ensures tools[2].inputSchema.required == ["filename", "content"]
  {
    var sayHello := Tool(SayHello, "Says hello to someone",
      Schema("object", [Property("name", "string", None)], ["name"]));
    var createSampleData := Tool(CreateSampleData, "Create sample JSON data files for testing resources",
      Schema("object", [Property("filename", "string", Some("Name for the JSON file"))], ["filename"]));
    var writeNote := Tool(WriteNote, "Write a note to a text file",
      Schema("object", [Property("filename", "string", None), Property("content", "string", None)],
             ["filename", "content"]));
    assert Declared(sayHello.inputSchema, "name") by {
      assert sayHello.inputSchema.properties[0].name == "name";
    }
    assert Declared(createSampleData.inputSchema, "filename") by {
      assert createSampleData.inputSchema.properties[0].name == "filename";
    }
    assert Declared(writeNote.inputSchema, "filename") by {
      assert writeNote.inputSchema.properties[0].name == "filename";
    }
    assert Declared(writeNote.inputSchema, "content") by {
      assert writeNote.inputSchema.properties[1].name == "content";
    }
    [sayHello, createSampleData, writeNote]
  }

  /** The file name `create_sample_data` writes: `.json` is appended unless already there. */
  function JsonFileName(filename: string): (r: string)
    ensures EndsWith(r, ".json")
    ensures StartsWith(r, filename)
    ensures EndsWith(filename, ".json") ==> r == filename
    ensures !EndsWith(filename, ".json") ==> r == filename + ".json"
    ensures |r| <= |filename| + 5
  {
    if EndsWith(filename, ".json") then filename
    else
      var r := filename + ".json";
      assert r[|r| - 5..] == ".json";
      assert r[..|filename|] == filename;
      r
  }

  /** The text `write_note` stores: a timestamp header, a blank line, then the content. */
  function NoteText(now: string, content: string): string {
    "Note created: " + now + "\n\n" + content
  }

  function Greeting(name: string): string {
    "Hello, " + name + "! \U{1F44B}"
  }

  function UnknownToolText(name: string): string {
    "\U{274C} Unknown tool: " + name
  }

  /**
   `handle_tools(name, arguments)`.  `now` is the wall-clock time the note
   header shows and `sampleJson` the serialised sample payload; both come from
   outside the routing logic.
   */
  function CallTool(fs: FileSystem, name: string, args: Arguments, now: string, sampleJson: string): (r: ToolOutcome)
    ensures r.Answered? ==> |r.content| == 1
    ensures r.MissingArgument? <==>
      || (name == CreateSampleData && "filename" !in args)
      || (name == WriteNote && ("filename" !in args || "content" !in args))
    ensures r.MissingArgument? ==> r.key !in args
    ensures name != CreateSampleData && name != WriteNote ==> r.Answered? && r.fs == fs
    ensures r.Answered? && r.fs != fs ==>
      || (name == CreateSampleData && JsonFileName(args["filename"]) !in fs.writeErrors)
      || (name == WriteNote && args["filename"] !in fs.writeErrors)
  {
    if name == SayHello then
      Answered([TextContent(Greeting(Get(args, "name").GetOr("World")))], fs)
    else if name == CreateSampleData then
      if "filename" !in args then MissingArgument("filename")
      else
        var filename := JsonFileName(args["filename"]);
        match WriteFile(fs, filename, sampleJson)
        case Written(fs') =>
          Answered([TextContent("\U{2705} Created sample data file: " + filename)], fs')
        case WriteFailed(e) =>
          Answered([TextContent("\U{274C} Error creating file: " + e)], fs)
    else if name == WriteNote then
      if "filename" !in args then MissingArgument("filename")
      else if "content" !in args then MissingArgument("content")
      else
        var filename := args["filename"];
        match WriteFile(fs, filename, NoteText(now, args["content"]))
        case Written(fs') =>
          Answered([TextContent("\U{2705} Note saved to: " + filename)], fs')
        case WriteFailed(e) =>
          Answered([TextContent("\U{274C} Error writing note: " + e)], fs)
    else
      Answered([TextContent(UnknownToolText(name))], fs)
  }

  /** `arguments.get(key)`. */
  function Get(args: Arguments, key: string): (r: Option<string>)
    ensures r.Some? <==> key in args
    ensures r.Some? ==> r.value == args[key]
  {
    if key in args then Some(args[key]) else None
  }

  /** `say_hello` greets the given name, or "World" when no name is given, and writes nothing. */
  lemma SayHelloGreets(fs: FileSystem, args: Arguments, now: string, sampleJson: string)
    ensures "name" in args ==>
      CallTool(fs, SayHello, args, now, sampleJson) == Answered([TextContent(Greeting(args["name"]))], fs)
    ensures "name" !in args ==>
      CallTool(fs, SayHello, args, now, sampleJson) == Answered([TextContent("Hello, World! \U{1F44B}")], fs)
  {
    assert Greeting("World") == "Hello, World! \U{1F44B}";
  }

  /** A name that is none of the three tools gets the single "unknown tool" text. */
  lemma UnknownToolAnswered(fs: FileSystem, name: string, args: Arguments, now: string, sampleJson: string)
    requires name != SayHello && name != CreateSampleData && name != WriteNote
    ensures CallTool(fs, name, args, now, sampleJson) == Answered([TextContent(UnknownToolText(name))], fs)
  {
  }

  /** Normalising an already normalised name changes nothing. */
  lemma JsonFileNameIdempotent(filename: string)
    ensures JsonFileName(JsonFileName(filename)) == JsonFileName(filename)
  {
  }

  /** `.json` is appended at most once: the name is either kept or gets exactly one suffix. */
  lemma JsonFileNameAppendsOnce(filename: string)
    ensures JsonFileName(filename) == filename || JsonFileName(filename) == filename + ".json"
  {
  }

  /**
   `create_sample_data` writes the sample to the normalised name and reports
   that name, touching no other path (the file reads back as the sample
   unless it refuses reading), or reports the refused open and leaves
   the filesystem alone.
   */
  lemma CreateSampleDataWrites(fs: FileSystem, args: Arguments, now: string, sampleJson: string)
    requires "filename" in args
    ensures var filename := JsonFileName(args["filename"]);
      var r := CallTool(fs, CreateSampleData, args, now, sampleJson);
      && r.Answered?
      && (filename in fs.writeErrors ==>
            r == Answered([TextContent("\U{274C} Error creating file: " + fs.writeErrors[filename])], fs))
      && (filename !in fs.writeErrors ==>
            && r.content == [TextContent("\U{2705} Created sample data file: " + filename)]
            && (filename !in fs.readErrors ==> ReadFile(r.fs, filename) == Read(sampleJson))
            && (filename in fs.readErrors ==> ReadFile(r.fs, filename) == ReadFailed(fs.readErrors[filename]))
            && (forall p :: p != filename ==> ReadFile(r.fs, p) == ReadFile(fs, p))
            && (BareName(filename) ==> Listed(r.fs.entries, filename))
            && (r.fs.entries == fs.entries || r.fs.entries == fs.entries + [Entry(filename, false)]))
  {
  }

  /**
   `write_note` stores the timestamped note under the given name and reports
   it, touching no other path (the file reads back as the note unless it
   refuses reading), or reports the refused open and leaves the filesystem
   alone.
   */
  lemma WriteNoteWrites(fs: FileSystem, args: Arguments, now: string, sampleJson: string)
    requires "filename" in args && "content" in args
    ensures var filename := args["filename"];
      var r := CallTool(fs, WriteNote, args, now, sampleJson);
      && r.Answered?
      && (filename in fs.writeErrors ==>
            r == Answered([TextContent("\U{274C} Error writing note: " + fs.writeErrors[filename])], fs))
      && (filename !in fs.writeErrors ==>
            && r.content == [TextContent("\U{2705} Note saved to: " + filename)]
            && (filename !in fs.readErrors ==> ReadFile(r.fs, filename) == Read(NoteText(now, args["content"])))
            && (filename in fs.readErrors ==> ReadFile(r.fs, filename) == ReadFailed(fs.readErrors[filename]))
            && (forall p :: p != filename ==> ReadFile(r.fs, p) == ReadFile(fs, p))
            && (BareName(filename) ==> Listed(r.fs.entries, filename))
            && (r.fs.entries == fs.entries || r.fs.entries == fs.entries + [Entry(filename, false)]))
  {
  }
}
