/**
 The resource catalog of `list_resources`: two fixed synthetic resources,
 then one resource per `*.json` entry and then one per `*.txt` entry of the
 directory, each group in enumeration order.  The catalog is rebuilt from the
 listing on every call.
 */
module Resources {
  import opened Strings
  import opened Files

  datatype Resource = Resource(uri: string, name: string, description: string, mimeType: string)

  const FileScheme := "file://"
  const CurrentDirectoryUri := "file://current-directory"
  const StatusUri := "server://status"
  const PlainText := "text/plain"
  const JsonType := "application/json"

  /** The two kinds of file the directory scan picks up, told apart by suffix. */
  datatype FileKind = JsonData | TextData {
    function Suffix(): string {
      match this
      case JsonData => ".json"
      case TextData => ".txt"
    }

    function MimeType(): string {
      match this
      case JsonData => JsonType
      case TextData => PlainText
    }

    /** The descriptor of one scanned file (see `DescribeFile`). */
    function Describe(fileName: string): Resource {
      match this
      case JsonData => Resource(FileScheme + fileName, "JSON Data: " + fileName, "JSON data from " + fileName, JsonType)
      case TextData => Resource(FileScheme + fileName, "Text File: " + fileName, "Text content from " + fileName, PlainText)
    }
  }

  /**
   A scanned file's descriptor: its URI is the scheme followed by the file
   name (so the name can be read back from it), its media type follows the
   suffix, and its name and description both end in the file name.
   */
  lemma DescribeFile(kind: FileKind, fileName: string)
    ensures var r := kind.Describe(fileName);
      && r.uri == FileScheme + fileName && r.uri[|FileScheme|..] == fileName
      && r.mimeType == kind.MimeType()
      && EndsWith(r.name, fileName) && EndsWith(r.description, fileName)
  {
    var r := kind.Describe(fileName);
    assert r.name[|r.name| - |fileName|..] == fileName;
    assert r.description[|r.description| - |fileName|..] == fileName;
  }

  function CurrentDirectory(): Resource {
    Resource(CurrentDirectoryUri, "Current Directory", "List of files in the current directory", PlainText)
  }

  function ServerStatus(): Resource {
    Resource(StatusUri, "Server Status", "Current server status and information", JsonType)
  }

  /** `Path('.').glob('*' + suffix)` selects exactly the names ending in the suffix. */
  predicate Matches(kind: FileKind, e: Entry) {
    EndsWith(e.name, kind.Suffix())
  }

  /** The descriptors one glob loop appends, in enumeration order. */
  function Scanned(kind: FileKind, entries: seq<Entry>): seq<Resource>
    decreases |entries|
  {
    if |entries| == 0 then []
    else
      var last := entries[|entries| - 1];
      Scanned(kind, entries[..|entries| - 1]) + (if Matches(kind, last) then [kind.Describe(last.name)] else [])
  }

  /** `len(list(Path('.').glob('*' + suffix)))`. */
  function MatchCount(kind: FileKind, entries: seq<Entry>): nat
    decreases |entries|
  {
    if |entries| == 0 then 0
    else MatchCount(kind, entries[..|entries| - 1]) + (if Matches(kind, entries[|entries| - 1]) then 1 else 0)
  }

  /** The whole catalog: the synthetic pair, then the JSON files, then the text files. */
  function Catalog(entries: seq<Entry>): seq<Resource> {
    [CurrentDirectory(), ServerStatus()] + Scanned(JsonData, entries) + Scanned(TextData, entries)
  }

  /** `list_resources`: the two synthetic resources, then the `*.json` loop, then the `*.txt` loop. */
  method ListResources(entries: seq<Entry>) returns (resources: seq<Resource>)
    ensures resources == Catalog(entries)
  {
    resources := [];
    resources := resources + [CurrentDirectory()];
    resources := resources + [ServerStatus()];
    resources := AppendScanned(JsonData, entries, resources);
    resources := AppendScanned(TextData, entries, resources);
  }

  /** One `for … in Path('.').glob(…)` loop: appends a descriptor per matching entry. */
  method AppendScanned(kind: FileKind, entries: seq<Entry>, acc: seq<Resource>) returns (resources: seq<Resource>)
    ensures resources == acc + Scanned(kind, entries)
  {
    resources := acc;
    var i := 0;
    while i < |entries|
      invariant 0 <= i <= |entries|
      invariant resources == acc + Scanned(kind, entries[..i])
    {
      ScannedStep(kind, entries, i);
      if Matches(kind, entries[i]) {
        resources := resources + [kind.Describe(entries[i].name)];
      }
      i := i + 1;
    }
    assert entries[..|entries|] == entries;
  }

  /** Scanning one more entry of the listing appends at most that entry's descriptor. */
  lemma ScannedStep(kind: FileKind, entries: seq<Entry>, i: nat)
    requires i < |entries|
    ensures Scanned(kind, entries[..i + 1]) ==
      Scanned(kind, entries[..i]) + (if Matches(kind, entries[i]) then [kind.Describe(entries[i].name)] else [])
  {
    assert entries[..i + 1][..i] == entries[..i];
  }

  /** One glob loop appends exactly as many descriptors as the glob counts. */
  lemma {:induction false} ScannedCount(kind: FileKind, entries: seq<Entry>)
    ensures |Scanned(kind, entries)| == MatchCount(kind, entries)
    decreases |entries|
  {
    if |entries| > 0 {
      ScannedCount(kind, entries[..|entries| - 1]);
    }
  }

  /** Scanning a listing in two pieces gives the two scans one after the other: order is kept. */
  lemma {:induction false} ScannedConcat(kind: FileKind, a: seq<Entry>, b: seq<Entry>)
    ensures Scanned(kind, a + b) == Scanned(kind, a) + Scanned(kind, b)
    decreases |b|
  {
    if |b| == 0 {
      assert a + b == a;
    } else {
      var b' := b[..|b| - 1];
      assert (a + b)[..|a + b| - 1] == a + b';
      assert (a + b)[|a + b| - 1] == b[|b| - 1];
      ScannedConcat(kind, a, b');
    }
  }

  /** A single entry contributes its descriptor exactly when its name has the suffix. */
  lemma ScannedSingle(kind: FileKind, e: Entry)
    ensures Scanned(kind, [e]) == if Matches(kind, e) then [kind.Describe(e.name)] else []
  {
    assert [e][..0] == [];
  }

  /** Every descriptor of a scan comes from a matching entry, and every matching entry has one. */
  lemma {:induction false} ScannedMembers(kind: FileKind, entries: seq<Entry>)
    ensures forall r :: r in Scanned(kind, entries) ==>
      exists e :: e in entries && Matches(kind, e) && r == kind.Describe(e.name)
    ensures forall e :: e in entries && Matches(kind, e) ==> kind.Describe(e.name) in Scanned(kind, entries)
    decreases |entries|
  {
    if |entries| > 0 {
      var init := entries[..|entries| - 1];
      var last := entries[|entries| - 1];
      ScannedMembers(kind, init);
      assert entries == init + [last];
      forall e | e in entries && Matches(kind, e)
        ensures kind.Describe(e.name) in Scanned(kind, entries)
      {
        if e != last {
          assert e in init;
        }
      }
    }
  }

  predicate DistinctUris(rs: seq<Resource>) {
    forall i, j :: 0 <= i < j < |rs| ==> rs[i].uri != rs[j].uri
  }

  /** No URI of `a` is a URI of `b`. */
  predicate UrisApart(a: seq<Resource>, b: seq<Resource>) {
    forall i, j :: 0 <= i < |a| && 0 <= j < |b| ==> a[i].uri != b[j].uri
  }

  predicate DistinctEntryNames(entries: seq<Entry>) {
    forall i, j :: 0 <= i < j < |entries| ==> entries[i].name != entries[j].name
  }

  /** Each scanned descriptor at position `i` describes some matching entry at an index `k`. */
  lemma {:induction false} ScannedFrom(kind: FileKind, entries: seq<Entry>, i: nat)
    requires i < |Scanned(kind, entries)|
    ensures exists k :: 0 <= k < |entries| && Matches(kind, entries[k])
                        && Scanned(kind, entries)[i] == kind.Describe(entries[k].name)
    decreases |entries|
  {
    var init := entries[..|entries| - 1];
    if i < |Scanned(kind, init)| {
      ScannedFrom(kind, init, i);
      var k :| 0 <= k < |init| && Matches(kind, init[k]) && Scanned(kind, init)[i] == kind.Describe(init[k].name);
      assert entries[k] == init[k];
    } else {
      assert Scanned(kind, entries)[i] == kind.Describe(entries[|entries| - 1].name);
    }
  }

  lemma DistinctConcat(a: seq<Resource>, b: seq<Resource>)
    requires DistinctUris(a) && DistinctUris(b) && UrisApart(a, b)
    ensures DistinctUris(a + b)
  {
    var c := a + b;
    forall i, j | 0 <= i < j < |c|
      ensures c[i].uri != c[j].uri
    {
      if j < |a| {
        assert c[i] == a[i] && c[j] == a[j];
      } else if i < |a| {
        assert c[i] == a[i] && c[j] == b[j - |a|];
      } else {
        assert c[i] == b[i - |a|] && c[j] == b[j - |a|];
      }
    }
  }

  /** Different file names give different URIs. */
  lemma DescribeUriInjective(kind: FileKind, a: string, b: string)
    requires a != b
    ensures kind.Describe(a).uri != kind.Describe(b).uri
  {
    DescribeFile(kind, a);
    DescribeFile(kind, b);
  }

  /** Dropping the last entry keeps the names distinct, and the last name occurs nowhere before. */
  lemma DistinctEntryNamesInit(entries: seq<Entry>)
    requires |entries| > 0 && DistinctEntryNames(entries)
    ensures DistinctEntryNames(entries[..|entries| - 1])
    ensures forall k :: 0 <= k < |entries| - 1 ==> entries[k].name != entries[|entries| - 1].name
  {
    var init := entries[..|entries| - 1];
    forall i, j | 0 <= i < j < |init|
      ensures init[i].name != init[j].name
    {
      assert init[i] == entries[i] && init[j] == entries[j];
    }
  }

  /** A name that no entry carries has a URI that no descriptor of the scan has. */
  lemma ApartFromScan(kind: FileKind, entries: seq<Entry>, name: string)
    requires forall k :: 0 <= k < |entries| ==> entries[k].name != name
    ensures UrisApart(Scanned(kind, entries), [kind.Describe(name)])
  {
    var p := Scanned(kind, entries);
    forall i, j | 0 <= i < |p| && 0 <= j < 1
      ensures p[i].uri != [kind.Describe(name)][j].uri
    {
      ScannedFrom(kind, entries, i);
      var k :| 0 <= k < |entries| && Matches(kind, entries[k]) && p[i] == kind.Describe(entries[k].name);
      DescribeUriInjective(kind, entries[k].name, name);
    }
  }

  /** Distinct file names give distinct URIs within one scan. */
  lemma {:induction false} ScannedDistinct(kind: FileKind, entries: seq<Entry>)
    requires DistinctEntryNames(entries)
    ensures DistinctUris(Scanned(kind, entries))
    decreases |entries|
  {
    if |entries| > 0 {
      var init := entries[..|entries| - 1];
      var last := entries[|entries| - 1];
      DistinctEntryNamesInit(entries);
      ScannedDistinct(kind, init);
      if Matches(kind, last) {
        ApartFromScan(kind, init, last.name);
        DistinctConcat(Scanned(kind, init), [kind.Describe(last.name)]);
      }
    }
  }

  /** The JSON descriptors and the text descriptors never share a URI. */
  lemma ScansApart(entries: seq<Entry>)
    ensures UrisApart(Scanned(JsonData, entries), Scanned(TextData, entries))
  {
    var sj := Scanned(JsonData, entries);
    var st := Scanned(TextData, entries);
    forall i, j | 0 <= i < |sj| && 0 <= j < |st|
      ensures sj[i].uri != st[j].uri
    {
      ScannedFrom(JsonData, entries, i);
      ScannedFrom(TextData, entries, j);
      var k1 :| 0 <= k1 < |entries| && Matches(JsonData, entries[k1]) && sj[i] == JsonData.Describe(entries[k1].name);
      var k2 :| 0 <= k2 < |entries| && Matches(TextData, entries[k2]) && st[j] == TextData.Describe(entries[k2].name);
      SuffixesExclusive(entries[k1].name);
      assert sj[i].uri[|FileScheme|..] != st[j].uri[|FileScheme|..];
    }
  }

  /** Neither synthetic URI is the URI of a scanned file. */
  lemma SyntheticApart(kind: FileKind, entries: seq<Entry>)
    ensures forall j :: 0 <= j < |Scanned(kind, entries)| ==>
      Scanned(kind, entries)[j].uri != CurrentDirectoryUri && Scanned(kind, entries)[j].uri != StatusUri
  {
    var s := Scanned(kind, entries);
    forall j | 0 <= j < |s|
      ensures s[j].uri != CurrentDirectoryUri && s[j].uri != StatusUri
    {
      ScannedFrom(kind, entries, j);
      var k :| 0 <= k < |entries| && Matches(kind, entries[k]) && s[j] == kind.Describe(entries[k].name);
      SyntheticUnscanned(kind, entries[k].name);
    }
  }

  /** Every descriptor of one scan has the media type of its kind. */
  lemma {:induction false} ScannedMimeType(kind: FileKind, entries: seq<Entry>)
    ensures forall i :: 0 <= i < |Scanned(kind, entries)| ==> Scanned(kind, entries)[i].mimeType == kind.MimeType()
    decreases |entries|
  {
    if |entries| > 0 {
      ScannedMimeType(kind, entries[..|entries| - 1]);
    }
  }

  /**
   The shape of the catalog: its length counts the two synthetic resources
   and the globbed files, the synthetic pair comes first, the JSON files
   (`application/json`) come before the text files (`text/plain`).
   */
  lemma CatalogShape(entries: seq<Entry>)
    ensures var c := Catalog(entries);
      var j := MatchCount(JsonData, entries);
      && |c| == 2 + j + MatchCount(TextData, entries)
      && c[0] == CurrentDirectory() && c[0].mimeType == PlainText
      && c[1] == ServerStatus() && c[1].mimeType == JsonType
      && c[2..2 + j] == Scanned(JsonData, entries)
      && c[2 + j..] == Scanned(TextData, entries)
      && (forall i :: 2 <= i < 2 + j ==> c[i].mimeType == JsonType)
      && (forall i :: 2 + j <= i < |c| ==> c[i].mimeType == PlainText)
  {
    ScannedCount(JsonData, entries);
    ScannedCount(TextData, entries);
    ScannedMimeType(JsonData, entries);
    ScannedMimeType(TextData, entries);
    var c := Catalog(entries);
    var sj := Scanned(JsonData, entries);
    var st := Scanned(TextData, entries);
    var j := MatchCount(JsonData, entries);
    assert c[2..2 + j] == sj;
    assert c[2 + j..] == st;
    forall i | 2 <= i < 2 + j
      ensures c[i].mimeType == JsonType
    {
      assert c[i] == sj[i - 2];
    }
    forall i | 2 + j <= i < |c|
      ensures c[i].mimeType == PlainText
    {
      assert c[i] == st[i - 2 - j];
    }
  }

  /** Every scanned resource of the catalog is the descriptor of a listed file with the right suffix. */
  lemma CatalogScannedEntries(entries: seq<Entry>, i: nat)
    requires 2 <= i < |Catalog(entries)|
    ensures exists e, kind :: e in entries && Matches(kind, e) && Catalog(entries)[i] == kind.Describe(e.name)
  {
    var c := Catalog(entries);
    var sj := Scanned(JsonData, entries);
    var st := Scanned(TextData, entries);
    if i < 2 + |sj| {
      assert c[i] == sj[i - 2];
      ScannedFrom(JsonData, entries, i - 2);
      var k :| 0 <= k < |entries| && Matches(JsonData, entries[k]) && sj[i - 2] == JsonData.Describe(entries[k].name);
      assert entries[k] in entries;
    } else {
      assert c[i] == st[i - 2 - |sj|];
      ScannedFrom(TextData, entries, i - 2 - |sj|);
      var k :| 0 <= k < |entries| && Matches(TextData, entries[k]) && st[i - 2 - |sj|] == TextData.Describe(entries[k].name);
      assert entries[k] in entries;
    }
  }

  /** When the listing has no repeated name, no URI occurs twice in the catalog. */
  lemma CatalogDistinct(entries: seq<Entry>)
    requires DistinctEntryNames(entries)
    ensures DistinctUris(Catalog(entries))
  {
    var syn := [CurrentDirectory(), ServerStatus()];
    var sj := Scanned(JsonData, entries);
    var st := Scanned(TextData, entries);
    ScannedDistinct(JsonData, entries);
    ScannedDistinct(TextData, entries);
    ScansApart(entries);
    SyntheticApart(JsonData, entries);
    SyntheticApart(TextData, entries);
    DistinctConcat(sj, st);
    assert UrisApart(syn, sj + st) by {
      forall i, j | 0 <= i < |syn| && 0 <= j < |sj + st|
        ensures syn[i].uri != (sj + st)[j].uri
      {
        assert syn[i].uri == CurrentDirectoryUri || syn[i].uri == StatusUri;
        if j < |sj| {
          assert (sj + st)[j] == sj[j];
        } else {
          assert (sj + st)[j] == st[j - |sj|];
        }
      }
    }
    DistinctConcat(syn, sj + st);
    assert Catalog(entries) == syn + (sj + st);
  }

  /** No name ends in both `.json` and `.txt`. */
  lemma SuffixesExclusive(name: string)
    ensures EndsWith(name, ".json") ==> !EndsWith(name, ".txt")
  {
    if EndsWith(name, ".json") {
      assert name[|name| - 1] == 'n';
    }
  }

  /** A scanned file's URI is never one of the two synthetic URIs. */
  lemma SyntheticUnscanned(kind: FileKind, name: string)
    requires EndsWith(name, kind.Suffix())
    ensures kind.Describe(name).uri != CurrentDirectoryUri
    ensures kind.Describe(name).uri != StatusUri
  {
    var u := kind.Describe(name).uri;
    var suffix := kind.Suffix();
    assert u[|u| - 1] == name[|name| - 1] == suffix[|suffix| - 1];
    assert suffix[|suffix| - 1] != CurrentDirectoryUri[|CurrentDirectoryUri| - 1];
    assert u[0] != StatusUri[0];
  }
}
