/**
 The working directory the server reads and writes, seen only through the
 operations the server performs on it: a listing in enumeration order
 (`os.listdir` and `Path.glob` both yield it), reading a file by name, and
 writing a file by name.  Whether a path is readable or writable is part of
 the given state, so every read or write has one determined outcome.
 */
module Files {

  /** One name in the directory listing; `isDir` is what `os.path.isdir` answers. */
  datatype Entry = Entry(name: string, isDir: bool)

  /**
   What a file holds: text that reads back, or content whose reading fails
   (bytes the text decoder refuses, say), with the message.  Writing the file
   replaces either.
   */
  datatype FileState = Contents(text: string) | Unreadable(reason: string)

  /**
   `entries` is the directory listing, `files` the existing paths and what
   they hold (a path not in `files` does not exist), `readErrors` the paths
   that refuse being opened for reading whatever they hold (no read
   permission, say), and `writeErrors` the paths that refuse being opened for
   writing, each with the message of the exception.  Writing a file changes
   neither permission map.
   */
  datatype FileSystem = FileSystem(
    entries: seq<Entry>,
    files: map<string, FileState>,
    readErrors: map<string, string>,
    writeErrors: map<string, string>)

  datatype ReadOutcome = Read(text: string) | NotFound | ReadFailed(reason: string)

  datatype WriteOutcome = Written(fs: FileSystem) | WriteFailed(reason: string)

  predicate Listed(entries: seq<Entry>, name: string) {
    exists i :: 0 <= i < |entries| && entries[i].name == name
  }

  /**
   `open(path, 'r').read()`, with `FileNotFoundError` and every other
   exception told apart: a missing path is not found, an existing path that
   refuses reading fails with that message, and otherwise what the file holds
   decides.
   */
  function ReadFile(fs: FileSystem, path: string): (r: ReadOutcome)
    ensures r.NotFound? <==> path !in fs.files
    ensures path in fs.files && path in fs.readErrors ==> r == ReadFailed(fs.readErrors[path])
    ensures path in fs.files && path !in fs.readErrors && fs.files[path].Contents? ==> r == Read(fs.files[path].text)
    ensures path in fs.files && path !in fs.readErrors && fs.files[path].Unreadable? ==>
      r == ReadFailed(fs.files[path].reason)
  {
    if path !in fs.files then NotFound
    else if path in fs.readErrors then ReadFailed(fs.readErrors[path])
    else match fs.files[path]
      case Contents(t) => Read(t)
      case Unreadable(e) => ReadFailed(e)
  }

  /**
   A path that names an entry of the working directory itself: not empty, no
   separator, and neither `.` nor `..`.  Only such a path can show up in the
   listing of `.`; any other path reaches into some other directory.
   */
  predicate BareName(path: string) {
    |path| > 0 && '/' !in path && path != "." && path != ".."
  }

  /**
   `open(path, 'w').write(text)`: either opening the path for writing fails
   with its message and nothing changes, or the path holds exactly `text`
   afterwards (it reads back as `text` unless it refuses reading) and no other
   path is touched.  A bare name not yet listed is
   listed after the existing entries; any other path leaves the listing of
   `.` as it was.
   */
  function WriteFile(fs: FileSystem, path: string, text: string): (r: WriteOutcome)
    ensures r.WriteFailed? <==> path in fs.writeErrors
    ensures r.WriteFailed? ==> r.reason == fs.writeErrors[path]
    ensures r.Written? && path !in fs.readErrors ==> ReadFile(r.fs, path) == Read(text)
    ensures r.Written? && path in fs.readErrors ==> ReadFile(r.fs, path) == ReadFailed(fs.readErrors[path])
    ensures r.Written? ==> forall p :: p != path ==> ReadFile(r.fs, p) == ReadFile(fs, p)
    ensures r.Written? ==> r.fs.readErrors == fs.readErrors && r.fs.writeErrors == fs.writeErrors
    ensures r.Written? && BareName(path) ==> Listed(r.fs.entries, path)
    ensures r.Written? ==> r.fs.entries == fs.entries || r.fs.entries == fs.entries + [Entry(path, false)]
    ensures r.Written? ==> (r.fs.entries == fs.entries <==> Listed(fs.entries, path) || !BareName(path))
  {
    if path in fs.writeErrors then WriteFailed(fs.writeErrors[path])
    else
      var entries := if Listed(fs.entries, path) || !BareName(path) then fs.entries else fs.entries + [Entry(path, false)];
      assert BareName(path) ==> Listed(entries, path) by {
        if !Listed(fs.entries, path) && BareName(path) {
          assert entries[|entries| - 1].name == path;
        }
      }
      Written(fs.(entries := entries, files := fs.files[path := Contents(text)]))
  }
}
