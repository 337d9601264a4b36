/** The storage behaviour the tests of the engine and of the HTTP layer rely
    on, replayed against the engine over an initially empty file system. */
module Scenarios {
  import opened Wrappers
  import opened Builtins
  import opened Entities
  import opened Files
  import Os

  /** Saving ("my-key", 101, "My Value") succeeds, and reading the pair back
      gives "My Value" with no error. */
  method SaveThenGet(dir: string) returns (saveErr: Option<Error>, found: string, foundErr: Option<Error>)
    ensures saveErr == None
    ensures found == "My Value" && foundErr == None
  {
    var disk := new Os.FileSystem(map[]);
    var fs := new FileStorer(dir);
    saveErr := fs.Save(disk, Sequence("my-key", "My Value", 101), true, true);
    found, foundErr := fs.Get(disk, "my-key", 101);
  }

  /** After that save, reading "my-key" at 110 gives "" with no error. */
  method GetAbsentTimestamp(dir: string) returns (absent: string, absentErr: Option<Error>)
    ensures absent == "" && absentErr == None
  {
    var disk := new Os.FileSystem(map[]);
    var fs := new FileStorer(dir);
    var e := Sequence("my-key", "My Value", 101);
    assert Clean(e.key) && Clean(e.value);
    var saveErr := fs.Save(disk, e, true, true);
    OtherTimestampMisses(fs.path, e, 110);
    absent, absentErr := fs.Get(disk, "my-key", 110);
  }

  /** Over a store holding only the log of `e`, a lookup of the same key at
      another timestamp misses the cache entry of `e` and scans to "". */
  lemma OtherTimestampMisses(root: string, e: Sequence, timestamp: Int64)
    requires Clean(e.key) && Clean(e.value) && timestamp != e.timestamp
    ensures MapKey(e.key, timestamp) !in map[MapKey(e.key, e.timestamp) := e]
    ensures Lookup(map[LogName(root, e.key) := LogOf(map[], LogName(root, e.key)) + EncodeLine(e) + "\n"], root, e.key, timestamp)
      == ("", None)
  {
    Csv.RecordsOfEmpty();
    AppendedRecordIsFound("", e, timestamp);
    assert "" + EncodeLine(e) + "\n" == EncodeLine(e) + "\n";
    if MapKey(e.key, timestamp) == MapKey(e.key, e.timestamp) {
      MapKeyInjective(e.key, timestamp, e.key, e.timestamp);
    }
  }

  /** Reading a key that was never written is an error with an empty value. */
  method GetUnknownKey(dir: string) returns (value: string, err: Option<Error>)
    ensures value == "" && err.Some?
  {
    var disk := new Os.FileSystem(map[]);
    var fs := new FileStorer(dir);
    value, err := fs.Get(disk, "non-existing-key", 1682201632);
  }
}
