/** The file-backed, time-versioned key-value engine.

    Every key has an append-only log `<root>/<key>.csv` holding one line
    `key,timestamp,value` per saved version. A FileStorer keeps an in-memory
    cache from `MapKey(key, timestamp)` to the record last seen for that pair:
    Save appends to the log and then caches the record; Get answers from the
    cache when it can and otherwise scans the log front to back, caching what
    it finds on the way.

    The pure part of this module describes what a scan of the log answers
    (Scan, Lookup) and the invariant that ties the cache to the logs
    (CoherentState). The class FileStorer is the engine itself; its methods are
    proved against those definitions. */
module Files {
  import opened Wrappers
  import opened Builtins
  import opened Entities
  import opened Text
  import Strconv
  import Csv
  import Os

  const Ext := ".csv"

  // ---------------------------------------------------------------------
  // Paths
  // ---------------------------------------------------------------------

  /** The root as New stores it: always ending in '/', and naming the same
      directory as the path the caller gave (only a missing final slash is
      added). */
  function Normalize(path: string): (root: string)
    ensures HasSuffix(root, "/")
    ensures TrimSuffix(root, "/") == TrimSuffix(path, "/")
  {
    if HasSuffix(path, "/") then path else path + "/"
  }

  /** The log file of `key` under `root`, as both Save and Get build it. */
  function LogName(root: string, key: string): string
  {
    TrimSuffix(root, "/") + "/" + key + Ext
  }

  /** Save and Get find the log of a key at `<path>/<key>.csv` whether or not
      the path given to New ended in a slash. */
  lemma LogNameOfNormalized(path: string, key: string)
    ensures LogName(Normalize(path), key) == TrimSuffix(path, "/") + "/" + key + Ext
    ensures !HasSuffix(path, "/") ==> Normalize(path + "/") == Normalize(path)
    ensures !HasSuffix(path, "/") ==> LogName(Normalize(path), key) == path + "/" + key + Ext
  {
    if !HasSuffix(path, "/") {
      assert (path + "/")[|path + "/"| - 1..] == "/";
    }
  }

  /** Distinct keys have distinct logs. */
  lemma LogNameInjective(root: string, k1: string, k2: string)
    requires LogName(root, k1) == LogName(root, k2)
    ensures k1 == k2
  {
    var prefix := TrimSuffix(root, "/") + "/";
    var s := LogName(root, k1);
    assert s == prefix + k1 + Ext == prefix + k2 + Ext;
    assert k1 == s[|prefix|..|prefix| + |k1|];
    assert k2 == s[|prefix|..|prefix| + |k2|];
  }

  // ---------------------------------------------------------------------
  // Cache keys
  // ---------------------------------------------------------------------

  /** mapKey: the key, an underscore, and the decimal timestamp. */
  function MapKey(key: string, timestamp: Int64): string
  {
    key + "_" + Strconv.Decimal(timestamp)
  }

  /** Distinct (key, timestamp) pairs have distinct cache keys, even for keys
      that contain underscores: the decimal part never does, so the last
      underscore separates the two. */
  lemma MapKeyInjective(k1: string, t1: Int64, k2: string, t2: Int64)
    requires MapKey(k1, t1) == MapKey(k2, t2)
    ensures k1 == k2 && t1 == t2
  {
    var d1, d2 := Strconv.Decimal(t1), Strconv.Decimal(t2);
    assert '_' !in d1 && '_' !in d2;
    LastSeparatorSplitsUniquely(k1, d1, k2, d2, '_');
    Strconv.DecimalInjective(t1, t2);
  }

  // ---------------------------------------------------------------------
  // Log lines
  // ---------------------------------------------------------------------

  /** The line Save writes for a record, without its terminating newline. */
  function EncodeLine(e: Sequence): string
  {
    e.key + "," + Strconv.Decimal(e.timestamp) + "," + e.value
  }

  /** A key or value the log format carries unchanged: no field separator, no
      quote and no line break. */
  predicate Clean(s: string)
  {
    forall c :: c in s ==> c != ',' && c != '"' && c != '\n' && c != '\r'
  }

  /** How Get treats one record of the log. */
  datatype RecordKind =
    | Short                                     // fewer than 3 fields: skipped
    | BadTimestamp(err: Error)                  // second field not a number: fatal
    | Entry(timestamp: Int64, value: string)    // a version of the key

  function Classify(rec: seq<string>): (k: RecordKind)
    ensures k.Short? <==> |rec| < 3
    ensures k.Entry? ==> Strconv.Atoi(rec[1]) == Success(k.timestamp) && k.value == rec[2]
    ensures k.BadTimestamp? ==> Strconv.Atoi(rec[1]) == Failure(k.err)
  {
    if |rec| < 3 then Short
    else match Strconv.Atoi(rec[1])
      case Failure(err) => BadTimestamp(err)
      case Success(ts) => Entry(ts, rec[2])
  }

  /** The line of a record with clean key and value stays one line, splits
      into exactly its three fields, and is read back as that record's
      timestamp and value. */
  lemma LineRoundTrip(e: Sequence)
    requires Clean(e.key) && Clean(e.value)
    ensures '\n' !in EncodeLine(e)
    ensures Csv.Fields(EncodeLine(e)) == [e.key, Strconv.Decimal(e.timestamp), e.value]
    ensures Classify(Csv.Fields(EncodeLine(e))) == Entry(e.timestamp, e.value)
  {
    var d := Strconv.Decimal(e.timestamp);
    var tail := d + [','] + e.value;
    assert ',' !in d && '\n' !in d;
    assert EncodeLine(e) == e.key + [','] + tail;
    SplitAround(e.key, tail, ',');
    SplitAround(d, e.value, ',');
    SplitWithoutSeparator(e.key, ',');
    SplitWithoutSeparator(d, ',');
    SplitWithoutSeparator(e.value, ',');
    assert Csv.Fields(EncodeLine(e)) == [e.key] + ([d] + [e.value]);
    Strconv.AtoiDecimal(e.timestamp);
  }

  // ---------------------------------------------------------------------
  // The scan of a log
  // ---------------------------------------------------------------------

  /** The state of Get's loop: the value found so far, whether any record
      matched, and, once the scan has aborted, the error. */
  datatype ScanState =
    | Running(result: string, matched: bool)
    | Stopped(result: string, matched: bool, err: Error)

  /** One iteration of Get's loop. */
  function Step(st: ScanState, rec: seq<string>, timestamp: Int64): ScanState
  {
    if st.Stopped? then st
    else match Classify(rec)
      case Short => st
      case BadTimestamp(err) => Stopped(st.result, st.matched, err)
      case Entry(ts, value) => if ts == timestamp then Running(value, true) else st
  }

  /** The state after the loop has read all of `recs`, front to back. */
  function Scan(recs: seq<seq<string>>, timestamp: Int64): ScanState
  {
    if recs == [] then Running("", false)
    else Step(Scan(recs[..|recs| - 1], timestamp), recs[|recs| - 1], timestamp)
  }

  lemma ScanAppend(recs: seq<seq<string>>, rec: seq<string>, timestamp: Int64)
    ensures Scan(recs + [rec], timestamp) == Step(Scan(recs, timestamp), rec, timestamp)
  {
    assert (recs + [rec])[..|recs|] == recs;
  }

  /** A record that is a version of the key at exactly this timestamp. */
  predicate Matches(rec: seq<string>, timestamp: Int64)
  {
    Classify(rec).Entry? && Classify(rec).timestamp == timestamp
  }

  /** No record long enough to be read has an unparsable timestamp. */
  predicate Parsable(recs: seq<seq<string>>)
  {
    forall i :: 0 <= i < |recs| ==> !Classify(recs[i]).BadTimestamp?
  }

  /** Without unparsable timestamps the scan runs to the end and answers the
      value of the LAST matching record, or "" with no match at all. */
  lemma {:induction false} ScanFindsLastMatch(recs: seq<seq<string>>, timestamp: Int64)
    requires Parsable(recs)
    ensures Scan(recs, timestamp).Running?
    ensures Scan(recs, timestamp).matched <==> exists i :: 0 <= i < |recs| && Matches(recs[i], timestamp)
    ensures !Scan(recs, timestamp).matched ==> Scan(recs, timestamp).result == ""
    ensures Scan(recs, timestamp).matched ==>
      exists i :: 0 <= i < |recs| && Matches(recs[i], timestamp)
        && Scan(recs, timestamp).result == Classify(recs[i]).value
        && forall j :: i < j < |recs| ==> !Matches(recs[j], timestamp)
  {
    if recs != [] {
      var n := |recs| - 1;
      var front, last := recs[..n], recs[n];
      assert recs == front + [last];
      assert Parsable(front) by {
        forall i | 0 <= i < |front| ensures !Classify(front[i]).BadTimestamp? {
          assert front[i] == recs[i];
        }
      }
      ScanFindsLastMatch(front, timestamp);
      var st := Scan(front, timestamp);
      assert !Classify(recs[n]).BadTimestamp?;
      if Matches(last, timestamp) {
        assert Scan(recs, timestamp) == Running(Classify(last).value, true);
      } else {
        assert Scan(recs, timestamp) == st;
        if st.matched {
          var i :| 0 <= i < |front| && Matches(front[i], timestamp)
            && st.result == Classify(front[i]).value
            && forall j :: i < j < |front| ==> !Matches(front[j], timestamp);
          assert recs[i] == front[i];
          assert forall j :: i < j < |recs| ==> !Matches(recs[j], timestamp) by {
            forall j | i < j < |recs| ensures !Matches(recs[j], timestamp) {
              if j < n { assert recs[j] == front[j]; }
            }
          }
        } else {
          forall i | 0 <= i < |recs| ensures !Matches(recs[i], timestamp) {
            if i < n { assert recs[i] == front[i]; }
          }
        }
      }
    }
  }

  /** Once the scan has aborted, reading further records changes nothing. */
  lemma {:induction false} ScanStaysStopped(recs: seq<seq<string>>, timestamp: Int64, j: nat)
    requires j <= |recs|
    requires Scan(recs[..j], timestamp).Stopped?
    ensures Scan(recs, timestamp) == Scan(recs[..j], timestamp)
  {
    if j < |recs| {
      var n := |recs| - 1;
      assert recs[..n][..j] == recs[..j];
      ScanStaysStopped(recs[..n], timestamp, j);
    } else {
      assert recs[..j] == recs;
    }
  }

  /** The first record whose timestamp does not parse aborts the scan with its
      error, and the scan answers whatever it had found before that record. */
  lemma ScanStopsAtFirstBadTimestamp(recs: seq<seq<string>>, timestamp: Int64, j: nat)
    requires j < |recs|
    requires Classify(recs[j]).BadTimestamp?
    requires Parsable(recs[..j])
    ensures Scan(recs, timestamp)
      == Stopped(Scan(recs[..j], timestamp).result, Scan(recs[..j], timestamp).matched, Classify(recs[j]).err)
  {
    ScanFindsLastMatch(recs[..j], timestamp);
    assert recs[..j + 1] == recs[..j] + [recs[j]];
    ScanAppend(recs[..j], recs[j], timestamp);
    ScanStaysStopped(recs, timestamp, j + 1);
  }

  // ---------------------------------------------------------------------
  // What the logs answer, and the cache invariant
  // ---------------------------------------------------------------------

  /** The content of a log, or "" for a log that does not exist yet. */
  function LogOf(files: map<string, string>, name: string): string
  {
    if name in files then files[name] else ""
  }

  /** What Get answers when it does not use the cache, which is also what a
      fresh engine over the same files answers: the error of a missing log,
      or the outcome of scanning the log. */
  function Lookup(files: map<string, string>, root: string, key: string, timestamp: Int64): (string, Option<Error>)
  {
    var name := LogName(root, key);
    if name !in files then ("", Some(NotExist(name)))
    else
      var st := Scan(Csv.Records(files[name]), timestamp);
      (st.result, if st.Stopped? then Some(st.err) else None)
  }

  /** The cache after a scan for (key, timestamp): the value found is cached
      under that pair if some record matched; otherwise nothing is added. */
  function Learn(cache: map<string, Sequence>, files: map<string, string>, root: string, key: string, timestamp: Int64): map<string, Sequence>
  {
    var name := LogName(root, key);
    if name !in files then cache
    else
      var st := Scan(Csv.Records(files[name]), timestamp);
      if st.matched then cache[MapKey(key, timestamp) := Sequence(key, st.result, timestamp)] else cache
  }

  /** Every entry sits under the cache key of its own key and timestamp. */
  ghost predicate KeysMatch(cache: map<string, Sequence>)
  {
    forall mk :: mk in cache ==> mk == MapKey(cache[mk].key, cache[mk].timestamp)
  }

  /** A log as Save leaves it: complete lines, every timestamp readable. */
  predicate WellFormedLog(content: string)
  {
    Csv.Terminated(content) && Parsable(Csv.Records(content))
  }

  /** Scanning the log of `e.key` for `e.timestamp` matches and answers `e.value`. */
  predicate Resolves(files: map<string, string>, root: string, e: Sequence)
  {
    LogName(root, e.key) in files
    && Scan(Csv.Records(files[LogName(root, e.key)]), e.timestamp) == Running(e.value, true)
  }

  /** The cache never disagrees with the logs: the logs are well formed and
      each cached record is exactly what a scan of its key's log for its
      timestamp returns. */
  ghost predicate CoherentState(root: string, cache: map<string, Sequence>, files: map<string, string>)
  {
    && KeysMatch(cache)
    && (forall name :: name in files ==> WellFormedLog(files[name]))
    && (forall mk :: mk in cache ==> Resolves(files, root, cache[mk]))
  }

  /** Under the invariant a cache hit answers what the log answers. */
  lemma CacheHitIsFresh(root: string, cache: map<string, Sequence>, files: map<string, string>, key: string, timestamp: Int64)
    requires CoherentState(root, cache, files)
    requires MapKey(key, timestamp) in cache
    ensures Lookup(files, root, key, timestamp) == (cache[MapKey(key, timestamp)].value, None)
  {
    var e := cache[MapKey(key, timestamp)];
    MapKeyInjective(key, timestamp, e.key, e.timestamp);
  }

  /** A new engine starts coherent: an empty cache agrees with any storage
      whose logs are well formed, including a directory that already holds
      logs written by an earlier engine. */
  lemma EmptyCacheIsCoherent(root: string, files: map<string, string>)
    requires forall name :: name in files ==> WellFormedLog(files[name])
    ensures CoherentState(root, map[], files)
  {
  }

  /** Appending the line of a record with clean key and value to a
      well-formed log keeps it well formed, and a scan of the new log for the
      record's timestamp then answers the record's value; scans for other
      timestamps answer as before. */
  lemma AppendedRecordIsFound(log: string, e: Sequence, timestamp: Int64)
    requires WellFormedLog(log)
    requires Clean(e.key) && Clean(e.value)
    ensures WellFormedLog(log + EncodeLine(e) + "\n")
    ensures timestamp == e.timestamp ==>
      Scan(Csv.Records(log + EncodeLine(e) + "\n"), timestamp) == Running(e.value, true)
    ensures timestamp != e.timestamp ==>
      Scan(Csv.Records(log + EncodeLine(e) + "\n"), timestamp) == Scan(Csv.Records(log), timestamp)
  {
    var recs := Csv.Records(log);
    var rec := Csv.Fields(EncodeLine(e));
    LineRoundTrip(e);
    Csv.RecordsAppend(log, EncodeLine(e));
    assert Parsable(recs + [rec]) by {
      forall i | 0 <= i < |recs + [rec]| ensures !Classify((recs + [rec])[i]).BadTimestamp? {
        if i < |recs| { assert (recs + [rec])[i] == recs[i]; }
      }
    }
    ScanFindsLastMatch(recs, timestamp);
    ScanAppend(recs, rec, timestamp);
  }

  /** Durability: after a successful Save, an engine started afresh over the
      same files (empty cache) reads the saved value back. */
  lemma SavedValueSurvivesRestart(files: map<string, string>, root: string, e: Sequence)
    requires WellFormedLog(LogOf(files, LogName(root, e.key)))
    requires Clean(e.key) && Clean(e.value)
    ensures var name := LogName(root, e.key);
      Lookup(files[name := LogOf(files, name) + EncodeLine(e) + "\n"], root, e.key, e.timestamp) == (e.value, None)
  {
    AppendedRecordIsFound(LogOf(files, LogName(root, e.key)), e, e.timestamp);
  }

  /** Last write wins: of two records saved with the same key and timestamp,
      a scan answers the second one's value. */
  lemma LaterSaveWins(log: string, first: Sequence, second: Sequence)
    requires WellFormedLog(log)
    requires first.key == second.key && first.timestamp == second.timestamp
    requires Clean(first.key) && Clean(first.value) && Clean(second.value)
    ensures Scan(Csv.Records(log + EncodeLine(first) + "\n" + EncodeLine(second) + "\n"), first.timestamp)
      == Running(second.value, true)
  {
    AppendedRecordIsFound(log, first, first.timestamp);
    AppendedRecordIsFound(log + EncodeLine(first) + "\n", second, first.timestamp);
  }

  /** Opening a log for appending (which creates it empty when missing) keeps
      the invariant: no cache entry refers to a log that did not exist. */
  lemma CreateKeepsCoherent(root: string, cache: map<string, Sequence>, files: map<string, string>, name: string)
    requires CoherentState(root, cache, files)
    ensures CoherentState(root, cache, files[name := LogOf(files, name)])
  {
    Csv.RecordsOfEmpty();
    var files' := files[name := LogOf(files, name)];
    forall mk | mk in cache ensures Resolves(files', root, cache[mk]) {
      assert LogName(root, cache[mk].key) in files;
    }
  }

  /** A successful Save of a record with clean key and value keeps the
      invariant. The key must also be free of '/': only then is its log a
      file directly under the root that no other key's log name aliases. */
  lemma SaveKeepsCoherent(root: string, cache: map<string, Sequence>, files: map<string, string>, e: Sequence)
    requires CoherentState(root, cache, files)
    requires Clean(e.key) && Clean(e.value) && '/' !in e.key
    ensures var name := LogName(root, e.key);
      CoherentState(root, cache[MapKey(e.key, e.timestamp) := e],
                    files[name := LogOf(files, name) + EncodeLine(e) + "\n"])
  {
    var name := LogName(root, e.key);
    var log := LogOf(files, name);
    Csv.RecordsOfEmpty();
    assert WellFormedLog(log);
    var files' := files[name := log + EncodeLine(e) + "\n"];
    var cache' := cache[MapKey(e.key, e.timestamp) := e];
    AppendedRecordIsFound(log, e, e.timestamp);
    forall mk | mk in cache' ensures Resolves(files', root, cache'[mk]) {
      if mk != MapKey(e.key, e.timestamp) {
        var other := cache[mk];
        if other.key == e.key {
          assert other.timestamp != e.timestamp;
          AppendedRecordIsFound(log, e, other.timestamp);
        } else {
          if LogName(root, other.key) == name {
            LogNameInjective(root, other.key, e.key);
          }
        }
      }
    }
  }

  /** A scan that misses the cache keeps the invariant when it caches what it
      found. */
  lemma ScanKeepsCoherent(root: string, cache: map<string, Sequence>, files: map<string, string>, key: string, timestamp: Int64)
    requires CoherentState(root, cache, files)
    ensures CoherentState(root, Learn(cache, files, root, key, timestamp), files)
  {
    var name := LogName(root, key);
    if name in files {
      ScanFindsLastMatch(Csv.Records(files[name]), timestamp);
    }
  }

  // ---------------------------------------------------------------------
  // The engine
  // ---------------------------------------------------------------------

  class FileStorer {
    const path: string
    var cache: map<string, Sequence>

    /** The cache agrees with the logs of `disk`. */
    ghost predicate Coherent(disk: Os.FileSystem)
      reads this, disk
    {
      CoherentState(path, cache, disk.files)
    }

    /** The storer New returns: the normalised root and an empty cache. */
    constructor (path: string)
      ensures this.path == Normalize(path) && cache == map[]
    {
      this.path := Normalize(path);
      cache := map[];
    }

    /** fromCache: the cached record for (key, timestamp), or the zero record
        and false. A cached record always carries the key and timestamp it was
        looked up by. */
    method FromCache(key: string, timestamp: Int64) returns (v: Sequence, ok: bool)
      ensures ok <==> MapKey(key, timestamp) in cache
      ensures ok ==> v == cache[MapKey(key, timestamp)]
      ensures !ok ==> v == ZeroSequence
      ensures ok && KeysMatch(cache) ==> v.key == key && v.timestamp == timestamp
    {
      var mk := MapKey(key, timestamp);
      if mk in cache {
        v, ok := cache[mk], true;
        if KeysMatch(cache) {
          MapKeyInjective(key, timestamp, v.key, v.timestamp);
        }
      } else {
        v, ok := ZeroSequence, false;
      }
    }

    /** saveToCache: records `e` under its own cache key, replacing any
        earlier record for the same key and timestamp. */
    method SaveToCache(e: Sequence)
      modifies this
      ensures cache == old(cache)[MapKey(e.key, e.timestamp) := e]
    {
      cache := cache[MapKey(e.key, e.timestamp) := e];
    }

    /** Save: appends the record's line to its key's log, then caches the
        record. A failed open or write is returned and leaves the cache as it
        was; a failed write leaves behind the (possibly new, empty) log. A
        failure keeps the invariant for every record, a success for a record
        with clean key and value whose key holds no '/'. */
    method Save(disk: Os.FileSystem, e: Sequence, openOk: bool, writeOk: bool) returns (err: Option<Error>)
      modifies this, disk
      ensures err == None <==> openOk && writeOk
      ensures !openOk ==> err == Some(OpenFailed(LogName(path, e.key))) && disk.files == old(disk.files)
      ensures openOk && !writeOk ==> err == Some(WriteFailed(LogName(path, e.key)))
      ensures openOk && !writeOk ==>
        disk.files == old(disk.files)[LogName(path, e.key) := LogOf(old(disk.files), LogName(path, e.key))]
      ensures err == None ==>
        disk.files == old(disk.files)[LogName(path, e.key) := LogOf(old(disk.files), LogName(path, e.key)) + EncodeLine(e) + "\n"]
      ensures err == None ==> cache == old(cache)[MapKey(e.key, e.timestamp) := e]
      ensures err != None ==> cache == old(cache)
      ensures err != None && old(Coherent(disk)) ==> Coherent(disk)
      ensures old(Coherent(disk)) && Clean(e.key) && Clean(e.value) && '/' !in e.key ==> Coherent(disk)
    {
      ghost var coherent := Coherent(disk);
      ghost var files0, cache0 := disk.files, cache;
      var name := LogName(path, e.key);
      err := disk.OpenAppend(name, openOk);
      if err != None {
        return;
      }
      assert disk.files == files0[name := LogOf(files0, name)];
      if coherent {
        CreateKeepsCoherent(path, cache0, files0, name);
      }
      err := disk.WriteString(name, EncodeLine(e) + "\n", writeOk);
      if err != None {
        return;
      }
      ghost var line := EncodeLine(e) + "\n";
      assert LogOf(files0, name) + line == LogOf(files0, name) + EncodeLine(e) + "\n";
      assert disk.files == files0[name := LogOf(files0, name) + line];
      SaveToCache(e);
      if coherent && Clean(e.key) && Clean(e.value) && '/' !in e.key {
        SaveKeepsCoherent(path, cache0, files0, e);
      }
    }

    /** Get: a cached record answers at once; otherwise the key's log is
        opened (a missing log is an error) and scanned by ScanLog. Under the
        invariant the answer is always what a fresh scan gives, and the
        invariant survives. */
    method Get(disk: Os.FileSystem, key: string, timestamp: Int64) returns (value: string, err: Option<Error>)
      modifies this
      ensures MapKey(key, timestamp) in old(cache) ==>
        value == old(cache)[MapKey(key, timestamp)].value && err == None && cache == old(cache)
      ensures MapKey(key, timestamp) !in old(cache) ==>
        (value, err) == Lookup(disk.files, path, key, timestamp)
        && cache == Learn(old(cache), disk.files, path, key, timestamp)
      ensures old(Coherent(disk)) ==> Coherent(disk) && (value, err) == Lookup(disk.files, path, key, timestamp)
    {
      ghost var coherent := Coherent(disk);
      var hit, ok := FromCache(key, timestamp);
      if ok {
        if coherent {
          CacheHitIsFresh(path, cache, disk.files, key, timestamp);
        }
        return hit.value, None;
      }
      if coherent {
        ScanKeepsCoherent(path, cache, disk.files, key, timestamp);
      }
      var name := LogName(path, key);
      var content, openErr := disk.Open(name);
      if openErr != None {
        return "", openErr;
      }
      value, err := ScanLog(key, timestamp, Csv.Records(content));
    }

    /** The loop of Get over the records of a log, front to back: short
        records are skipped, an unparsable timestamp aborts with what was
        found so far, and every match is cached and replaces the answer, so
        the last match wins; no match answers "" with no error. */
    method ScanLog(key: string, timestamp: Int64, recs: seq<seq<string>>) returns (value: string, err: Option<Error>)
      modifies this
      ensures value == Scan(recs, timestamp).result
      ensures err == if Scan(recs, timestamp).Stopped? then Some(Scan(recs, timestamp).err) else None
      ensures cache == if Scan(recs, timestamp).matched
        then old(cache)[MapKey(key, timestamp) := Sequence(key, value, timestamp)]
        else old(cache)
    {
      value, err := "", None;
      ghost var matched := false;
      var i := 0;
      while i < |recs|
        invariant 0 <= i <= |recs|
        invariant Scan(recs[..i], timestamp) == Running(value, matched)
        invariant cache == if matched then old(cache)[MapKey(key, timestamp) := Sequence(key, value, timestamp)] else old(cache)
      {
        var rec := recs[i];
        assert recs[..i + 1] == recs[..i] + [rec];
        ScanAppend(recs[..i], rec, timestamp);
        i := i + 1;
        if |rec| < 3 {
          continue;
        }
        var ts := Strconv.Atoi(rec[1]);
        if ts.Failure? {
          ScanStaysStopped(recs, timestamp, i);
          return value, Some(ts.error);
        }
        if timestamp == ts.value {
          SaveToCache(Sequence(key, rec[2], ts.value));
          value := rec[2];
          matched := true;
        }
      }
      assert recs[..i] == recs;
    }
  }

  /** New: a storer over the normalised root with an empty cache, or the
      error of a root directory that neither exists nor can be created. */
  method New(path: string, dirReady: bool) returns (fs: FileStorer?, err: Option<Error>)
    ensures dirReady ==> err == None && fs != null && fresh(fs)
    ensures dirReady ==> fs.path == Normalize(path) && fs.cache == map[]
    ensures !dirReady ==> err == Some(StatFailed(Normalize(path))) && fs == null
  {
    if !dirReady {
      return null, Some(StatFailed(Normalize(path)));
    }
    fs := new FileStorer(path);
    err := None;
  }
}
