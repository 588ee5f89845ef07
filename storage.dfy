/** The two stores the build scripts work against: the S3 bucket, reached through
    `get_object`/`download_file`, `put_object`/`upload_file` and `head_object`, and the
    local working directory. Both hold decoded objects (a table's rows, an index, a
    manifest) rather than bytes. Every bucket request is recorded in order, and a
    request the bucket refuses (`faults`) raises a `ClientError` in the scripts. */
module Storage {
  import opened Base
  import opened Text
  import opened ByteIndex

  /** The contents of an object or a local file: a `title,value` table, an index
      (`json.dump` of the title-to-span dict), or a manifest (a JSON object of strings). */
  datatype Object =
    | Table(rows: seq<Row>)
    | IndexDoc(index: map<string, Span>)
    | ManifestDoc(fields: map<string, string>)

  /** One request to the bucket. */
  datatype Call = Get(key: string) | Put(key: string) | Head(key: string)

  /** The answer to a read: the object, `NoSuchKey`, or another client error. */
  datatype Fetch = Found(obj: Object) | NoSuchKey | Failed

  /** The S3 bucket. */
  class Bucket {
    var objects: map<string, Object>
    var log: seq<Call>
    const faults: set<Call>

    constructor (objects0: map<string, Object>, faults0: set<Call>)
      ensures objects == objects0 && log == [] && faults == faults0
    {
      objects, log, faults := objects0, [], faults0;
    }

    /** A read leaves the bucket as it was. */
    method GetObject(key: string) returns (r: Fetch)
      modifies this
      ensures objects == old(objects) && log == old(log) + [Get(key)]
      ensures Get(key) in faults ==> r == Failed
      ensures Get(key) !in faults ==> r == if key in objects then Found(objects[key]) else NoSuchKey
    {
      log := log + [Get(key)];
      if Get(key) in faults {
        r := Failed;
      } else if key in objects {
        r := Found(objects[key]);
      } else {
        r := NoSuchKey;
      }
    }

    /** A write replaces the object under `key` when the bucket accepts it. */
    method PutObject(key: string, obj: Object) returns (ok: bool)
      modifies this
      ensures ok == (Put(key) !in faults) && log == old(log) + [Put(key)]
      ensures objects == if ok then old(objects)[key := obj] else old(objects)
    {
      log := log + [Put(key)];
      ok := Put(key) !in faults;
      if ok {
        objects := objects[key := obj];
      }
    }

    /** `head_object` succeeds when the key exists and the request is not refused. */
    method HeadObject(key: string) returns (ok: bool)
      modifies this
      ensures ok == (Head(key) !in faults && key in objects)
      ensures objects == old(objects) && log == old(log) + [Head(key)]
    {
      log := log + [Head(key)];
      ok := Head(key) !in faults && key in objects;
    }
  }

  /** The local file system, by path. */
  class Disk {
    var files: map<string, Object>

    constructor (files0: map<string, Object>)
      ensures files == files0
    {
      files := files0;
    }
  }

  /** The key of the manifest. */
  const ManifestKey: string := "manifest.json"

  /** The local directory every build works in. */
  const WorkDir: string := "data/dict/"

  /** A `%Y%m%d` date stamp. */
  predicate IsDateStamp(date: string)
  {
    |date| == 8 && forall i :: 0 <= i < |date| ==> '0' <= date[i] <= '9'
  }

  /** The key a build dated `date` publishes its table under. */
  function DataKey(date: string): string
  {
    "dict/" + date + "/data.csv"
  }

  /** The key a build dated `date` publishes its index under. */
  function IndexKey(date: string): string
  {
    "dict/" + date + "/index.json"
  }

  /** The local copy of a downloaded key: `"data/" + key`. */
  function LocalPath(key: string): string
  {
    "data/" + key
  }

  /** The index that goes with a table: `path.replace("data.csv", "index.json")`. */
  function IndexPathFor(path: string): string
  {
    Replace(path, "data.csv", "index.json")
  }

  /** The object under a key, if any. */
  function Lookup(m: map<string, Object>, key: string): Option<Object>
  {
    if key in m then Some(m[key]) else None
  }

  /** The rows of a table object; anything else cannot be read as a table. */
  function RowsOf(o: Option<Object>): Option<seq<Row>>
  {
    if o.Some? && o.value.Table? then Some(o.value.rows) else None
  }

  /** `m2` differs from `m1` at most under the keys in `ks`. */
  ghost predicate SameExcept(m1: map<string, Object>, m2: map<string, Object>, ks: set<string>)
  {
    forall k :: k !in ks ==> Lookup(m1, k) == Lookup(m2, k)
  }

  /** Two local downloads land at the same path only when they are the same key. */
  lemma LocalPathInjective(k1: string, k2: string)
    ensures LocalPath(k1) == LocalPath(k2) <==> k1 == k2
  {
    if LocalPath(k1) == LocalPath(k2) {
      assert k1 == LocalPath(k1)[5..] && k2 == LocalPath(k2)[5..];
    }
  }

  /** The local index of a downloaded table is the download of the table's index:
      the `"data/"` prefix holds no occurrence of "data.csv". */
  lemma LocalIndexPath(key: string)
    ensures IndexPathFor(LocalPath(key)) == LocalPath(IndexPathFor(key))
  {
    var a: string := "data/";
    forall i | 0 <= i < |a| ensures !MatchAt(a + key, "data.csv", i) {
      var s := a + key;
      if i + 8 <= |s| {
        assert s[i..i + 8][0] == s[i] && s[i..i + 8][4] == s[i + 4];
        assert s[i] != 'd' || s[i + 4] != '.';
      }
    }
    ReplaceSkip(a, key, "data.csv", "index.json");
  }

  /** The published index key is the published table key with "data.csv" replaced,
      which is how the scripts derive one from the other. */
  lemma IndexKeyOfDataKey(date: string)
    requires IsDateStamp(date)
    ensures IndexPathFor(DataKey(date)) == IndexKey(date)
  {
    var a := "dict/" + date + "/";
    var b: string := "data.csv";
    assert DataKey(date) == a + b;
    forall i | 0 <= i < |a| ensures !MatchAt(a + b, b, i) {
      var s := a + b;
      assert s[i..i + 8][0] == s[i] && s[i..i + 8][1] == s[i + 1];
      assert s[i] != 'd' || s[i + 1] != 'a';
    }
    ReplaceSkip(a, b, b, "index.json");
    ReplaceWhole(b, "index.json");
    assert a + "index.json" == IndexKey(date);
  }

  /** The published table and index of one date are different objects, and neither
      is the manifest. */
  lemma PublishedKeysDiffer(date: string)
    ensures DataKey(date) != IndexKey(date)
    ensures DataKey(date) != ManifestKey && IndexKey(date) != ManifestKey
  {
    var d, x := DataKey(date), IndexKey(date);
    assert d[|d| - 1] == 'v' && x[|x| - 1] == 'n';
    assert d[0] == 'd' && x[0] == 'd' && ManifestKey[0] == 'm';
  }

  /** `cleanup_local_files`: walks the working directory and removes every file in it;
      files outside it are kept as they are. */
  method CleanupLocalFiles(disk: Disk)
    modifies disk
    ensures forall p :: p in disk.files <==> p in old(disk.files) && !StartsWith(p, WorkDir)
    ensures forall p :: p in disk.files ==> disk.files[p] == old(disk.files)[p]
  {
    var pending := disk.files.Keys;
    while pending != {}
      invariant forall p :: p in disk.files <==>
        p in old(disk.files) && (p in pending || !StartsWith(p, WorkDir))
      invariant forall p :: p in disk.files ==> disk.files[p] == old(disk.files)[p]
      decreases |pending|
    {
      var p :| p in pending;
      if StartsWith(p, WorkDir) {
        disk.files := disk.files - {p};
      }
      pending := pending - {p};
    }
  }
}
