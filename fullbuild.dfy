/** The full build of build_wikidict_full.py: generate a dataset of fake rows, sort it
    externally, index it, upload the table and the index under the date's keys, check
    them, and write a fresh manifest pointing at them. The local working directory is
    cleared at the end whatever the outcome. */
module FullBuild {
  import opened Base
  import opened Text
  import opened ByteIndex
  import RowCodec
  import opened ChunkSort
  import opened MergeChunks
  import opened Storage
  import opened Publish
  import opened Dataset

  /** The `chunk_size` `main` passes to the external sort. */
  const SortChunkSize: int := 100000

  /** The local files of a full build dated `date`. */
  function UnsortedPath(date: string): string
  {
    "data/dict/" + date + "/data_unsorted.csv"
  }

  function SortedPath(date: string): string
  {
    "data/dict/" + date + "/data.csv"
  }

  function IndexFilePath(date: string): string
  {
    "data/dict/" + date + "/index.json"
  }

  /** The three local files are distinct, all lie in the working directory the cleanup
      clears, and the sorted table and its index are the local copies of the keys they
      are published under. */
  lemma LocalFiles(date: string)
    ensures UnsortedPath(date) != SortedPath(date) && UnsortedPath(date) != IndexFilePath(date)
    ensures SortedPath(date) != IndexFilePath(date)
    ensures StartsWith(UnsortedPath(date), WorkDir) && StartsWith(SortedPath(date), WorkDir)
    ensures StartsWith(IndexFilePath(date), WorkDir)
    ensures SortedPath(date) == LocalPath(DataKey(date)) && IndexFilePath(date) == LocalPath(IndexKey(date))
  {
    var u, d, i := UnsortedPath(date), SortedPath(date), IndexFilePath(date);
    assert |u| != |d| && |u| != |i|;
    assert d[|d| - 1] == 'v' && i[|i| - 1] == 'n';
    assert u[..|WorkDir|] == WorkDir && d[..|WorkDir|] == WorkDir && i[..|WorkDir|] == WorkDir;
  }

  /** The manifest `create_and_upload_manifest` writes: the service description, the
      uploaded keys, an empty changelog path, the time of the run and its date. */
  function FreshManifest(dataKey: string, indexKey: string, date: string, now: string): (m: map<string, string>)
    ensures m.Keys == {"service_name", "service_description", "service_author", "file_path",
                       "index_file_path", "changelog_file_path", "last_updated_at", "version"}
    ensures m["file_path"] == dataKey && m["index_file_path"] == indexKey
    ensures m["changelog_file_path"] == [] && m["last_updated_at"] == now && m["version"] == date
    ensures m["service_name"] == "sm-wikidict"
  {
    map["service_name" := "sm-wikidict",
        "service_description" := "A dictionary service powered by Wiktionary.",
        "service_author" := "Saurabh Maurya",
        "file_path" := dataKey,
        "index_file_path" := indexKey,
        "changelog_file_path" := "",
        "last_updated_at" := now,
        "version" := date]
  }

  /** A fresh manifest sends the next run of build_wikidict.py down the incremental path,
      which then stops with `ValueError` on the empty `changelog_file_path` until a
      changelog key is filled in. Its index path is the one the incremental build
      derives from its table path. */
  lemma FreshManifestNextRun(date: string, now: string)
    requires IsDateStamp(date)
    ensures var m := FreshManifest(DataKey(date), IndexKey(date), date, now);
      HasValidFilePath(m) && MissingField(m) == Some("changelog_file_path") &&
      m["index_file_path"] == IndexPathFor(m["file_path"])
  {
    var m := FreshManifest(DataKey(date), IndexKey(date), date, now);
    assert !IsSpace(m["file_path"][0]);
    IndexKeyOfDataKey(date);
  }

  /** The requests of a full build that gets to the end: the two uploads and their checks,
      then the manifest write and its check. */
  function FullCalls(date: string): seq<Call>
  {
    UploadCalls(date) + [Put(ManifestKey), Head(ManifestKey)]
  }

  /** Steps 1 to 3 of `main`: generate the unsorted dataset, sort it into `data.csv`,
      remove the unsorted file, and index the sorted file into `index.json`. */
  method BuildLocalFiles(disk: Disk, numRows: nat, title: nat -> string, size: nat -> nat,
                         text: nat -> nat -> string, date: string)
    returns (sorted: seq<Row>)
    requires forall k :: Productive(text(k))
    modifies disk
    ensures sorted == SortByKey(Generated(numRows, title, size, text))
    ensures disk.files == (old(disk.files) - {UnsortedPath(date)})[SortedPath(date) := Table(sorted)]
                            [IndexFilePath(date) := IndexDoc(Assign(RowEntries(sorted)))]
  {
    var unsortedFile, sortedFile, indexFile := UnsortedPath(date), SortedPath(date), IndexFilePath(date);
    LocalFiles(date);
    ghost var files0 := disk.files;
    var rows, _ := GenerateUnsortedDataset(numRows, title, size, text);
    disk.files := disk.files[unsortedFile := Table(rows)];
    sorted := SortCsvExternal(disk.files[unsortedFile].rows, SortChunkSize);
    disk.files := disk.files[sortedFile := Table(sorted)];
    disk.files := disk.files - {unsortedFile};
    var index, _ := CreateIndex(RowCodec.Table(sorted));
    CreateIndexOfTable(sorted);
    assert index == Assign(RowEntries(sorted));
    disk.files := disk.files[indexFile := IndexDoc(index)];
    RemoveScratch(files0, unsortedFile, sortedFile, indexFile, Table(rows), Table(sorted), IndexDoc(index));
  }

  /** Writing a scratch file, then the result, then removing the scratch file, leaves
      what writing the result alone leaves, minus any earlier file at the scratch path. */
  lemma RemoveScratch(m: map<string, Object>, u: string, d: string, i: string, a: Object, b: Object, c: Object)
    requires u != d && u != i
    ensures (m[u := a][d := b] - {u})[i := c] == (m - {u})[d := b][i := c]
  {
  }

  /** `upload_to_s3`: uploads the local table, then the local index, under the date's
      keys (each upload raises when its local file is missing), checks both with
      `head_object`, and returns the two keys. */
  method UploadToS3(bucket: Bucket, disk: Disk, dataFilePath: string, indexFilePath: string, date: string)
    returns (r: Outcome<(string, string)>)
    modifies bucket
    ensures SameExcept(old(bucket.objects), bucket.objects, {DataKey(date), IndexKey(date)})
    ensures var made := |bucket.log| - |old(bucket.log)|;
      0 <= made <= 4 && bucket.log == old(bucket.log) + UploadCalls(date)[..made]
    ensures r.Ok? <==>
      dataFilePath in disk.files && indexFilePath in disk.files &&
      forall c :: c in UploadCalls(date) ==> c !in bucket.faults
    ensures r.Err? && r.error.FileNotFound? ==>
      r.error.path == dataFilePath || r.error.path == indexFilePath
    ensures r.Err? && !r.error.FileNotFound? ==>
      |bucket.log| > |old(bucket.log)| && r.error == ClientError(bucket.log[|bucket.log| - 1])
    ensures r.Ok? ==>
      r.value == (DataKey(date), IndexKey(date)) && bucket.log == old(bucket.log) + UploadCalls(date) &&
      bucket.objects == old(bucket.objects)[DataKey(date) := disk.files[dataFilePath]]
                                          [IndexKey(date) := disk.files[indexFilePath]]
  {
    var s3DataPath, s3IndexPath := DataKey(date), IndexKey(date);
    var calls := UploadCalls(date);
    assert calls[..0] == [] && calls[..4] == calls;
    if dataFilePath !in disk.files {
      return Err(FileNotFound(dataFilePath));
    }
    var ok := bucket.PutObject(s3DataPath, disk.files[dataFilePath]);
    if !ok {
      return Err(ClientError(Put(s3DataPath)));
    }
    if indexFilePath !in disk.files {
      return Err(FileNotFound(indexFilePath));
    }
    ok := bucket.PutObject(s3IndexPath, disk.files[indexFilePath]);
    if !ok {
      return Err(ClientError(Put(s3IndexPath)));
    }
    ok := bucket.HeadObject(s3DataPath);
    if !ok {
      return Err(ClientError(Head(s3DataPath)));
    }
    ok := bucket.HeadObject(s3IndexPath);
    if !ok {
      return Err(ClientError(Head(s3IndexPath)));
    }
    r := Ok((s3DataPath, s3IndexPath));
  }

  /** `create_and_upload_manifest`: writes the fresh manifest and then checks it with
      `head_object`; a failed check raises although the manifest is already written. */
  method CreateAndUploadManifest(bucket: Bucket, dataKey: string, indexKey: string, date: string, now: string)
    returns (s: Status)
    modifies bucket
    ensures var written := Put(ManifestKey) !in bucket.faults;
      bucket.log == old(bucket.log) + (if written then [Put(ManifestKey), Head(ManifestKey)] else [Put(ManifestKey)]) &&
      bucket.objects == (if written then old(bucket.objects)[ManifestKey := ManifestDoc(FreshManifest(dataKey, indexKey, date, now))]
                         else old(bucket.objects))
    ensures s.Success? <==> Put(ManifestKey) !in bucket.faults && Head(ManifestKey) !in bucket.faults
    ensures s.Failure? ==> s.error == ClientError(bucket.log[|bucket.log| - 1])
  {
    var manifest := FreshManifest(dataKey, indexKey, date, now);
    var ok := bucket.PutObject(ManifestKey, ManifestDoc(manifest));
    if !ok {
      return Failure(ClientError(Put(ManifestKey)));
    }
    ok := bucket.HeadObject(ManifestKey);
    if !ok {
      return Failure(ClientError(Head(ManifestKey)));
    }
    s := Success;
  }

  /** What the `try` block of a full build over the sorted rows `rows`, writing the
      manifest `newManifest`, leaves in the bucket when `main` returns `code`:
      - requests are only added, in the order of `FullCalls`, and the run stops at the
        first one that fails;
      - only the date's table and index keys and the manifest can change;
      - `0` exactly when every request succeeded, and then the bucket holds the table,
        its index and a fresh manifest naming both;
      - the manifest changes only after both uploads were made and checked, and then
        names the table and index just written; with exit code `1` this happens only when
        the manifest's own check failed. */
  ghost predicate FullOutcome(objects0: map<string, Object>, log0: seq<Call>,
                              objects1: map<string, Object>, log1: seq<Call>, faults: set<Call>,
                              rows: seq<Row>, date: string, newManifest: Object, code: int)
  {
    var published := objects0[DataKey(date) := Table(rows)][IndexKey(date) := IndexDoc(Assign(RowEntries(rows)))];
    && (code == 0 || code == 1)
    && log0 <= log1 && |log1| - |log0| <= |FullCalls(date)|
    && log1 == log0 + FullCalls(date)[..|log1| - |log0|]
    && SameExcept(objects0, objects1, {DataKey(date), IndexKey(date), ManifestKey})
    && (code == 0 <==> forall c :: c in FullCalls(date) ==> c !in faults)
    && (code == 0 ==> log1 == log0 + FullCalls(date) && objects1 == published[ManifestKey := newManifest])
    && (Lookup(objects1, ManifestKey) != Lookup(objects0, ManifestKey) ==>
          |log1| - |log0| > |UploadCalls(date)| && objects1 == published[ManifestKey := newManifest] &&
          (code == 1 ==> Head(ManifestKey) in faults))
  }

  /** Steps 4 and 5 of `main`, over the local files steps 1 to 3 left. */
  method PublishFiles(bucket: Bucket, disk: Disk, rows: seq<Row>, date: string, now: string)
    returns (code: int)
    requires SortedPath(date) in disk.files && disk.files[SortedPath(date)] == Table(rows)
    requires IndexFilePath(date) in disk.files &&
             disk.files[IndexFilePath(date)] == IndexDoc(Assign(RowEntries(rows)))
    modifies bucket
    ensures FullOutcome(old(bucket.objects), old(bucket.log), bucket.objects, bucket.log, bucket.faults,
                        rows, date, ManifestDoc(FreshManifest(DataKey(date), IndexKey(date), date, now)), code)
  {
    var uploaded := UploadToS3(bucket, disk, SortedPath(date), IndexFilePath(date), date);
    if uploaded.Err? {
      UploadFailed(old(bucket.objects), old(bucket.log), bucket.objects, bucket.log, bucket.faults, rows, date,
                   ManifestDoc(FreshManifest(DataKey(date), IndexKey(date), date, now)));
      return 1;
    }
    ghost var objects1, log1 := bucket.objects, bucket.log;
    var s := CreateAndUploadManifest(bucket, uploaded.value.0, uploaded.value.1, date, now);
    code := if s.Success? then 0 else 1;
    ManifestAttempted(old(bucket.objects), old(bucket.log), objects1, log1, bucket.objects, bucket.log,
                      bucket.faults, rows, date, ManifestDoc(FreshManifest(DataKey(date), IndexKey(date), date, now)), code);
  }

  /** A run stopped by a failed upload or check leaves the manifest alone and exits
      with 1. */
  lemma UploadFailed(objects0: map<string, Object>, log0: seq<Call>,
                     objects1: map<string, Object>, log1: seq<Call>, faults: set<Call>,
                     rows: seq<Row>, date: string, newManifest: Object)
    requires SameExcept(objects0, objects1, {DataKey(date), IndexKey(date)})
    requires 0 <= |log1| - |log0| <= 4 && log1 == log0 + UploadCalls(date)[..|log1| - |log0|]
    requires !forall c :: c in UploadCalls(date) ==> c !in faults
    ensures FullOutcome(objects0, log0, objects1, log1, faults, rows, date, newManifest, 1)
  {
    PublishedKeysDiffer(date);
    var calls := FullCalls(date);
    assert UploadCalls(date)[..|log1| - |log0|] == calls[..|log1| - |log0|];
    assert Lookup(objects1, ManifestKey) == Lookup(objects0, ManifestKey);
  }

  /** A run whose uploads and checks all succeeded goes on to the manifest: it exits with
      0 when both the write and its check succeed, and the manifest is the fresh one
      whenever the write itself succeeded. */
  lemma ManifestAttempted(objects0: map<string, Object>, log0: seq<Call>,
                          objects1: map<string, Object>, log1: seq<Call>,
                          objects2: map<string, Object>, log2: seq<Call>, faults: set<Call>,
                          rows: seq<Row>, date: string, newManifest: Object, code: int)
    requires forall c :: c in UploadCalls(date) ==> c !in faults
    requires log1 == log0 + UploadCalls(date)
    requires objects1 == objects0[DataKey(date) := Table(rows)][IndexKey(date) := IndexDoc(Assign(RowEntries(rows)))]
    requires var written := Put(ManifestKey) !in faults;
      log2 == log1 + (if written then [Put(ManifestKey), Head(ManifestKey)] else [Put(ManifestKey)]) &&
      objects2 == (if written then objects1[ManifestKey := newManifest] else objects1)
    requires code == if Put(ManifestKey) !in faults && Head(ManifestKey) !in faults then 0 else 1
    ensures FullOutcome(objects0, log0, objects2, log2, faults, rows, date, newManifest, code)
  {
    if Put(ManifestKey) in faults {
      ManifestRejected(objects0, log0, objects1, log1, faults, rows, date, newManifest);
    } else {
      ManifestWritten(objects0, log0, objects2, log2, faults, rows, date, newManifest, code);
    }
  }

  /** A manifest write that fails leaves the manifest as it was, and the run exits with 1. */
  lemma ManifestRejected(objects0: map<string, Object>, log0: seq<Call>,
                         objects1: map<string, Object>, log1: seq<Call>, faults: set<Call>,
                         rows: seq<Row>, date: string, newManifest: Object)
    requires Put(ManifestKey) in faults
    requires log1 == log0 + UploadCalls(date)
    requires objects1 == objects0[DataKey(date) := Table(rows)][IndexKey(date) := IndexDoc(Assign(RowEntries(rows)))]
    ensures FullOutcome(objects0, log0, objects1, log1 + [Put(ManifestKey)], faults, rows, date, newManifest, 1)
  {
    PublishedKeysDiffer(date);
    var calls := FullCalls(date);
    assert calls[..5] == UploadCalls(date) + [Put(ManifestKey)];
  }

  /** A manifest write that succeeds installs the fresh manifest; the run exits with 0
      exactly when its check succeeds too. */
  lemma ManifestWritten(objects0: map<string, Object>, log0: seq<Call>,
                        objects2: map<string, Object>, log2: seq<Call>, faults: set<Call>,
                        rows: seq<Row>, date: string, newManifest: Object, code: int)
    requires forall c :: c in UploadCalls(date) ==> c !in faults
    requires Put(ManifestKey) !in faults
    requires log2 == log0 + FullCalls(date)
    requires objects2 == objects0[DataKey(date) := Table(rows)][IndexKey(date) := IndexDoc(Assign(RowEntries(rows)))]
                                 [ManifestKey := newManifest]
    requires code == if Head(ManifestKey) !in faults then 0 else 1
    ensures FullOutcome(objects0, log0, objects2, log2, faults, rows, date, newManifest, code)
  {
    PublishedKeysDiffer(date);
    var calls := FullCalls(date);
    assert calls[..6] == calls;
    assert forall c :: c in calls ==> c in UploadCalls(date) || c == Put(ManifestKey) || c == Head(ManifestKey);
  }

  /** `main` of build_wikidict_full.py, for `numRows` rows. Without credentials it
      returns 1 before touching anything; otherwise it builds and publishes, returns 0
      on success and 1 on any exception, and clears the working directory either way. */
  method FullBuildMain(credentials: bool, numRows: nat, title: nat -> string, size: nat -> nat,
                       text: nat -> nat -> string, date: string, now: string, bucket: Bucket, disk: Disk)
    returns (code: int)
    requires forall k :: Productive(text(k))
    modifies bucket, disk
    ensures !credentials ==>
      code == 1 && bucket.objects == old(bucket.objects) && bucket.log == old(bucket.log) &&
      disk.files == old(disk.files)
    ensures credentials ==>
      FullOutcome(old(bucket.objects), old(bucket.log), bucket.objects, bucket.log, bucket.faults,
                  SortByKey(Generated(numRows, title, size, text)), date,
                  ManifestDoc(FreshManifest(DataKey(date), IndexKey(date), date, now)), code) &&
      Cleaned(old(disk.files), disk.files, {})
  {
    if !credentials {
      return 1;
    }
    ghost var files0 := disk.files;
    var rows := BuildLocalFiles(disk, numRows, title, size, text, date);
    LocalFiles(date);
    code := PublishFiles(bucket, disk, rows, date, now);
    ghost var files1 := disk.files;
    CleanupLocalFiles(disk);
    CleanupAfterFullBuild(files0, files1, disk.files, date);
  }

  /** The build only writes inside the working directory, so after the cleanup nothing
      is left there and everything else is as it was. */
  lemma CleanupAfterFullBuild(files0: map<string, Object>, files1: map<string, Object>,
                              files2: map<string, Object>, date: string)
    requires SameExcept(files0, files1, {UnsortedPath(date), SortedPath(date), IndexFilePath(date)})
    requires forall p :: p in files2 <==> p in files1 && !StartsWith(p, WorkDir)
    requires forall p :: p in files2 ==> files2[p] == files1[p]
    ensures Cleaned(files0, files2, {})
  {
    LocalFiles(date);
  }
}
