/** The incremental build of build_wikidict.py: load the manifest, download the live
    table with its index and the changelog, merge them locally, upload the new table and
    index under the date's keys, verify them, and only then rewrite the manifest. The
    manifest is the only thing readers follow, so it is the gate that decides when a new
    table becomes visible. */
module Publish {
  import opened Base
  import opened Text
  import opened ByteIndex
  import opened TitleOrder
  import opened IncrementalMerge
  import opened Storage

  /** The exceptions the script raises. */
  datatype Error =
    | ClientError(call: Call)
    | NotJson(key: string)
    | FileNotFound(path: string)
    | Unreadable(path: string)
    | ValueError(field: string)

  /** A step that returns a value or raises. */
  datatype Outcome<T> = Ok(value: T) | Err(error: Error)

  /** A step that returns nothing or raises. */
  datatype Status = Success | Failure(error: Error)

  /** The manifest dict the script holds in memory and updates in place. */
  class Manifest {
    var fields: map<string, string>

    constructor (fields0: map<string, string>)
      ensures fields == fields0
    {
      fields := fields0;
    }
  }

  // ----- the manifest in the bucket -----

  /** What `load_manifest_from_s3` makes of the bucket: a missing manifest is an empty
      one; a refused request, or an object that is not a JSON manifest, raises. */
  function ManifestIn(objects: map<string, Object>, faults: set<Call>): Outcome<map<string, string>>
  {
    if Get(ManifestKey) in faults then Err(ClientError(Get(ManifestKey)))
    else if ManifestKey !in objects then Ok(map[])
    else if objects[ManifestKey].ManifestDoc? then Ok(objects[ManifestKey].fields)
    else Err(NotJson(ManifestKey))
  }

  /** `load_manifest_from_s3`. */
  method LoadManifestFromS3(bucket: Bucket) returns (r: Outcome<map<string, string>>)
    modifies bucket
    ensures bucket.objects == old(bucket.objects) && bucket.log == old(bucket.log) + [Get(ManifestKey)]
    ensures r == ManifestIn(old(bucket.objects), bucket.faults)
  {
    var f := bucket.GetObject(ManifestKey);
    match f
    case Failed => r := Err(ClientError(Get(ManifestKey)));
    case NoSuchKey => r := Ok(map[]);
    case Found(obj) => r := if obj.ManifestDoc? then Ok(obj.fields) else Err(NotJson(ManifestKey));
  }

  /** `update_manifest_in_s3`: one `put_object` of the whole dict. */
  method UpdateManifestInS3(bucket: Bucket, manifest: Manifest) returns (s: Status)
    modifies bucket
    ensures bucket.log == old(bucket.log) + [Put(ManifestKey)]
    ensures s == if Put(ManifestKey) in bucket.faults then Failure(ClientError(Put(ManifestKey))) else Success
    ensures bucket.objects ==
      if s.Success? then old(bucket.objects)[ManifestKey := ManifestDoc(manifest.fields)] else old(bucket.objects)
  {
    var ok := bucket.PutObject(ManifestKey, ManifestDoc(manifest.fields));
    s := if ok then Success else Failure(ClientError(Put(ManifestKey)));
  }

  /** A manifest that was written is read back as written. */
  lemma ManifestRoundTrip(objects: map<string, Object>, faults: set<Call>, fields: map<string, string>)
    requires Get(ManifestKey) !in faults
    ensures ManifestIn(objects[ManifestKey := ManifestDoc(fields)], faults) == Ok(fields)
  {
  }

  /** An absent manifest loads as the empty dict, which `main` treats as "no table
      published yet". */
  lemma MissingManifestIsEmpty(objects: map<string, Object>, faults: set<Call>)
    requires Get(ManifestKey) !in faults && ManifestKey !in objects
    ensures ManifestIn(objects, faults) == Ok(map[])
    ensures !HasValidFilePath(map[])
  {
  }

  // ----- checks on the manifest -----

  /** The fields `build_updated_wikidict` requires, in the order it checks them. */
  const RequiredFields: seq<string> := ["file_path", "changelog_file_path"]

  function FirstMissing(m: map<string, string>, fields: seq<string>): (f: Option<string>)
    ensures f.None? <==> forall k :: k in fields ==> k in m && m[k] != []
    ensures f.Some? ==> f.value in fields && (f.value !in m || m[f.value] == [])
  {
    if fields == [] then None
    else if fields[0] !in m || m[fields[0]] == [] then Some(fields[0])
    else FirstMissing(m, fields[1..])
  }

  /** The `ValueError` check of `build_updated_wikidict`: the first of `file_path` and
      `changelog_file_path` that is absent or empty. */
  function MissingField(m: map<string, string>): (f: Option<string>)
    ensures f.None? <==> "file_path" in m && m["file_path"] != [] &&
                         "changelog_file_path" in m && m["changelog_file_path"] != []
    ensures f == Some("file_path") <==> "file_path" !in m || m["file_path"] == []
    ensures f == Some("changelog_file_path") <==>
      "file_path" in m && m["file_path"] != [] &&
      ("changelog_file_path" !in m || m["changelog_file_path"] == [])
  {
    var f := FirstMissing(m, RequiredFields);
    assert RequiredFields[0] == "file_path" && RequiredFields[1] == "changelog_file_path";
    assert "file_path" != "changelog_file_path";
    f
  }

  /** `has_valid_file_path` in `main`: the manifest is non-empty and its `file_path` is
      present, non-empty, and not only whitespace after `strip()`. The incremental path
      is therefore taken exactly when `file_path` holds a character that is not
      whitespace. */
  predicate HasValidFilePath(m: map<string, string>)
    ensures HasValidFilePath(m) <==>
      "file_path" in m && exists i :: 0 <= i < |m["file_path"]| && !IsSpace(m["file_path"][i])
  {
    if "file_path" in m then
      StripEmpty(m["file_path"]);
      assert "file_path" in m.Keys;
      |m| > 0 && m["file_path"] != [] && Strip(m["file_path"]) != []
    else false
  }

  /** `main` never sends a manifest to the incremental build that fails on its first
      required field; only `changelog_file_path` can still be missing. */
  lemma ValidPathPassesFirstCheck(m: map<string, string>)
    requires HasValidFilePath(m)
    ensures MissingField(m) == None || MissingField(m) == Some("changelog_file_path")
  {
  }

  // ----- the manifest update -----

  /** The four fields `upload_file_to_s3` sets once both uploads are verified. */
  const PublishFields: set<string> := {"file_path", "last_updated_at", "version", "index_file_path"}

  /** The manifest after `upload_file_to_s3`: the new table's key, the time stamp, the
      date as version and the new index's key; every other field, `changelog_file_path`
      included, is kept. */
  function Published(m: map<string, string>, date: string, now: string): (r: map<string, string>)
    ensures r.Keys == m.Keys + PublishFields
    ensures r["file_path"] == DataKey(date) && r["index_file_path"] == IndexKey(date)
    ensures r["last_updated_at"] == now && r["version"] == date
    ensures forall k :: k in m && k !in PublishFields ==> r[k] == m[k]
  {
    m["file_path" := DataKey(date)]["last_updated_at" := now]["version" := date]["index_file_path" := IndexKey(date)]
  }

  /** A published manifest names an index that is its table's path with "data.csv"
      replaced, the rule the downloads use to find it. */
  lemma PublishedConsistent(m: map<string, string>, date: string, now: string)
    requires IsDateStamp(date)
    ensures var r := Published(m, date, now); r["index_file_path"] == IndexPathFor(r["file_path"])
  {
    IndexKeyOfDataKey(date);
  }

  /** A published manifest passes the `file_path` checks of the next run; whether
      that run gets past the required-field check depends only on the changelog the
      manifest already named, which the update keeps. */
  lemma PublishedIsValid(m: map<string, string>, date: string, now: string)
    ensures HasValidFilePath(Published(m, date, now))
    ensures MissingField(Published(m, date, now)) ==
      if "changelog_file_path" in m && m["changelog_file_path"] != [] then None else Some("changelog_file_path")
  {
    var r := Published(m, date, now);
    var p := DataKey(date);
    assert p[0] == 'd' && !IsSpace(p[0]);
    assert "file_path" in r.Keys;
    assert "changelog_file_path" !in PublishFields;
  }

  // ----- downloads -----

  /** The bucket can serve `key`. */
  predicate Fetchable(objects: map<string, Object>, faults: set<Call>, key: string)
  {
    Get(key) !in faults && key in objects
  }

  /** `download_file_from_s3`: downloads the table under `key` to `"data/" + key`, then
      the index under `key` with "data.csv" replaced to the local path with "data.csv"
      replaced. A refused or missing key raises. */
  method DownloadFileFromS3(bucket: Bucket, disk: Disk, key: string) returns (r: Outcome<string>)
    modifies bucket, disk
    ensures bucket.objects == old(bucket.objects)
    ensures var o, ix := old(bucket.objects), IndexPathFor(key);
      if !Fetchable(o, bucket.faults, key) then
        r == Err(ClientError(Get(key))) && bucket.log == old(bucket.log) + [Get(key)] &&
        disk.files == old(disk.files)
      else if !Fetchable(o, bucket.faults, ix) then
        r == Err(ClientError(Get(ix))) && bucket.log == old(bucket.log) + [Get(key), Get(ix)] &&
        disk.files == old(disk.files)[LocalPath(key) := o[key]]
      else
        r == Ok(LocalPath(key)) && bucket.log == old(bucket.log) + [Get(key), Get(ix)] &&
        disk.files == old(disk.files)[LocalPath(key) := o[key]][LocalPath(ix) := o[ix]]
  {
    var filePath := LocalPath(key);
    var f := bucket.GetObject(key);
    if !f.Found? {
      return Err(ClientError(Get(key)));
    }
    disk.files := disk.files[filePath := f.obj];
    var indexKey := IndexPathFor(key);
    var indexPath := IndexPathFor(filePath);
    LocalIndexPath(key);
    var g := bucket.GetObject(indexKey);
    if !g.Found? {
      return Err(ClientError(Get(indexKey)));
    }
    disk.files := disk.files[indexPath := g.obj];
    r := Ok(filePath);
  }

  /** `download_changelog_from_s3`: downloads the changelog to `"data/" + key`. */
  method DownloadChangelogFromS3(bucket: Bucket, disk: Disk, key: string) returns (r: Outcome<string>)
    modifies bucket, disk
    ensures bucket.objects == old(bucket.objects) && bucket.log == old(bucket.log) + [Get(key)]
    ensures if Fetchable(old(bucket.objects), bucket.faults, key) then
        r == Ok(LocalPath(key)) && disk.files == old(disk.files)[LocalPath(key) := old(bucket.objects)[key]]
      else
        r == Err(ClientError(Get(key))) && disk.files == old(disk.files)
  {
    var f := bucket.GetObject(key);
    if !f.Found? {
      return Err(ClientError(Get(key)));
    }
    disk.files := disk.files[LocalPath(key) := f.obj];
    r := Ok(LocalPath(key));
  }

  // ----- the local merge -----

  /** The local files once `update_wikidict` has merged `base` with `changelog`: the
      merged table at `outputPath` and its index beside it. */
  function MergeInto(files: map<string, Object>, outputPath: string, base: seq<Row>, changelog: seq<Row>)
    : map<string, Object>
  {
    var rows := Merged(base, changelog);
    files[outputPath := Table(rows)][IndexPathFor(outputPath) := IndexDoc(Assign(RowEntries(rows)))]
  }

  /** `update_wikidict` on the local files as the script orders its steps: all three
      files are emptied before anything is read, and opening the output for writing
      empties it. When the output is the existing table itself, the merge therefore
      reads an empty base. */
  method UpdateWikidictFiles(disk: Disk, existingPath: string, changelogPath: string, outputPath: string)
    returns (s: Status)
    modifies disk
    ensures existingPath !in old(disk.files) ==>
      s == Failure(FileNotFound(existingPath)) && disk.files == old(disk.files)
    ensures existingPath in old(disk.files) && changelogPath !in old(disk.files) ==>
      s == Failure(FileNotFound(changelogPath)) && disk.files == old(disk.files)
    ensures existingPath in old(disk.files) && changelogPath in old(disk.files) ==>
      var emptied := old(disk.files)[outputPath := Table([])];
      var base, log := RowsOf(Lookup(emptied, existingPath)), RowsOf(Lookup(emptied, changelogPath));
      if base.None? then s == Failure(Unreadable(existingPath)) && disk.files == emptied
      else if log.None? then s == Failure(Unreadable(changelogPath)) && disk.files == emptied
      else s == Success && disk.files == MergeInto(emptied, outputPath, base.value, log.value)
  {
    if existingPath !in disk.files {
      return Failure(FileNotFound(existingPath));
    }
    if changelogPath !in disk.files {
      return Failure(FileNotFound(changelogPath));
    }
    disk.files := disk.files[outputPath := Table([])];
    s := MergeLocal(disk, existingPath, changelogPath, outputPath);
  }

  /** `update_wikidict` reading both inputs before the output is emptied: the merge sees
      the existing table even when it is rewritten in place. */
  method UpdateWikidictFilesReadFirst(disk: Disk, existingPath: string, changelogPath: string, outputPath: string)
    returns (s: Status)
    modifies disk
    ensures existingPath !in old(disk.files) ==>
      s == Failure(FileNotFound(existingPath)) && disk.files == old(disk.files)
    ensures existingPath in old(disk.files) && changelogPath !in old(disk.files) ==>
      s == Failure(FileNotFound(changelogPath)) && disk.files == old(disk.files)
    ensures existingPath in old(disk.files) && changelogPath in old(disk.files) ==>
      var base, log := RowsOf(Lookup(old(disk.files), existingPath)), RowsOf(Lookup(old(disk.files), changelogPath));
      if base.None? then s == Failure(Unreadable(existingPath)) && disk.files == old(disk.files)
      else if log.None? then s == Failure(Unreadable(changelogPath)) && disk.files == old(disk.files)
      else s == Success && disk.files == MergeInto(old(disk.files), outputPath, base.value, log.value)
  {
    if existingPath !in disk.files {
      return Failure(FileNotFound(existingPath));
    }
    if changelogPath !in disk.files {
      return Failure(FileNotFound(changelogPath));
    }
    s := MergeLocal(disk, existingPath, changelogPath, outputPath);
  }

  /** Reads both tables, merges them, and writes the merged table and its index. */
  method MergeLocal(disk: Disk, existingPath: string, changelogPath: string, outputPath: string)
    returns (s: Status)
    modifies disk
    ensures var base, log := RowsOf(Lookup(old(disk.files), existingPath)), RowsOf(Lookup(old(disk.files), changelogPath));
      if base.None? then s == Failure(Unreadable(existingPath)) && disk.files == old(disk.files)
      else if log.None? then s == Failure(Unreadable(changelogPath)) && disk.files == old(disk.files)
      else s == Success && disk.files == MergeInto(old(disk.files), outputPath, base.value, log.value)
  {
    var base := RowsOf(Lookup(disk.files, existingPath));
    var log := RowsOf(Lookup(disk.files, changelogPath));
    if base.None? {
      return Failure(Unreadable(existingPath));
    }
    if log.None? {
      return Failure(Unreadable(changelogPath));
    }
    var rows, file, index, counts, warned := UpdateWikidict(base.value, log.value);
    disk.files := disk.files[outputPath := Table(rows)][IndexPathFor(outputPath) := IndexDoc(index)];
    s := Success;
  }

  /** A rerun on the day of the live table: the existing table and the output are the
      same local file, the script's order reads it after emptying it, and the table it
      writes holds the changelog rows alone. Here a one-row base and a one-row changelog
      with another title give a one-row table where the merge has two rows. */
  lemma SameDayRerunDropsBase()
    ensures var date := "20250101";
      var live := LocalPath(DataKey(date));
      var base, changelog := [Row("a", "old")], [Row("b", "new")];
      var files := map[live := Table(base), LocalPath("changes.csv") := Table(changelog)];
      var emptied := files[live := Table([])];
      RowsOf(Lookup(emptied, live)) == Some([]) &&
      RowsOf(Lookup(emptied, LocalPath("changes.csv"))) == Some(changelog) &&
      MergeInto(emptied, live, [], changelog)[live] == Table(changelog) &&
      MergeInto(files, live, base, changelog)[live] == Table(base + changelog)
  {
    var date := "20250101";
    var live := LocalPath(DataKey(date));
    assert live != LocalPath("changes.csv") by {
      assert live[5] == 'd' && LocalPath("changes.csv")[5] == 'c';
    }
    var base, changelog := [Row("a", "old")], [Row("b", "new")];
    assert Lower("a") == "a" && Lower("b") == "b";
    assert Less("a", "b");
    assert Merged(base[1..], changelog) == changelog;
    assert Merged(base, changelog) == base + changelog;
    var i := IndexPathFor(live);
    LocalIndexPath(DataKey(date));
    IndexKeyOfDataKey(date);
    assert i == LocalPath(IndexKey(date));
    assert i != live by {
      assert i[|i| - 1] == 'n' && live[|live| - 1] == 'v';
    }
  }

  // ----- the upload -----

  /** The requests `upload_file_to_s3` makes, in order: both uploads, then both checks. */
  function UploadCalls(date: string): seq<Call>
  {
    [Put(DataKey(date)), Put(IndexKey(date)), Head(DataKey(date)), Head(IndexKey(date))]
  }

  /** `upload_file_to_s3`: both local files must exist; the table and the index are
      uploaded under the date's keys and both are checked with `head_object`; only when
      all four requests succeed is the manifest dict updated. */
  method UploadFileToS3(bucket: Bucket, disk: Disk, manifest: Manifest, filePath: string, date: string, now: string)
    returns (s: Status)
    modifies bucket, manifest
    ensures SameExcept(old(bucket.objects), bucket.objects, {DataKey(date), IndexKey(date)})
    ensures var made := |bucket.log| - |old(bucket.log)|;
      0 <= made <= 4 && bucket.log == old(bucket.log) + UploadCalls(date)[..made]
    ensures s.Success? <==>
      filePath in disk.files && IndexPathFor(filePath) in disk.files &&
      forall c :: c in UploadCalls(date) ==> c !in bucket.faults
    ensures s.Failure? && bucket.log == old(bucket.log) ==>
      s.error == FileNotFound(filePath) || s.error == FileNotFound(IndexPathFor(filePath))
    ensures s.Failure? && bucket.log != old(bucket.log) ==> s.error == ClientError(bucket.log[|bucket.log| - 1])
    ensures s.Success? ==>
      bucket.log == old(bucket.log) + UploadCalls(date) &&
      bucket.objects == old(bucket.objects)[DataKey(date) := disk.files[filePath]]
                                          [IndexKey(date) := disk.files[IndexPathFor(filePath)]]
    ensures manifest.fields == if s.Success? then Published(old(manifest.fields), date, now) else old(manifest.fields)
  {
    var indexLocalPath := IndexPathFor(filePath);
    if filePath !in disk.files {
      return Failure(FileNotFound(filePath));
    }
    if indexLocalPath !in disk.files {
      return Failure(FileNotFound(indexLocalPath));
    }
    var s3FilePath, indexFilePath := DataKey(date), IndexKey(date);
    var calls := UploadCalls(date);
    assert calls[..0] == [] && calls[..4] == calls;
    var ok := bucket.PutObject(s3FilePath, disk.files[filePath]);
    if !ok {
      return Failure(ClientError(Put(s3FilePath)));
    }
    ok := bucket.PutObject(indexFilePath, disk.files[indexLocalPath]);
    if !ok {
      return Failure(ClientError(Put(indexFilePath)));
    }
    ok := bucket.HeadObject(s3FilePath);
    if !ok {
      return Failure(ClientError(Head(s3FilePath)));
    }
    ok := bucket.HeadObject(indexFilePath);
    if !ok {
      return Failure(ClientError(Head(indexFilePath)));
    }
    manifest.fields := Published(manifest.fields, date, now);
    s := Success;
  }

  // ----- the incremental build -----

  /** The requests of an incremental build that gets as far as writing the manifest, in
      order: the table, its index and the changelog are read, the new table and index
      are uploaded and checked, and the manifest is written last. */
  function PublishCalls(filePath: string, changelogPath: string, date: string): seq<Call>
  {
    [Get(filePath), Get(IndexPathFor(filePath)), Get(changelogPath)] + UploadCalls(date) + [Put(ManifestKey)]
  }

  /** The bucket once a build dated `date` has published the merge of `base` with
      `changelog`: the merged table and its index under the date's keys, and the
      manifest pointing at them. */
  function Publication(objects: map<string, Object>, base: seq<Row>, changelog: seq<Row>,
                       fields: map<string, string>, date: string, now: string): map<string, Object>
  {
    var rows := Merged(base, changelog);
    objects[DataKey(date) := Table(rows)][IndexKey(date) := IndexDoc(Assign(RowEntries(rows)))]
           [ManifestKey := ManifestDoc(Published(fields, date, now))]
  }

  /** The requests from `log0` to `log1` keep the manifest gate: requests are only
      added, and a manifest write was attempted only after every request before it in
      `calls` succeeded, in that order (`calls` ends with the manifest write). */
  ghost predicate GateKept(log0: seq<Call>, log1: seq<Call>, calls: seq<Call>, success: bool)
  {
    && log0 <= log1
    && (Put(ManifestKey) in log1[|log0|..] ==> log1 == log0 + calls)
    && (success ==> log1 == log0 + calls)
  }

  /** What an incremental build from the manifest `fields`, naming `filePath` and
      `changelogPath`, may have done to the bucket when it ends with `s`:
      - nothing changed but the date's table, the date's index and the manifest;
      - a build that raised left the manifest as it was;
      - the requests keep the manifest gate of `PublishCalls`;
      - a build that succeeded published exactly the merge of the table and the
        changelog it read. */
  ghost predicate PublishOutcome(objects0: map<string, Object>, log0: seq<Call>,
                                 objects1: map<string, Object>, log1: seq<Call>,
                                 fields: map<string, string>, filePath: string, changelogPath: string,
                                 date: string, now: string, s: Status)
  {
    && GateKept(log0, log1, PublishCalls(filePath, changelogPath, date), s.Success?)
    && Stored(objects0, objects1, ReadAsWritten(objects0, filePath, date), ReadAsWritten(objects0, changelogPath, date),
              fields, date, now, s)
  }

  /** The rows `update_wikidict` reads from the local copy of `key`, in the order the
      script opens its files: the stored table, except that the local copy of the date's
      table key is the output, which opening it for writing has just emptied. */
  function ReadAsWritten(objects: map<string, Object>, key: string, date: string): Option<seq<Row>>
  {
    if key == DataKey(date) then Some([]) else RowsOf(Lookup(objects, key))
  }

  /** Emptying the date's local table before the merge reads its inputs turns what the
      downloads left into what `ReadAsWritten` describes. */
  lemma EmptiedRead(files: map<string, Object>, objects: map<string, Object>, key: string, date: string)
    requires RowsOf(Lookup(files, LocalPath(key))) == RowsOf(Lookup(objects, key))
    ensures RowsOf(Lookup(files[LocalPath(DataKey(date)) := Table([])], LocalPath(key))) ==
            ReadAsWritten(objects, key, date)
  {
    LocalPathInjective(key, DataKey(date));
  }

  /** The bucket side of `PublishOutcome`, given the tables the build read. */
  ghost predicate Stored(objects0: map<string, Object>, objects1: map<string, Object>,
                         base: Option<seq<Row>>, changelog: Option<seq<Row>>,
                         fields: map<string, string>, date: string, now: string, s: Status)
  {
    && SameExcept(objects0, objects1, {DataKey(date), IndexKey(date), ManifestKey})
    && (s.Failure? ==> Lookup(objects1, ManifestKey) == Lookup(objects0, ManifestKey))
    && (s.Success? ==>
          base.Some? && changelog.Some? &&
          objects1 == Publication(objects0, base.value, changelog.value, fields, date, now))
  }

  /** The output path of the merge, `"data/dict/" + date + "/data.csv"`, is the local copy
      of the date's table key, and its index path the local copy of the date's index key. */
  lemma OutputPaths(date: string)
    requires IsDateStamp(date)
    ensures "data/dict/" + date + "/data.csv" == LocalPath(DataKey(date))
    ensures IndexPathFor(LocalPath(DataKey(date))) == LocalPath(IndexKey(date))
    ensures LocalPath(DataKey(date)) != LocalPath(IndexKey(date))
  {
    LocalIndexPath(DataKey(date));
    IndexKeyOfDataKey(date);
    PublishedKeysDiffer(date);
    LocalPathInjective(DataKey(date), IndexKey(date));
  }

  /** The `try` block of `build_updated_wikidict`: download the table with its index,
      download the changelog, merge them into the date's local table and index, upload
      those, and write the manifest. The first step that raises ends the build. */
  method RunIncrementalBuild(bucket: Bucket, disk: Disk, manifest: Manifest,
                             filePath: string, changelogPath: string, date: string, now: string)
    returns (s: Status)
    requires IsDateStamp(date)
    modifies bucket, disk, manifest
    ensures PublishOutcome(old(bucket.objects), old(bucket.log), bucket.objects, bucket.log,
                           old(manifest.fields), filePath, changelogPath, date, now, s)
    ensures manifest.fields == old(manifest.fields) || manifest.fields == Published(old(manifest.fields), date, now)
    ensures SameExcept(old(disk.files), disk.files,
      {LocalPath(filePath), LocalPath(IndexPathFor(filePath)), LocalPath(changelogPath),
       LocalPath(DataKey(date)), LocalPath(IndexKey(date))})
  {
    var fetched := FetchInputs(bucket, disk, filePath, changelogPath);
    if fetched.Err? {
      s := Failure(fetched.error);
      FailedFetchOutcome(old(bucket.objects), old(bucket.log), bucket.log,
                         old(manifest.fields), filePath, changelogPath, date, now, s);
      return;
    }
    ghost var log1 := bucket.log;
    EmptiedRead(disk.files, old(bucket.objects), filePath, date);
    EmptiedRead(disk.files, old(bucket.objects), changelogPath, date);
    s := MergeAndPublish(bucket, disk, manifest, LocalPath(filePath), LocalPath(changelogPath), date, now);
    GateAfterFetch(old(bucket.log), log1, bucket.log, filePath, changelogPath, date, s.Success?);
  }

  /** The two downloads of `build_updated_wikidict`. On success each key's local copy
      holds that key's object, even when two of the keys share a local path. */
  method FetchInputs(bucket: Bucket, disk: Disk, filePath: string, changelogPath: string)
    returns (r: Outcome<bool>)
    modifies bucket, disk
    ensures bucket.objects == old(bucket.objects)
    ensures var gets := [Get(filePath), Get(IndexPathFor(filePath)), Get(changelogPath)];
      exists n :: 0 <= n <= 3 && bucket.log == old(bucket.log) + gets[..n] && (r.Ok? ==> n == 3)
    ensures SameExcept(old(disk.files), disk.files,
      {LocalPath(filePath), LocalPath(IndexPathFor(filePath)), LocalPath(changelogPath)})
    ensures r.Ok? ==>
      RowsOf(Lookup(disk.files, LocalPath(filePath))) == RowsOf(Lookup(old(bucket.objects), filePath)) &&
      RowsOf(Lookup(disk.files, LocalPath(changelogPath))) == RowsOf(Lookup(old(bucket.objects), changelogPath))
  {
    ghost var objects0, files0 := bucket.objects, disk.files;
    ghost var gets := [Get(filePath), Get(IndexPathFor(filePath)), Get(changelogPath)];
    assert gets[..0] == [] && gets[..3] == gets;
    var existing := DownloadFileFromS3(bucket, disk, filePath);
    if existing.Err? {
      assert gets[..1] == [Get(filePath)] && gets[..2] == [Get(filePath), Get(IndexPathFor(filePath))];
      return Err(existing.error);
    }
    var changes := DownloadChangelogFromS3(bucket, disk, changelogPath);
    if changes.Err? {
      assert gets[..2] == [Get(filePath), Get(IndexPathFor(filePath))];
      return Err(changes.error);
    }
    DownloadedCopies(files0, disk.files, objects0, filePath, changelogPath);
    r := Ok(true);
  }

  /** From the local inputs on: merge them into the date's local table and index, upload
      those, and write the manifest. The merge opens its output before it reads, so the
      tables it reads are the local files with the date's table emptied. */
  method MergeAndPublish(bucket: Bucket, disk: Disk, manifest: Manifest,
                         existingPath: string, changelogPath: string, date: string, now: string)
    returns (s: Status)
    requires IsDateStamp(date)
    modifies bucket, disk, manifest
    ensures GateKept(old(bucket.log), bucket.log, UploadCalls(date) + [Put(ManifestKey)], s.Success?)
    ensures var emptied := old(disk.files)[LocalPath(DataKey(date)) := Table([])];
      Stored(old(bucket.objects), bucket.objects,
             RowsOf(Lookup(emptied, existingPath)), RowsOf(Lookup(emptied, changelogPath)),
             old(manifest.fields), date, now, s)
    ensures manifest.fields == old(manifest.fields) || manifest.fields == Published(old(manifest.fields), date, now)
    ensures SameExcept(old(disk.files), disk.files, {LocalPath(DataKey(date)), LocalPath(IndexKey(date))})
  {
    var outputPath := "data/dict/" + date + "/data.csv";
    OutputPaths(date);
    s := UpdateWikidictFiles(disk, existingPath, changelogPath, outputPath);
    if s.Failure? {
      return;
    }
    s := UploadAndCommit(bucket, disk, manifest, outputPath, date, now);
  }

  /** `upload_file_to_s3` followed by `update_manifest_in_s3`: the manifest is written
      only once the upload returned. */
  method UploadAndCommit(bucket: Bucket, disk: Disk, manifest: Manifest, filePath: string, date: string, now: string)
    returns (s: Status)
    modifies bucket, manifest
    ensures GateKept(old(bucket.log), bucket.log, UploadCalls(date) + [Put(ManifestKey)], s.Success?)
    ensures SameExcept(old(bucket.objects), bucket.objects, {DataKey(date), IndexKey(date), ManifestKey})
    ensures s.Failure? ==> Lookup(bucket.objects, ManifestKey) == Lookup(old(bucket.objects), ManifestKey)
    ensures s.Success? ==>
      filePath in disk.files && IndexPathFor(filePath) in disk.files &&
      bucket.objects == old(bucket.objects)[DataKey(date) := disk.files[filePath]]
                                          [IndexKey(date) := disk.files[IndexPathFor(filePath)]]
                                          [ManifestKey := ManifestDoc(Published(old(manifest.fields), date, now))]
    ensures manifest.fields == old(manifest.fields) || manifest.fields == Published(old(manifest.fields), date, now)
  {
    s := UploadFileToS3(bucket, disk, manifest, filePath, date, now);
    PublishedKeysDiffer(date);
    if s.Failure? {
      UploadCallsNoManifest(date);
      return;
    }
    s := UpdateManifestInS3(bucket, manifest);
  }

  /** A build that raised during the downloads changed nothing in the bucket. */
  lemma FailedFetchOutcome(objects0: map<string, Object>, log0: seq<Call>, log1: seq<Call>,
                           fields: map<string, string>, filePath: string, changelogPath: string,
                           date: string, now: string, s: Status)
    requires s.Failure?
    requires exists n :: 0 <= n <= 3 &&
                         log1 == log0 + [Get(filePath), Get(IndexPathFor(filePath)), Get(changelogPath)][..n]
    ensures PublishOutcome(objects0, log0, objects0, log1, fields, filePath, changelogPath, date, now, s)
  {
    var n :| 0 <= n <= 3 && log1 == log0 + [Get(filePath), Get(IndexPathFor(filePath)), Get(changelogPath)][..n];
    assert log1[|log0|..] == [Get(filePath), Get(IndexPathFor(filePath)), Get(changelogPath)][..n];
  }

  /** Three reads followed by requests that keep the gate of the upload and manifest
      write keep the gate of the whole build. */
  lemma GateAfterFetch(log0: seq<Call>, log1: seq<Call>, log2: seq<Call>,
                       filePath: string, changelogPath: string, date: string, success: bool)
    requires log1 == log0 + [Get(filePath), Get(IndexPathFor(filePath)), Get(changelogPath)]
    requires GateKept(log1, log2, UploadCalls(date) + [Put(ManifestKey)], success)
    ensures GateKept(log0, log2, PublishCalls(filePath, changelogPath, date), success)
  {
    var gets := [Get(filePath), Get(IndexPathFor(filePath)), Get(changelogPath)];
    var rest := log2[|log1|..];
    assert log2 == log1 + rest;
    assert log2[|log0|..] == gets + rest;
    assert PublishCalls(filePath, changelogPath, date) == gets + (UploadCalls(date) + [Put(ManifestKey)]);
    if Put(ManifestKey) in log2[|log0|..] {
      assert Put(ManifestKey) in rest;
    }
  }

  /** The manifest is not among the upload's requests. */
  lemma UploadCallsNoManifest(date: string)
    ensures forall n :: 0 <= n <= 4 ==> Put(ManifestKey) !in UploadCalls(date)[..n]
  {
    PublishedKeysDiffer(date);
  }

  /** After both downloads each downloaded key's local copy holds that key's object,
      even when two of the keys share a local path. */
  lemma DownloadedCopies(files0: map<string, Object>, files1: map<string, Object>, objects: map<string, Object>,
                         filePath: string, changelogPath: string)
    requires filePath in objects && IndexPathFor(filePath) in objects && changelogPath in objects
    requires files1 == files0[LocalPath(filePath) := objects[filePath]]
                             [LocalPath(IndexPathFor(filePath)) := objects[IndexPathFor(filePath)]]
                             [LocalPath(changelogPath) := objects[changelogPath]]
    ensures Lookup(files1, LocalPath(filePath)) == Some(objects[filePath])
    ensures Lookup(files1, LocalPath(changelogPath)) == Some(objects[changelogPath])
  {
    LocalPathInjective(filePath, changelogPath);
    LocalPathInjective(filePath, IndexPathFor(filePath));
  }

  /** The local files after the `finally` cleanup: nothing is left in the working
      directory, and every other file is as it was except the downloads, which land
      outside it when a manifest names a key outside `dict/`. */
  ghost predicate Cleaned(files0: map<string, Object>, files1: map<string, Object>, downloads: set<string>)
  {
    && (forall p :: p in files1 ==> !StartsWith(p, WorkDir))
    && (forall p :: !StartsWith(p, WorkDir) && p !in downloads ==> Lookup(files1, p) == Lookup(files0, p))
  }

  /** What `build_updated_wikidict` leaves behind:
      - a missing or empty required field raises `ValueError` before anything is
        touched, and before the `try`, so without the cleanup;
      - otherwise the build keeps `PublishOutcome` for the manifest's `file_path` and
        `changelog_file_path`, and the cleanup runs whatever the outcome. */
  ghost predicate IncrementalOutcome(objects0: map<string, Object>, log0: seq<Call>, files0: map<string, Object>,
                                     objects1: map<string, Object>, log1: seq<Call>, files1: map<string, Object>,
                                     fields: map<string, string>, date: string, now: string, s: Status)
  {
    if MissingField(fields).Some? then
      s == Failure(ValueError(MissingField(fields).value)) &&
      objects1 == objects0 && log1 == log0 && files1 == files0
    else
      var filePath, changelogPath := fields["file_path"], fields["changelog_file_path"];
      PublishOutcome(objects0, log0, objects1, log1, fields, filePath, changelogPath, date, now, s) &&
      Cleaned(files0, files1, {LocalPath(filePath), LocalPath(IndexPathFor(filePath)), LocalPath(changelogPath)})
  }

  /** `build_updated_wikidict`. */
  method BuildUpdatedWikidict(bucket: Bucket, disk: Disk, manifest: Manifest, date: string, now: string)
    returns (s: Status)
    requires IsDateStamp(date)
    modifies bucket, disk, manifest
    ensures IncrementalOutcome(old(bucket.objects), old(bucket.log), old(disk.files),
                               bucket.objects, bucket.log, disk.files, old(manifest.fields), date, now, s)
    ensures manifest.fields == old(manifest.fields) || manifest.fields == Published(old(manifest.fields), date, now)
  {
    var missing := MissingField(manifest.fields);
    if missing.Some? {
      return Failure(ValueError(missing.value));
    }
    var filePath, changelogPath := manifest.fields["file_path"], manifest.fields["changelog_file_path"];
    ghost var files0 := disk.files;
    s := RunIncrementalBuild(bucket, disk, manifest, filePath, changelogPath, date, now);
    ghost var files1 := disk.files;
    CleanupLocalFiles(disk);
    CleanupAfterBuild(files0, files1, disk.files, filePath, changelogPath, date);
  }

  /** The date's local table and index are in the working directory, so the cleanup
      removes them along with the downloads inside it. */
  lemma CleanupAfterBuild(files0: map<string, Object>, files1: map<string, Object>, files2: map<string, Object>,
                          filePath: string, changelogPath: string, date: string)
    requires SameExcept(files0, files1,
      {LocalPath(filePath), LocalPath(IndexPathFor(filePath)), LocalPath(changelogPath),
       LocalPath(DataKey(date)), LocalPath(IndexKey(date))})
    requires forall p :: p in files2 <==> p in files1 && !StartsWith(p, WorkDir)
    requires forall p :: p in files2 ==> files2[p] == files1[p]
    ensures Cleaned(files0, files2, {LocalPath(filePath), LocalPath(IndexPathFor(filePath)), LocalPath(changelogPath)})
  {
    assert LocalPath(DataKey(date))[..|WorkDir|] == WorkDir;
    assert LocalPath(IndexKey(date))[..|WorkDir|] == WorkDir;
  }

  /** Which way `main` went. */
  datatype Dispatch = LoadFailed(error: Error) | Incremental(status: Status) | FullRebuild

  /** `main` of build_wikidict.py: loads the manifest and takes the incremental path when
      it names a `file_path` that is not blank; otherwise it starts the full rebuild
      (a separate program, whose run is not part of this outcome). */
  method BuildMain(bucket: Bucket, disk: Disk, date: string, now: string) returns (d: Dispatch)
    requires IsDateStamp(date)
    modifies bucket, disk
    ensures var loaded := ManifestIn(old(bucket.objects), bucket.faults);
      match loaded
      case Err(e) => d == LoadFailed(e)
      case Ok(fields) => (d.Incremental? <==> HasValidFilePath(fields)) && (d.FullRebuild? <==> !HasValidFilePath(fields))
    ensures !d.Incremental? ==>
      bucket.objects == old(bucket.objects) && bucket.log == old(bucket.log) + [Get(ManifestKey)] &&
      disk.files == old(disk.files)
    ensures d.Incremental? ==>
      IncrementalOutcome(old(bucket.objects), old(bucket.log) + [Get(ManifestKey)], old(disk.files),
                         bucket.objects, bucket.log, disk.files,
                         ManifestIn(old(bucket.objects), bucket.faults).value, date, now, d.status)
  {
    var loaded := LoadManifestFromS3(bucket);
    if loaded.Err? {
      return LoadFailed(loaded.error);
    }
    var manifest := new Manifest(loaded.value);
    var hasValidFilePath := HasValidFilePath(manifest.fields);
    if hasValidFilePath {
      var s := BuildUpdatedWikidict(bucket, disk, manifest, date, now);
      d := Incremental(s);
    } else {
      d := FullRebuild;
    }
  }

  /** The manifest gate: when a build changed the manifest at all, it succeeded, every
      request of `PublishCalls` was made in order, and the manifest now names the date's
      table, holding the merge, and the date's index, which indexes exactly that table. */
  lemma ManifestChangesOnlyOnSuccess(objects0: map<string, Object>, log0: seq<Call>,
                                     objects1: map<string, Object>, log1: seq<Call>,
                                     fields: map<string, string>, filePath: string, changelogPath: string,
                                     date: string, now: string, s: Status)
    requires PublishOutcome(objects0, log0, objects1, log1, fields, filePath, changelogPath, date, now, s)
    requires Lookup(objects1, ManifestKey) != Lookup(objects0, ManifestKey)
    ensures s.Success? && log1[|log0|..] == PublishCalls(filePath, changelogPath, date)
    ensures ManifestKey in objects1 && objects1[ManifestKey] == ManifestDoc(Published(fields, date, now))
    ensures var m := Published(fields, date, now);
      m["file_path"] in objects1 && m["index_file_path"] in objects1 &&
      objects1[m["file_path"]].Table? &&
      objects1[m["file_path"]].rows ==
        Merged(ReadAsWritten(objects0, filePath, date).value, ReadAsWritten(objects0, changelogPath, date).value) &&
      objects1[m["index_file_path"]] == IndexDoc(Assign(RowEntries(objects1[m["file_path"]].rows)))
  {
    PublishedKeysDiffer(date);
  }

  /** The table a successful build publishes. When the manifest names another day's
      table, it is the merge of that table with the changelog. When it names the date's
      own table (a rerun on the same day), the base is lost and the published table is
      the changelog alone. */
  lemma PublishedTable(objects0: map<string, Object>, log0: seq<Call>,
                       objects1: map<string, Object>, log1: seq<Call>,
                       fields: map<string, string>, filePath: string, changelogPath: string,
                       date: string, now: string, s: Status)
    requires PublishOutcome(objects0, log0, objects1, log1, fields, filePath, changelogPath, date, now, s)
    requires s.Success? && changelogPath != DataKey(date)
    ensures RowsOf(Lookup(objects0, changelogPath)).Some? && DataKey(date) in objects1
    ensures var changelog := RowsOf(Lookup(objects0, changelogPath)).value;
      filePath == DataKey(date) ==> objects1[DataKey(date)] == Table(changelog)
    ensures var changelog := RowsOf(Lookup(objects0, changelogPath)).value;
      filePath != DataKey(date) ==>
        RowsOf(Lookup(objects0, filePath)).Some? &&
        objects1[DataKey(date)] == Table(Merged(RowsOf(Lookup(objects0, filePath)).value, changelog))
  {
    PublishedKeysDiffer(date);
  }
}
