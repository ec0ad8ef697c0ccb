/**
 * `Upload.main`: splitting the files to upload into batches of at most `UPLOAD_LIMIT`
 * bytes, skipping files that do not exist, and giving up when the first file alone is
 * too big.
 */
module Upload {
  import opened Common

  /** The most bytes one upload request may carry: 250 MiB. */
  const UploadLimit: nat := 1024 * 1024 * 250

  /** A path given on the command line, whether it exists, and its size in bytes. */
  datatype FileEntry = FileEntry(name: string, present: bool, size: nat)

  /** The files that exist, in the order given. */
  function Existing(uploads: seq<FileEntry>): (r: seq<FileEntry>)
    ensures |r| <= |uploads|
  {
    if uploads == [] then []
    else
      var n := |uploads| - 1;
      Existing(uploads[..n]) + (if uploads[n].present then [uploads[n]] else [])
  }

  /** The bytes a batch carries. */
  function TotalSize(files: seq<FileEntry>): nat {
    if files == [] then 0 else TotalSize(files[..|files| - 1]) + files[|files| - 1].size
  }

  /** The files of all batches, in upload order. */
  function Flatten(batches: seq<seq<FileEntry>>): seq<FileEntry> {
    if batches == [] then [] else Flatten(batches[..|batches| - 1]) + batches[|batches| - 1]
  }

  /** A batch within the limit, or a single file that exceeds it on its own. */
  predicate FitsLimit(batch: seq<FileEntry>) {
    TotalSize(batch) <= UploadLimit || |batch| == 1
  }

  /**
   * The batches a greedy split produces: none empty, each within the limit unless it is a
   * single file, and each closed only because the next file would have exceeded the limit.
   */
  predicate Greedy(batches: seq<seq<FileEntry>>) {
    && (forall i :: 0 <= i < |batches| ==> batches[i] != [] && FitsLimit(batches[i]))
    && (forall i :: 0 < i < |batches| && batches[i] != [] ==>
          TotalSize(batches[i - 1]) + batches[i][0].size > UploadLimit)
  }

  /** `Greedy`, batch by batch from the first: what the loop keeps as its invariant. */
  predicate WellBatched(batches: seq<seq<FileEntry>>) {
    if batches == [] then true
    else
      var n := |batches| - 1;
      && WellBatched(batches[..n])
      && batches[n] != [] && FitsLimit(batches[n])
      && (n > 0 ==> TotalSize(batches[n - 1]) + batches[n][0].size > UploadLimit)
  }

  /** Checking batch by batch is the same as checking all of them. */
  lemma {:induction false} WellBatchedIsGreedy(batches: seq<seq<FileEntry>>)
    ensures WellBatched(batches) <==> Greedy(batches)
  {
    if batches != [] {
      var n := |batches| - 1;
      var init := batches[..n];
      WellBatchedIsGreedy(init);
      if Greedy(batches) {
        forall i | 0 <= i < |init| ensures init[i] != [] && FitsLimit(init[i]) {
          assert init[i] == batches[i];
        }
        forall i | 0 < i < |init| && init[i] != []
          ensures TotalSize(init[i - 1]) + init[i][0].size > UploadLimit
        {
          assert init[i] == batches[i] && init[i - 1] == batches[i - 1];
        }
      }
      if WellBatched(batches) {
        forall i | 0 <= i < |batches| ensures batches[i] != [] && FitsLimit(batches[i]) {
          if i < n { assert batches[i] == init[i]; }
        }
        forall i | 0 < i < |batches| && batches[i] != []
          ensures TotalSize(batches[i - 1]) + batches[i][0].size > UploadLimit
        {
          if i < n { assert batches[i] == init[i] && batches[i - 1] == init[i - 1]; }
        }
      }
    }
  }

  /** The batches uploaded so far, with the one being collected. */
  function Pending(batches: seq<seq<FileEntry>>, files: seq<FileEntry>): seq<seq<FileEntry>> {
    if files == [] then batches else batches + [files]
  }

  /** What the loop of `Upload.main` keeps after looking at the first `i` paths. */
  ghost predicate Collected(uploads: seq<FileEntry>, i: nat, batches: seq<seq<FileEntry>>,
                            files: seq<FileEntry>, uploadSize: nat) {
    && i <= |uploads|
    && uploadSize == TotalSize(files)
    && (files == [] <==> Existing(uploads[..i]) == [])
    && (files == [] ==> batches == [])
    && (Existing(uploads[..i]) != [] ==> Existing(uploads[..i])[0].size <= UploadLimit)
    && Flatten(Pending(batches, files)) == Existing(uploads[..i])
    && WellBatched(Pending(batches, files))
  }

  /**
   * `Upload.main`: returns `false` (and uploads nothing) when the first existing file is
   * bigger than the limit; otherwise returns None having uploaded every existing file,
   * in order, in greedy batches.
   */
  method UploadMain(uploads: seq<FileEntry>) returns (ret: Json, batches: seq<seq<FileEntry>>)
    ensures ret == JBool(false) <==> Existing(uploads) != [] && Existing(uploads)[0].size > UploadLimit
    ensures ret == JBool(false) || ret == JNull
    ensures ret == JBool(false) ==> batches == []
    ensures ret == JNull ==> Flatten(batches) == Existing(uploads) && Greedy(batches)
  {
    var files: seq<FileEntry> := [];
    var uploadSize: nat := 0;
    batches := [];
    var i := 0;
    while i < |uploads|
      invariant Collected(uploads, i, batches, files, uploadSize) == true
    {
      var upload := uploads[i];
      if !upload.present {
        SkipMissing(uploads, i, batches, files, uploadSize);
      } else {
        var fileSize := upload.size;
        if uploadSize + fileSize > UploadLimit {
          if files == [] {
            FirstTooBig(uploads, i, batches, files, uploadSize);
            return JBool(false), [];
          }
          StartBatch(uploads, i, batches, files, uploadSize);
          batches := batches + [files];
          files := [];
          uploadSize := 0;
        } else {
          AddToBatch(uploads, i, batches, files, uploadSize);
        }
        uploadSize := uploadSize + fileSize;
        files := files + [upload];
      }
      i := i + 1;
    }
    Finish(uploads, batches, files, uploadSize);
    if files != [] {
      batches := batches + [files];
    }
    return JNull, batches;
  }

  lemma SkipMissing(uploads: seq<FileEntry>, i: nat, batches: seq<seq<FileEntry>>,
                    files: seq<FileEntry>, uploadSize: nat)
    requires i < |uploads| && !uploads[i].present
    requires Collected(uploads, i, batches, files, uploadSize)
    ensures Collected(uploads, i + 1, batches, files, uploadSize)
  {
    ExistingSnoc(uploads, i);
    assert Existing(uploads[..i + 1]) == Existing(uploads[..i]) + [];
  }

  /** The first existing file is too big on its own. */
  lemma FirstTooBig(uploads: seq<FileEntry>, i: nat, batches: seq<seq<FileEntry>>,
                    files: seq<FileEntry>, uploadSize: nat)
    requires i < |uploads| && uploads[i].present && files == []
    requires Collected(uploads, i, batches, files, uploadSize)
    requires uploadSize + uploads[i].size > UploadLimit
    ensures Existing(uploads) != [] && Existing(uploads)[0].size > UploadLimit
  {
    ExistingFirst(uploads, i);
  }

  /** A file that fits joins the batch being collected. */
  lemma AddToBatch(uploads: seq<FileEntry>, i: nat, batches: seq<seq<FileEntry>>,
                   files: seq<FileEntry>, uploadSize: nat)
    requires i < |uploads| && uploads[i].present
    requires Collected(uploads, i, batches, files, uploadSize)
    requires uploadSize + uploads[i].size <= UploadLimit
    ensures Collected(uploads, i + 1, batches, files + [uploads[i]], uploadSize + uploads[i].size)
  {
    var u := uploads[i];
    ExistingSnoc(uploads, i);
    var seen := Existing(uploads[..i]);
    assert Existing(uploads[..i + 1]) == seen + [u];
    AddFile(batches, files, u);
    TotalSizeSnoc(files, u);
    assert (seen + [u])[0] == if seen == [] then u else seen[0];
  }

  /** A file that does not fit closes the batch being collected and starts the next one. */
  lemma StartBatch(uploads: seq<FileEntry>, i: nat, batches: seq<seq<FileEntry>>,
                   files: seq<FileEntry>, uploadSize: nat)
    requires i < |uploads| && uploads[i].present && files != []
    requires Collected(uploads, i, batches, files, uploadSize)
    requires uploadSize + uploads[i].size > UploadLimit
    ensures Collected(uploads, i + 1, batches + [files], [] + [uploads[i]], 0 + uploads[i].size)
  {
    var u := uploads[i];
    ExistingSnoc(uploads, i);
    var seen := Existing(uploads[..i]);
    assert Existing(uploads[..i + 1]) == seen + [u];
    var closed := batches + [files];
    assert Pending(closed, []) == Pending(batches, files);
    assert closed[|closed| - 1] == files;
    AddFile(closed, [], u);
    assert [] + [u] == [u];
    TotalSizeSnoc([], u);
    assert (seen + [u])[0] == seen[0];
  }

  /** After the last path, the pending batches are the outcome. */
  lemma Finish(uploads: seq<FileEntry>, batches: seq<seq<FileEntry>>, files: seq<FileEntry>, uploadSize: nat)
    requires Collected(uploads, |uploads|, batches, files, uploadSize)
    ensures Flatten(Pending(batches, files)) == Existing(uploads)
    ensures Greedy(Pending(batches, files))
    ensures Existing(uploads) != [] ==> Existing(uploads)[0].size <= UploadLimit
  {
    assert uploads[..|uploads|] == uploads;
    WellBatchedIsGreedy(Pending(batches, files));
  }

  lemma ExistingSnoc(uploads: seq<FileEntry>, i: nat)
    requires i < |uploads|
    ensures Existing(uploads[..i + 1]) ==
      Existing(uploads[..i]) + (if uploads[i].present then [uploads[i]] else [])
  {
    assert uploads[..i + 1][..i] == uploads[..i];
  }

  /** When nothing before it exists, an existing file is the first existing one. */
  lemma {:induction false} ExistingFirst(uploads: seq<FileEntry>, i: nat)
    requires i < |uploads| && uploads[i].present && Existing(uploads[..i]) == []
    ensures Existing(uploads) != [] && Existing(uploads)[0] == uploads[i]
  {
    if |uploads| > i + 1 {
      var n := |uploads| - 1;
      assert uploads[..n][..i] == uploads[..i];
      ExistingFirst(uploads[..n], i);
    } else {
      assert uploads[..i + 1] == uploads;
      ExistingSnoc(uploads, i);
    }
  }

  lemma TotalSizeSnoc(files: seq<FileEntry>, f: FileEntry)
    ensures TotalSize(files + [f]) == TotalSize(files) + f.size
  {
    assert (files + [f])[..|files|] == files;
  }

  lemma FlattenSnoc(batches: seq<seq<FileEntry>>, batch: seq<FileEntry>)
    ensures Flatten(batches + [batch]) == Flatten(batches) + batch
  {
    assert (batches + [batch])[..|batches|] == batches;
  }

  /**
   * Adding a file to the batch being collected keeps the batches greedy, when the batch
   * stays within the limit or the file starts a new batch after one it would overflow.
   */
  lemma AddFile(batches: seq<seq<FileEntry>>, files: seq<FileEntry>, f: FileEntry)
    requires WellBatched(Pending(batches, files))
    requires files == [] ==> batches == [] || TotalSize(batches[|batches| - 1]) + f.size > UploadLimit
    requires files != [] ==> TotalSize(files) + f.size <= UploadLimit
    ensures Flatten(Pending(batches, files + [f])) == Flatten(Pending(batches, files)) + [f]
    ensures WellBatched(Pending(batches, files + [f]))
  {
    var b := batches + [files + [f]];
    assert Pending(batches, files + [f]) == b;
    assert b[..|batches|] == batches;
    FlattenSnoc(batches, files + [f]);
    TotalSizeSnoc(files, f);
    if files != [] {
      assert (batches + [files])[..|batches|] == batches;
      FlattenSnoc(batches, files);
      assert (files + [f])[0] == files[0];
    }
  }
}
