/** The desktop window's state: the list of origin files (kept free of
    duplicate paths), the chosen source file, and the batch run that processes
    every origin file against the source and tallies the results. Pickers,
    dialogs, the progress bar and the log are not part of the model; what a
    picker returns is a parameter. */
module MainWindowState {
  import opened Text
  import opened JsonModel
  import opened FilePaths
  import opened ProcessResults
  import opened ParameterService
  import opened ServiceProperties

  /** One row of the origin-file list. */
  datatype FileItem = FileItem(fileName: string, filePath: string)

  /** A file as a picker returns it: name, full path, extension. */
  datatype PickedFile = PickedFile(name: string, path: string, fileType: string)

  const NoOriginFilesMessage: string := "请至少选择一个原始文件！"
  const NoSourceFileMessage: string := "请选择来源文件！"

  /** `items.Any(f => f.FilePath == path)`. */
  predicate Listed(items: seq<FileItem>, path: string)
  {
    exists k :: 0 <= k < |items| && items[k].filePath == path
  }

  /** No two rows share a path. */
  predicate DistinctPaths(items: seq<FileItem>)
  {
    forall i, j :: 0 <= i < j < |items| ==> items[i].filePath != items[j].filePath
  }

  /** Specification of the add loops: each picked file is appended unless a row
      with its path is already in the list (including one added earlier in the
      same loop). */
  function AddMissing(items: seq<FileItem>, files: seq<PickedFile>): seq<FileItem>
    decreases |files|
  {
    if files == [] then items
    else
      var next := if Listed(items, files[0].path) then items else items + [FileItem(files[0].name, files[0].path)];
      AddMissing(next, files[1..])
  }

  /** The folder filter: the files whose lower-cased extension is `.json`, in order. */
  function JsonFiles(files: seq<PickedFile>): (r: seq<PickedFile>)
    ensures |r| <= |files|
    ensures forall f :: f in r <==> f in files && Lower(f.fileType) == ".json"
  {
    if files == [] then []
    else (if Lower(files[0].fileType) == ".json" then [files[0]] else []) + JsonFiles(files[1..])
  }

  /** Specification of the remove button: the first row with the path goes,
      everything else stays in order. */
  function RemoveFirst(items: seq<FileItem>, path: string): seq<FileItem>
  {
    if items == [] then []
    else if items[0].filePath == path then items[1..]
    else [items[0]] + RemoveFirst(items[1..], path)
  }

  /** Processing one origin path on a file system. */
  type Processor = (string, FileSystem) -> (ProcessResult, FileSystem)

  /** The service's `ProcessSingleFile` against a fixed source file. */
  function AgainstSource(sourceFilePath: string, codec: Codec): Processor
  {
    (originFile: string, fs: FileSystem) => ProcessSpec(originFile, sourceFilePath, fs, codec)
  }

  /** Specification of the batch loop: every row in list order, each processed
      on the file system the previous ones left. */
  function Batch(files: seq<FileItem>, fs: FileSystem, process: Processor): (seq<ProcessResult>, FileSystem)
    decreases |files|
  {
    if files == [] then ([], fs)
    else
      var step := process(files[0].filePath, fs);
      var rest := Batch(files[1..], step.1, process);
      ([step.0] + rest.0, rest.1)
  }

  function SuccessCount(rs: seq<ProcessResult>): nat
  {
    if rs == [] then 0 else SuccessCount(rs[..|rs| - 1]) + (if rs[|rs| - 1].success then 1 else 0)
  }

  function FailCount(rs: seq<ProcessResult>): nat
  {
    if rs == [] then 0 else FailCount(rs[..|rs| - 1]) + (if rs[|rs| - 1].success then 0 else 1)
  }

  function ChangedCount(rs: seq<ProcessResult>): nat
  {
    if rs == [] then 0
    else ChangedCount(rs[..|rs| - 1]) + (if rs[|rs| - 1].success && rs[|rs| - 1].hasChanges then 1 else 0)
  }

  /** What the start button does: refuse with a message, or run the batch. */
  datatype BatchOutcome =
    | NotStarted(message: string)
    | Finished(results: seq<ProcessResult>, successCount: nat, failCount: nat, changedCount: nat)

  class MainWindow {
    var originFiles: seq<FileItem>
    var sourceFilePath: string

    /** Every way of adding a row first checks the path, so no two rows share one. */
    predicate Valid()
      reads this
    {
      DistinctPaths(originFiles)
    }

    constructor ()
      ensures Valid()
      ensures originFiles == [] && sourceFilePath == []
    {
      originFiles := [];
      sourceFilePath := [];
    }

    /** Adding the files a multi-file picker returned. */
    method SelectOriginFiles(files: seq<PickedFile>)
      requires Valid()
      modifies this
      ensures Valid()
      ensures originFiles == AddMissing(old(originFiles), files)
      ensures sourceFilePath == old(sourceFilePath)
    {
      var i := 0;
      while i < |files|
        invariant 0 <= i <= |files|
        invariant AddMissing(originFiles, files[i..]) == AddMissing(old(originFiles), files)
        invariant sourceFilePath == old(sourceFilePath)
      {
        var file := files[i];
        assert files[i..][1..] == files[i + 1..];
        if !Listed(originFiles, file.path) {
          originFiles := originFiles + [FileItem(file.name, file.path)];
        }
        i := i + 1;
      }
      AddMissingDistinct(old(originFiles), files);
    }

    /** Adding the `.json` files of a picked folder; `addedCount` is what the log reports. */
    method SelectOriginFolder(files: seq<PickedFile>) returns (addedCount: nat)
      requires Valid()
      modifies this
      ensures Valid()
      ensures originFiles == AddMissing(old(originFiles), JsonFiles(files))
      ensures addedCount == |originFiles| - |old(originFiles)|
      ensures sourceFilePath == old(sourceFilePath)
    {
      var jsonFiles := JsonFiles(files);
      addedCount := 0;
      var i := 0;
      while i < |jsonFiles|
        invariant 0 <= i <= |jsonFiles|
        invariant AddMissing(originFiles, jsonFiles[i..]) == AddMissing(old(originFiles), jsonFiles)
        invariant |originFiles| == |old(originFiles)| + addedCount
        invariant sourceFilePath == old(sourceFilePath)
      {
        var file := jsonFiles[i];
        assert jsonFiles[i..][1..] == jsonFiles[i + 1..];
        if !Listed(originFiles, file.path) {
          originFiles := originFiles + [FileItem(file.name, file.path)];
          addedCount := addedCount + 1;
        }
        i := i + 1;
      }
      AddMissingDistinct(old(originFiles), jsonFiles);
    }

    /** Choosing the source file. */
    method SelectSourceFile(file: PickedFile)
      requires Valid()
      modifies this
      ensures Valid()
      ensures sourceFilePath == file.path
      ensures originFiles == old(originFiles)
    {
      sourceFilePath := file.path;
    }

    /** The remove button of the row with `filePath`; `removed` is the row that went. */
    method RemoveFile(filePath: string) returns (removed: Option<FileItem>)
      requires Valid()
      modifies this
      ensures Valid()
      ensures originFiles == RemoveFirst(old(originFiles), filePath)
      ensures removed.Some? <==> Listed(old(originFiles), filePath)
      ensures removed.Some? ==> removed.value in old(originFiles) && removed.value.filePath == filePath
      ensures sourceFilePath == old(sourceFilePath)
    {
      var j := 0;
      while j < |originFiles| && originFiles[j].filePath != filePath
        invariant 0 <= j <= |originFiles|
        invariant forall k :: 0 <= k < j ==> originFiles[k].filePath != filePath
      {
        j := j + 1;
      }
      RemoveFirstAt(originFiles, filePath, j);
      RemoveFirstSpec(originFiles, filePath);
      if j == |originFiles| {
        removed := None;
      } else {
        removed := Some(originFiles[j]);
        originFiles := originFiles[..j] + originFiles[j + 1..];
      }
    }

    /** The clear button. */
    method ClearList()
      requires Valid()
      modifies this
      ensures Valid()
      ensures originFiles == []
      ensures sourceFilePath == old(sourceFilePath)
    {
      originFiles := [];
    }

    /** The start button: checks the inputs, then processes every origin file
        in list order and counts successes, failures and changed files. */
    method StartProcess(fs: FileSystem, codec: Codec) returns (outcome: BatchOutcome, fs': FileSystem)
      ensures originFiles == [] ==> outcome == NotStarted(NoOriginFilesMessage) && fs' == fs
      ensures originFiles != [] && sourceFilePath == [] ==> outcome == NotStarted(NoSourceFileMessage) && fs' == fs
      ensures originFiles != [] && sourceFilePath != [] ==>
                && outcome.Finished?
                && (outcome.results, fs') == Batch(originFiles, fs, AgainstSource(sourceFilePath, codec))
                && outcome.successCount == SuccessCount(outcome.results)
                && outcome.failCount == FailCount(outcome.results)
                && outcome.changedCount == ChangedCount(outcome.results)
                && outcome.successCount + outcome.failCount == |originFiles|
                && outcome.changedCount <= outcome.successCount
    {
      fs' := fs;
      if |originFiles| == 0 {
        return NotStarted(NoOriginFilesMessage), fs';
      }
      if sourceFilePath == [] {
        return NotStarted(NoSourceFileMessage), fs';
      }
      var successCount, failCount, changedCount := 0, 0, 0;
      var results: seq<ProcessResult> := [];
      ghost var process := AgainstSource(sourceFilePath, codec);
      ghost var goal := Batch(originFiles, fs, process);
      var i := 0;
      assert originFiles[i..] == originFiles;
      assert results + goal.0 == goal.0;
      while i < |originFiles|
        invariant 0 <= i <= |originFiles|
        invariant |results| == i
        invariant (results + Batch(originFiles[i..], fs', process).0, Batch(originFiles[i..], fs', process).1) == goal
        invariant successCount == SuccessCount(results)
        invariant failCount == FailCount(results)
        invariant changedCount == ChangedCount(results)
      {
        var file := originFiles[i];
        ghost var before := fs';
        var result;
        result, fs' := ProcessSingleFile(file.filePath, sourceFilePath, fs', codec);
        BatchStep(originFiles, i, before, process, results, result, fs');
        if result.success {
          successCount := successCount + 1;
          if result.hasChanges {
            changedCount := changedCount + 1;
          }
        } else {
          failCount := failCount + 1;
        }
        assert (results + [result])[..|results|] == results;
        results := results + [result];
        i := i + 1;
      }
      assert originFiles[i..] == [];
      assert results + [] == results;
      Tally(results);
      outcome := Finished(results, successCount, failCount, changedCount);
    }
  }

  /** One turn of the batch loop keeps the remaining batch equal to the whole. */
  lemma BatchStep(files: seq<FileItem>, i: nat, fs: FileSystem, process: Processor,
                  results: seq<ProcessResult>, result: ProcessResult, fs': FileSystem)
    requires i < |files|
    requires (result, fs') == process(files[i].filePath, fs)
    ensures var rest := Batch(files[i + 1..], fs', process);
            var whole := Batch(files[i..], fs, process);
            (results + whole.0, whole.1) == ((results + [result]) + rest.0, rest.1)
  {
    assert files[i..][1..] == files[i + 1..];
    assert files[i..][0] == files[i];
    BatchCons(files[i..], fs, process);
    assert results + ([result] + Batch(files[i + 1..], fs', process).0)
        == (results + [result]) + Batch(files[i + 1..], fs', process).0;
  }

  // ---------------------------------------------------------------------------
  // Properties of the list operations

  /** Adding never introduces a second row with the same path. */
  lemma {:induction false} AddMissingDistinct(items: seq<FileItem>, files: seq<PickedFile>)
    requires DistinctPaths(items)
    ensures DistinctPaths(AddMissing(items, files))
    decreases |files|
  {
    if files != [] {
      var next := if Listed(items, files[0].path) then items else items + [FileItem(files[0].name, files[0].path)];
      assert DistinctPaths(next) by {
        if next != items {
          forall i | 0 <= i < |items| ensures items[i].filePath != files[0].path {
          }
        }
      }
      AddMissingDistinct(next, files[1..]);
    }
  }

  /** Adding only appends: the old rows stay first, in order, and a path is in
      the new list exactly when it was in the old list or among the picked files. */
  lemma {:induction false} AddMissingContents(items: seq<FileItem>, files: seq<PickedFile>, p: string)
    ensures |items| <= |AddMissing(items, files)| <= |items| + |files|
    ensures AddMissing(items, files)[..|items|] == items
    ensures Listed(AddMissing(items, files), p) <==> Listed(items, p) || exists k :: 0 <= k < |files| && files[k].path == p
    decreases |files|
  {
    if files != [] {
      var next := if Listed(items, files[0].path) then items else items + [FileItem(files[0].name, files[0].path)];
      AddMissingContents(next, files[1..], p);
      assert AddMissing(items, files) == AddMissing(next, files[1..]);
      assert next[..|items|] == items;
      assert AddMissing(items, files)[..|items|] == AddMissing(next, files[1..])[..|next|][..|items|];
      if next != items {
        ListedSnoc(items, FileItem(files[0].name, files[0].path), p);
      }
      PickedCons(files, p);
    }
  }

  lemma ListedSnoc(items: seq<FileItem>, item: FileItem, p: string)
    ensures Listed(items + [item], p) <==> Listed(items, p) || item.filePath == p
  {
    var next := items + [item];
    if Listed(next, p) {
      var k :| 0 <= k < |next| && next[k].filePath == p;
      if k < |items| {
        assert items[k].filePath == p;
      }
    }
    if Listed(items, p) {
      var k :| 0 <= k < |items| && items[k].filePath == p;
      assert next[k] == items[k];
    }
    if item.filePath == p {
      assert next[|items|].filePath == p;
    }
  }

  lemma PickedCons(files: seq<PickedFile>, p: string)
    requires files != []
    ensures (exists k :: 0 <= k < |files| && files[k].path == p)
            <==> files[0].path == p || exists k :: 0 <= k < |files[1..]| && files[1..][k].path == p
  {
    if exists k :: 0 <= k < |files| && files[k].path == p {
      var k :| 0 <= k < |files| && files[k].path == p;
      if k > 0 {
        assert files[1..][k - 1].path == p;
      }
    }
    if exists k :: 0 <= k < |files[1..]| && files[1..][k].path == p {
      var k :| 0 <= k < |files[1..]| && files[1..][k].path == p;
      assert files[k + 1].path == p;
    }
  }

  /** A row with a path that is already listed is never added: picking the same
      files a second time changes nothing. */
  lemma {:induction false} AddMissingPresent(items: seq<FileItem>, files: seq<PickedFile>)
    requires forall k :: 0 <= k < |files| ==> Listed(items, files[k].path)
    ensures AddMissing(items, files) == items
    decreases |files|
  {
    if files != [] {
      AddMissingPresent(items, files[1..]);
    }
  }

  lemma AddMissingTwice(items: seq<FileItem>, files: seq<PickedFile>)
    ensures AddMissing(AddMissing(items, files), files) == AddMissing(items, files)
  {
    var once := AddMissing(items, files);
    forall k | 0 <= k < |files|
      ensures Listed(once, files[k].path)
    {
      AddMissingContents(items, files, files[k].path);
    }
    AddMissingPresent(once, files);
  }

  /** The remove loop's index: the first row with the path, or the list length
      when there is none. */
  lemma {:induction false} RemoveFirstAt(items: seq<FileItem>, path: string, j: nat)
    requires j <= |items|
    requires forall k :: 0 <= k < j ==> items[k].filePath != path
    requires j < |items| ==> items[j].filePath == path
    ensures j == |items| ==> RemoveFirst(items, path) == items && !Listed(items, path)
    ensures j < |items| ==> RemoveFirst(items, path) == items[..j] + items[j + 1..] && Listed(items, path)
    decreases j
  {
    if j > 0 {
      RemoveFirstAt(items[1..], path, j - 1);
      assert items == [items[0]] + items[1..];
      if j < |items| {
        assert items[..j] == [items[0]] + items[1..][..j - 1];
        assert items[j + 1..] == items[1..][j..];
        assert items[j].filePath == path;
      }
    } else if j < |items| {
      assert items[0].filePath == path;
    }
  }

  /** Removing on a list without duplicate paths takes exactly that path out,
      keeps every other row, and keeps the paths distinct; an absent path
      leaves the list as it is. */
  lemma RemoveFirstSpec(items: seq<FileItem>, path: string)
    requires DistinctPaths(items)
    ensures !Listed(items, path) ==> RemoveFirst(items, path) == items
    ensures Listed(items, path) ==> |RemoveFirst(items, path)| == |items| - 1
    ensures !Listed(RemoveFirst(items, path), path)
    ensures DistinctPaths(RemoveFirst(items, path))
    ensures forall it :: it in items && it.filePath != path ==> it in RemoveFirst(items, path)
  {
    var j := 0;
    while j < |items| && items[j].filePath != path
      invariant 0 <= j <= |items|
      invariant forall k :: 0 <= k < j ==> items[k].filePath != path
    {
      j := j + 1;
    }
    RemoveFirstAt(items, path, j);
    if j < |items| {
      DropAt(items, path, j);
    }
  }

  /** Dropping the only row with `path` from a list without duplicate paths. */
  lemma DropAt(items: seq<FileItem>, path: string, j: nat)
    requires DistinctPaths(items)
    requires j < |items| && items[j].filePath == path
    ensures var r := items[..j] + items[j + 1..];
            && !Listed(r, path)
            && DistinctPaths(r)
            && (forall it :: it in items && it.filePath != path ==> it in r)
  {
    var r := items[..j] + items[j + 1..];
    assert forall i :: 0 <= i < j ==> r[i] == items[i];
    assert forall i :: j <= i < |r| ==> r[i] == items[i + 1];
    forall a, b | 0 <= a < b < |r| ensures r[a].filePath != r[b].filePath {
      var a' := if a < j then a else a + 1;
      var b' := if b < j then b else b + 1;
      assert r[a] == items[a'] && r[b] == items[b'];
    }
    forall i | 0 <= i < |r| ensures r[i].filePath != path {
      var i' := if i < j then i else i + 1;
      assert r[i] == items[i'] && i' != j;
    }
    forall it | it in items && it.filePath != path ensures it in r {
      var k :| 0 <= k < |items| && items[k] == it;
      if k < j {
        assert r[k] == it;
      } else {
        assert r[k - 1] == it;
      }
    }
  }

  // ---------------------------------------------------------------------------
  // Properties of the batch

  lemma {:induction false} Tally(rs: seq<ProcessResult>)
    ensures SuccessCount(rs) + FailCount(rs) == |rs|
    ensures ChangedCount(rs) <= SuccessCount(rs)
  {
    if rs != [] {
      Tally(rs[..|rs| - 1]);
    }
  }

  /** A changed file is a successful one with a non-empty change list. */
  lemma {:induction false} ChangedMeansRecorded(rs: seq<ProcessResult>)
    requires forall i :: 0 <= i < |rs| ==> Consistent(rs[i])
    ensures ChangedCount(rs) == |Recorded(rs)|
  {
    if rs != [] {
      var init := rs[..|rs| - 1];
      ChangedMeansRecorded(init);
      RecordedSnoc(rs);
    }
  }

  /** The rows that recorded changed fields. */
  function Recorded(rs: seq<ProcessResult>): set<int>
  {
    set i | 0 <= i < |rs| && rs[i].success && rs[i].changedFields != []
  }

  lemma RecordedSnoc(rs: seq<ProcessResult>)
    requires rs != []
    ensures var last := |rs| - 1;
            Recorded(rs) == Recorded(rs[..last]) + (if rs[last].success && rs[last].changedFields != [] then {last} else {})
            && last !in Recorded(rs[..last])
  {
  }

  lemma BatchCons(files: seq<FileItem>, fs: FileSystem, process: Processor)
    requires files != []
    ensures var step := process(files[0].filePath, fs);
            var rest := Batch(files[1..], step.1, process);
            Batch(files, fs, process) == ([step.0] + rest.0, rest.1)
  {
  }

  /** The file system the batch hands to row `i`: what the rows before it left. */
  function StateBefore(files: seq<FileItem>, fs: FileSystem, process: Processor, i: nat): FileSystem
    requires i <= |files|
  {
    Batch(files[..i], fs, process).1
  }

  /** Each row is processed exactly once, in list order: result `i` is the
      processor's result for row `i` on the file system the earlier rows left. */
  lemma {:induction false} BatchInOrder(files: seq<FileItem>, fs: FileSystem, process: Processor)
    ensures var rs := Batch(files, fs, process).0;
            && |rs| == |files|
            && forall i :: 0 <= i < |files| ==>
                 rs[i] == process(files[i].filePath, StateBefore(files, fs, process, i)).0
    decreases |files|
  {
    if files != [] {
      var step := process(files[0].filePath, fs);
      var fs1 := step.1;
      BatchCons(files, fs, process);
      BatchInOrder(files[1..], fs1, process);
      var rs := Batch(files, fs, process).0;
      var tail := Batch(files[1..], fs1, process).0;
      forall i | 0 <= i < |files|
        ensures rs[i] == process(files[i].filePath, StateBefore(files, fs, process, i)).0
      {
        if i == 0 {
          assert files[..0] == [];
        } else {
          assert rs[i] == tail[i - 1];
          assert files[1..][i - 1] == files[i];
          var pre := files[..i];
          assert pre[0] == files[0] && pre[1..] == files[1..][..i - 1];
          BatchCons(pre, fs, process);
        }
      }
    }
  }

  /** Every result of the desktop batch is named after its row and well formed,
      and every row was processed against the same source file. */
  lemma BatchResults(files: seq<FileItem>, sourceFilePath: string, fs: FileSystem, codec: Codec)
    ensures var process := AgainstSource(sourceFilePath, codec);
            var rs := Batch(files, fs, process).0;
            && |rs| == |files|
            && forall i :: 0 <= i < |files| ==>
                 && rs[i] == ProcessSpec(files[i].filePath, sourceFilePath, StateBefore(files, fs, process, i), codec).0
                 && rs[i].fileName == FileName(files[i].filePath)
                 && Consistent(rs[i])
  {
    var process := AgainstSource(sourceFilePath, codec);
    BatchInOrder(files, fs, process);
    forall i | 0 <= i < |files|
      ensures var r := ProcessSpec(files[i].filePath, sourceFilePath, StateBefore(files, fs, process, i), codec).0;
              r.fileName == FileName(files[i].filePath) && Consistent(r)
    {
      ProcessEarlyFailures(files[i].filePath, sourceFilePath, StateBefore(files, fs, process, i), codec);
    }
  }
}
