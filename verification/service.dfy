/** The desktop service's per-file processing: load both documents, run the
    fixed section table with the tracked merge, record the changes, and write
    the cleaned output next to the origin file.

    The file system, the JSON parser and the serializer are parameters: a
    `FileSystem` value says which files exist, what reading them gives, and
    which directory creations and writes fail (with the exception message);
    a `Codec` gives the parser's outcome for a text and the serializer's text
    for a document. */
module ParameterService {
  import opened JsonModel
  import opened FieldSets
  import opened FieldMerge
  import opened FilePaths
  import opened JsonFormatting
  import opened ProcessResults

  datatype FileState = Unreadable(reason: string) | Text(contents: string)

  datatype FileSystem = FileSystem(
    files: map<string, FileState>,
    dirErrors: map<string, string>,
    writeErrors: map<string, string>)

  /** What the JSON parser makes of a text: a value, or an exception message. */
  datatype ParseOutcome = Parsed(root: Json) | SyntaxError(message: string)

  datatype Codec = Codec(parse: string -> ParseOutcome, serialize: seq<Member> -> string)

  const MissingOriginPrefix: string := "原始文件不存在: "
  const MissingSourcePrefix: string := "来源文件不存在: "
  const UnreadableOriginPrefix: string := "无法读取原始文件: "
  const UnreadableSourcePrefix: string := "无法读取来源文件: "
  const InvalidOriginPrefix: string := "原始文件JSON格式无效: "
  const InvalidSourcePrefix: string := "来源文件JSON格式无效: "
  const WriteFailedPrefix: string := "无法写入输出文件: "
  const UnexpectedPrefix: string := "处理过程中发生未知错误: "

  /** The message of the exception raised by `AsObject()` on a null root. */
  const NullRootMessage: string := "Object reference not set to an instance of an object."
  /** The message of the exception raised by `AsObject()` on a node that is not an object. */
  const NotAnObjectMessage: string := "The node must be of type 'JsonObject'."

  /** A document root as `JsonNode.Parse(text)!.AsObject()` yields it. */
  datatype Loaded = Loaded(members: seq<Member>) | Rejected(detail: string)

  function LoadObject(p: ParseOutcome): (l: Loaded)
    ensures l.Loaded? <==> p.Parsed? && p.root.JObj?
    ensures l.Loaded? ==> l.members == p.root.members
    ensures p.SyntaxError? ==> l == Rejected(p.message)
  {
    match p
    case SyntaxError(m) => Rejected(m)
    case Parsed(JNull) => Rejected(NullRootMessage)
    case Parsed(JObj(ms)) => Loaded(ms)
    case Parsed(_) => Rejected(NotAnObjectMessage)
  }

  /** A top-level section as `node[name]?.AsObject()` sees it. */
  datatype View = Skip | Obj(members: seq<Member>) | NotAnObject

  function ServiceView(doc: seq<Member>, name: string): (v: View)
    ensures v.Skip? <==> NodeAt(doc, name).None?
    ensures v.Obj? <==> Find(doc, name).Some? && Find(doc, name).value.JObj?
    ensures v.Obj? ==> Find(doc, name) == Some(JObj(v.members))
  {
    match NodeAt(doc, name)
    case None => Skip
    case Some(JObj(ms)) => Obj(ms)
    case Some(_) => NotAnObject
  }

  /** The result of running steps on a document: an exception, or the new
      document and the change records. */
  datatype Migration = Threw | Migrated(doc: seq<Member>, changes: seq<string>)

  /** The change records `section.field` of one section. */
  function Qualify(section: string, moved: seq<string>): (r: seq<string>)
    ensures |r| == |moved|
    ensures forall i :: 0 <= i < |moved| ==> r[i] == section + "." + moved[i]
  {
    seq(|moved|, i requires 0 <= i < |moved| => section + "." + moved[i])
  }

  /** One step of the service on the origin document `doc`, reading `src`. */
  function ApplyStep(step: Step, doc: seq<Member>, src: seq<Member>): Migration
  {
    match step
    case SectionStep(name, policy) =>
      var fv := ServiceView(src, name);
      var ov := ServiceView(doc, name);
      if fv.NotAnObject? || ov.NotAnObject? then Threw
      else if fv.Obj? && ov.Obj? then
        var t := TrackedMerge(fv.members, ov.members, KeysExcept(fv.members, Excluded(policy)));
        Migrated(Put(doc, name, JObj(t.members)), Qualify(name, t.moved))
      else Migrated(doc, [])
    case RootStep(name) =>
      if Differs(src, doc, name) then Migrated(Put(doc, name, NodeAt(src, name).value), [name])
      else Migrated(doc, [])
  }

  /** The change records a step makes on `doc` (none when it throws). */
  function StepRecords(step: Step, doc: seq<Member>, src: seq<Member>): seq<string>
  {
    match ApplyStep(step, doc, src)
    case Threw => []
    case Migrated(_, c) => c
  }

  /** The steps run one after another; the first exception ends the run. */
  function RunSteps(steps: seq<Step>, doc: seq<Member>, src: seq<Member>): Migration
    decreases |steps|
  {
    if steps == [] then Migrated(doc, [])
    else
      match ApplyStep(steps[0], doc, src)
      case Threw => Threw
      case Migrated(d, c) =>
        match RunSteps(steps[1..], d, src)
        case Threw => Threw
        case Migrated(d', c') => Migrated(d', c + c')
  }

  /** Independent reference: the records of every step, each computed on the
      original document. */
  function Records(steps: seq<Step>, doc: seq<Member>, src: seq<Member>): seq<string>
    decreases |steps|
  {
    if steps == [] then [] else StepRecords(steps[0], doc, src) + Records(steps[1..], doc, src)
  }

  /** The run with `done` already recorded. */
  function Resume(done: seq<string>, m: Migration): Migration
  {
    match m
    case Threw => Threw
    case Migrated(d, c) => Migrated(d, done + c)
  }

  lemma RunStepsThrew(steps: seq<Step>, i: int, doc: seq<Member>, src: seq<Member>)
    requires 0 <= i < |steps| && ApplyStep(steps[i], doc, src).Threw?
    ensures RunSteps(steps[i..], doc, src) == Threw
  {
    assert steps[i..][0] == steps[i];
  }

  lemma RunStepsCons(steps: seq<Step>, i: int, doc: seq<Member>, src: seq<Member>)
    requires 0 <= i < |steps| && ApplyStep(steps[i], doc, src).Migrated?
    ensures var m := ApplyStep(steps[i], doc, src);
            RunSteps(steps[i..], doc, src) == Resume(m.changes, RunSteps(steps[i + 1..], m.doc, src))
  {
    assert steps[i..][0] == steps[i] && steps[i..][1..] == steps[i + 1..];
  }

  lemma ResumeResume(a: seq<string>, b: seq<string>, m: Migration)
    ensures Resume(a, Resume(b, m)) == Resume(a + b, m)
  {
    if m.Migrated? {
      assert a + (b + m.changes) == (a + b) + m.changes;
    }
  }

  /** Specification of `ProcessSingleFile`: the result and the file system afterwards. */
  function ProcessSpec(originFile: string, fromFile: string, fs: FileSystem, codec: Codec): (ProcessResult, FileSystem)
  {
    var r0 := NewResult().(fileName := FileName(originFile));
    if originFile !in fs.files then (Fail(r0, MissingOriginPrefix + originFile), fs)
    else if fromFile !in fs.files then (Fail(r0, MissingSourcePrefix + fromFile), fs)
    else if fs.files[originFile].Unreadable? then (Fail(r0, UnreadableOriginPrefix + fs.files[originFile].reason), fs)
    else if fs.files[fromFile].Unreadable? then (Fail(r0, UnreadableSourcePrefix + fs.files[fromFile].reason), fs)
    else
      var origin := LoadObject(codec.parse(fs.files[originFile].contents));
      var source := LoadObject(codec.parse(fs.files[fromFile].contents));
      if origin.Rejected? then (Fail(r0, InvalidOriginPrefix + origin.detail), fs)
      else if source.Rejected? then (Fail(r0, InvalidSourcePrefix + source.detail), fs)
      else
        WriteOutput(r0, originFile, fs, codec, RunSteps(SectionTable, origin.members, source.members))
  }

  /** The rest of `ProcessSingleFile` once both documents are loaded: record
      the changes, create the output folder, write the cleaned text. */
  function WriteOutput(r0: ProcessResult, originFile: string, fs: FileSystem, codec: Codec, m: Migration)
    : (ProcessResult, FileSystem)
    requires r0.outputFilePath == [] && !r0.hasChanges && r0.changedFields == []
  {
    match m
    case Threw => (Fail(r0, UnexpectedPrefix + NotAnObjectMessage), fs)
    case Migrated(doc, changes) =>
      var r1 := r0.(hasChanges := changes != [], changedFields := changes);
      var outputDir := Combine(DirectoryName(originFile), OutputFolder);
      var outputFilePath := Combine(outputDir, FileName(originFile));
      if outputDir in fs.dirErrors then (Fail(r1, UnexpectedPrefix + fs.dirErrors[outputDir]), fs)
      else if outputFilePath in fs.writeErrors then (Fail(r1, WriteFailedPrefix + fs.writeErrors[outputFilePath]), fs)
      else
        var text := CleanEmptyArrays(codec.serialize(doc));
        (r1.(outputFilePath := outputFilePath, success := true),
         fs.(files := fs.files[outputFilePath := Text(text)]))
  }

  // ---------------------------------------------------------------------------
  // The service loop

  /** One block of `ProcessSingleFile`'s body: a section merged in place, or a
      root scalar assigned. */
  method ServiceStep(step: Step, originFileNode: ObjectNode, fromFileNode: seq<Member>)
    returns (threw: bool, records: seq<string>)
    modifies originFileNode
    ensures threw <==> ApplyStep(step, old(originFileNode.members), fromFileNode).Threw?
    ensures !threw ==> ApplyStep(step, old(originFileNode.members), fromFileNode)
                       == Migrated(originFileNode.members, records)
  {
    threw, records := false, [];
    match step
    case SectionStep(name, policy) =>
      var fromSection := ServiceView(fromFileNode, name);
      var originSection := ServiceView(originFileNode.members, name);
      if fromSection.NotAnObject? || originSection.NotAnObject? {
        threw := true;
        return;
      }
      if fromSection.Obj? && originSection.Obj? {
        var fieldsToMove := ResolveFields(policy, fromSection.members);
        var section := new ObjectNode(originSection.members);
        var movedFields := MoveFieldsInObjectNodeWithTracking(fromSection.members, section, fieldsToMove);
        originFileNode.Set(name, JObj(section.members));
        records := Qualify(name, movedFields);
      }
    case RootStep(name) =>
      var fromValue := NodeAt(fromFileNode, name);
      if fromValue.Some? && fromValue != NodeAt(originFileNode.members, name) {
        originFileNode.Set(name, fromValue.value);
        records := [name];
      }
  }

  /** The section blocks of `ProcessSingleFile`, in table order, on the origin
      document in place; `changedFields` collects the records. */
  method MigrateDocument(originFileNode: ObjectNode, fromFileNode: seq<Member>)
    returns (threw: bool, changedFields: seq<string>)
    modifies originFileNode
    ensures var m := RunSteps(SectionTable, old(originFileNode.members), fromFileNode);
            (threw <==> m.Threw?) && (!threw ==> m == Migrated(originFileNode.members, changedFields))
  {
    changedFields := [];
    ghost var goal := RunSteps(SectionTable, originFileNode.members, fromFileNode);
    var i := 0;
    while i < |SectionTable|
      invariant 0 <= i <= |SectionTable|
      invariant Resume(changedFields, RunSteps(SectionTable[i..], originFileNode.members, fromFileNode)) == goal
    {
      ghost var before := originFileNode.members;
      var records;
      threw, records := ServiceStep(SectionTable[i], originFileNode, fromFileNode);
      if threw {
        RunStepsThrew(SectionTable, i, before, fromFileNode);
        return;
      }
      RunStepsCons(SectionTable, i, before, fromFileNode);
      ResumeResume(changedFields, records, RunSteps(SectionTable[i + 1..], originFileNode.members, fromFileNode));
      changedFields := changedFields + records;
      i := i + 1;
    }
    threw := false;
  }

  /** `ProcessSingleFile(originFile, fromFile)`. */
  method ProcessSingleFile(originFile: string, fromFile: string, fs: FileSystem, codec: Codec)
    returns (result: ProcessResult, fs': FileSystem)
    ensures (result, fs') == ProcessSpec(originFile, fromFile, fs, codec)
    ensures Consistent(result)
    ensures result.fileName == FileName(originFile)
  {
    result := NewResult();
    result := result.(fileName := FileName(originFile));
    fs' := fs;
    if originFile !in fs.files {
      result := Fail(result, MissingOriginPrefix + originFile);
      return;
    }
    if fromFile !in fs.files {
      result := Fail(result, MissingSourcePrefix + fromFile);
      return;
    }
    var originState := fs.files[originFile];
    if originState.Unreadable? {
      result := Fail(result, UnreadableOriginPrefix + originState.reason);
      return;
    }
    var fromState := fs.files[fromFile];
    if fromState.Unreadable? {
      result := Fail(result, UnreadableSourcePrefix + fromState.reason);
      return;
    }
    var originLoaded := LoadObject(codec.parse(originState.contents));
    if originLoaded.Rejected? {
      result := Fail(result, InvalidOriginPrefix + originLoaded.detail);
      return;
    }
    var fromLoaded := LoadObject(codec.parse(fromState.contents));
    if fromLoaded.Rejected? {
      result := Fail(result, InvalidSourcePrefix + fromLoaded.detail);
      return;
    }
    var originFileNode := new ObjectNode(originLoaded.members);
    var threw, changedFields := MigrateDocument(originFileNode, fromLoaded.members);
    if threw {
      result := Fail(result, UnexpectedPrefix + NotAnObjectMessage);
      return;
    }
    result := result.(hasChanges := changedFields != [], changedFields := changedFields);
    var newJson := CleanEmptyArrays(codec.serialize(originFileNode.members));
    var outputDir := Combine(DirectoryName(originFile), OutputFolder);
    if outputDir in fs.dirErrors {
      result := Fail(result, UnexpectedPrefix + fs.dirErrors[outputDir]);
      return;
    }
    var outputFilePath := Combine(outputDir, FileName(originFile));
    if outputFilePath in fs.writeErrors {
      result := Fail(result, WriteFailedPrefix + fs.writeErrors[outputFilePath]);
      return;
    }
    fs' := fs.(files := fs.files[outputFilePath := Text(newJson)]);
    OutputPathLonger(originFile);
    result := result.(outputFilePath := outputFilePath, success := true);
  }
}
