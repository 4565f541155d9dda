/** What the desktop service's pipeline guarantees: each step touches only its
    own top-level key, so the run is the same as applying every step to the
    original document on its own; running it again changes nothing; the
    identity fields of the sections survive; and the outcomes of a file. */
module ServiceProperties {
  import opened JsonModel
  import opened FieldSets
  import opened FieldMerge
  import opened FilePaths
  import opened JsonFormatting
  import opened ProcessResults
  import opened ParameterService

  /** A step changes no top-level key but its own. */
  lemma StepFrame(step: Step, doc: seq<Member>, src: seq<Member>, k: string)
    requires ApplyStep(step, doc, src).Migrated? && k != step.name
    ensures Find(ApplyStep(step, doc, src).doc, k) == Find(doc, k)
  {
    match step
    case SectionStep(name, policy) =>
      var fv := ServiceView(src, name);
      var ov := ServiceView(doc, name);
      if fv.Obj? && ov.Obj? {
        var t := TrackedMerge(fv.members, ov.members, KeysExcept(fv.members, Excluded(policy)));
        FindPut(doc, name, JObj(t.members), k);
      }
    case RootStep(name) =>
      if Differs(src, doc, name) {
        FindPut(doc, name, NodeAt(src, name).value, k);
      }
  }

  /** A step reads the origin document only at its own key. */
  lemma StepLocal(step: Step, d1: seq<Member>, d2: seq<Member>, src: seq<Member>)
    requires Find(d1, step.name) == Find(d2, step.name)
    ensures ApplyStep(step, d1, src).Threw? == ApplyStep(step, d2, src).Threw?
    ensures StepRecords(step, d1, src) == StepRecords(step, d2, src)
    ensures ApplyStep(step, d1, src).Migrated? ==>
              Find(ApplyStep(step, d1, src).doc, step.name) == Find(ApplyStep(step, d2, src).doc, step.name)
  {
    var name := step.name;
    assert ServiceView(d1, name) == ServiceView(d2, name);
    assert NodeAt(d1, name) == NodeAt(d2, name);
    match step
    case SectionStep(_, policy) =>
      var fv := ServiceView(src, name);
      var ov := ServiceView(d1, name);
      if fv.Obj? && ov.Obj? {
        var t := TrackedMerge(fv.members, ov.members, KeysExcept(fv.members, Excluded(policy)));
        FindPut(d1, name, JObj(t.members), name);
        FindPut(d2, name, JObj(t.members), name);
      }
    case RootStep(_) =>
      if Differs(src, d1, name) {
        FindPut(d1, name, NodeAt(src, name).value, name);
        FindPut(d2, name, NodeAt(src, name).value, name);
      }
  }

  /** Documents that agree on the steps' keys give the same records. */
  lemma {:induction false} RecordsLocal(steps: seq<Step>, d1: seq<Member>, d2: seq<Member>, src: seq<Member>)
    requires forall i :: 0 <= i < |steps| ==> Find(d1, steps[i].name) == Find(d2, steps[i].name)
    ensures Records(steps, d1, src) == Records(steps, d2, src)
    ensures (exists i :: 0 <= i < |steps| && ApplyStep(steps[i], d1, src).Threw?)
        <==> (exists i :: 0 <= i < |steps| && ApplyStep(steps[i], d2, src).Threw?)
    decreases |steps|
  {
    if steps != [] {
      StepLocal(steps[0], d1, d2, src);
      RecordsLocal(steps[1..], d1, d2, src);
      ExistsThrewSplit(steps, d1, src);
      ExistsThrewSplit(steps, d2, src);
    }
  }

  lemma ExistsThrewSplit(steps: seq<Step>, doc: seq<Member>, src: seq<Member>)
    requires steps != []
    ensures (exists i :: 0 <= i < |steps| && ApplyStep(steps[i], doc, src).Threw?)
        <==> ApplyStep(steps[0], doc, src).Threw?
             || (exists i :: 0 <= i < |steps[1..]| && ApplyStep(steps[1..][i], doc, src).Threw?)
  {
    if exists i :: 0 <= i < |steps| && ApplyStep(steps[i], doc, src).Threw? {
      var i :| 0 <= i < |steps| && ApplyStep(steps[i], doc, src).Threw?;
      if i > 0 {
        assert steps[1..][i - 1] == steps[i];
      }
    }
  }

  /** The steps of a table with distinct keys do not interfere: the run throws
      exactly when some step throws on the original document; otherwise its
      records are every step's records on the original document, in table
      order, each step's key ends up as that step alone would leave it, and
      every other key is unchanged. */
  lemma {:induction false} RunStepsIndependent(steps: seq<Step>, doc: seq<Member>, src: seq<Member>)
    requires NoDup(StepNames(steps))
    ensures RunSteps(steps, doc, src).Threw?
        <==> exists i :: 0 <= i < |steps| && ApplyStep(steps[i], doc, src).Threw?
    ensures var m := RunSteps(steps, doc, src);
            m.Migrated? ==>
              && m.changes == Records(steps, doc, src)
              && (forall i :: 0 <= i < |steps| ==>
                    Find(m.doc, steps[i].name) == Find(ApplyStep(steps[i], doc, src).doc, steps[i].name))
              && (forall k :: k !in StepNames(steps) ==> Find(m.doc, k) == Find(doc, k))
    decreases |steps|
  {
    if steps != [] {
      var rest := steps[1..];
      assert StepNames(rest) == StepNames(steps)[1..];
      assert StepNames(steps)[0] == steps[0].name;
      ExistsThrewSplit(steps, doc, src);
      var first := ApplyStep(steps[0], doc, src);
      if first.Migrated? {
        var d := first.doc;
        forall i | 0 <= i < |rest|
          ensures Find(d, rest[i].name) == Find(doc, rest[i].name)
        {
          assert StepNames(steps)[i + 1] == rest[i].name;
          StepFrame(steps[0], doc, src, rest[i].name);
        }
        RecordsLocal(rest, d, doc, src);
        RunStepsIndependent(rest, d, src);
        var m := RunSteps(steps, doc, src);
        if m.Migrated? {
          forall i | 0 <= i < |steps|
            ensures Find(m.doc, steps[i].name) == Find(ApplyStep(steps[i], doc, src).doc, steps[i].name)
          {
            if i == 0 {
              assert steps[0].name !in StepNames(rest) by {
                forall j | 0 <= j < |rest| ensures StepNames(rest)[j] != steps[0].name {
                  assert StepNames(steps)[j + 1] == StepNames(rest)[j];
                }
              }
            } else {
              assert rest[i - 1] == steps[i];
              StepLocal(steps[i], d, doc, src);
            }
          }
          forall k | k !in StepNames(steps)
            ensures Find(m.doc, k) == Find(doc, k)
          {
            assert k != StepNames(steps)[0];
            assert k !in StepNames(rest);
            StepFrame(steps[0], doc, src, k);
          }
        }
      }
    }
  }

  /** A step applied to a document that already holds that step's result at
      its key reports nothing and changes nothing. */
  lemma StepRepeat(step: Step, doc: seq<Member>, src: seq<Member>, d': seq<Member>)
    requires ApplyStep(step, doc, src).Migrated?
    requires Find(d', step.name) == Find(ApplyStep(step, doc, src).doc, step.name)
    ensures ApplyStep(step, d', src) == Migrated(d', [])
  {
    var name := step.name;
    match step
    case SectionStep(_, policy) =>
      var fv := ServiceView(src, name);
      var ov := ServiceView(doc, name);
      if fv.Obj? && ov.Obj? {
        var fields := KeysExcept(fv.members, Excluded(policy));
        var t := TrackedMerge(fv.members, ov.members, fields);
        FindPut(doc, name, JObj(t.members), name);
        assert ServiceView(d', name) == Obj(t.members);
        TrackedMergeIdempotent(fv.members, ov.members, fields);
        PutSame(d', name);
      } else {
        assert ServiceView(d', name) == ov;
      }
    case RootStep(_) =>
      if Differs(src, doc, name) {
        FindPut(doc, name, NodeAt(src, name).value, name);
      }
      assert NodeAt(d', name) == NodeAt(ApplyStep(step, doc, src).doc, name);
  }

  lemma {:induction false} RunStepsSettled(steps: seq<Step>, doc: seq<Member>, src: seq<Member>)
    requires forall i :: 0 <= i < |steps| ==> ApplyStep(steps[i], doc, src) == Migrated(doc, [])
    ensures RunSteps(steps, doc, src) == Migrated(doc, [])
    decreases |steps|
  {
    if steps != [] {
      RunStepsSettled(steps[1..], doc, src);
    }
  }

  /** Running the service's table a second time on its own output, with the
      same source, records nothing and leaves the document as it is. */
  lemma ServiceIdempotent(doc: seq<Member>, src: seq<Member>)
    requires RunSteps(SectionTable, doc, src).Migrated?
    ensures var d' := RunSteps(SectionTable, doc, src).doc;
            RunSteps(SectionTable, d', src) == Migrated(d', [])
  {
    var d' := RunSteps(SectionTable, doc, src).doc;
    SectionTableNamesDistinct();
    RunStepsIndependent(SectionTable, doc, src);
    forall i | 0 <= i < |SectionTable|
      ensures ApplyStep(SectionTable[i], d', src) == Migrated(d', [])
    {
      StepRepeat(SectionTable[i], doc, src, d');
    }
    RunStepsSettled(SectionTable, d', src);
  }

  /** Top-level keys outside the table are never touched. */
  lemma ServiceKeepsOtherKeys(doc: seq<Member>, src: seq<Member>, k: string)
    requires RunSteps(SectionTable, doc, src).Migrated?
    requires k !in StepNames(SectionTable)
    ensures Find(RunSteps(SectionTable, doc, src).doc, k) == Find(doc, k)
  {
    SectionTableNamesDistinct();
    RunStepsIndependent(SectionTable, doc, src);
  }

  /** Where the table run succeeds, every step succeeds on the original
      document and the run leaves that step's key as the step alone would. */
  lemma TableStepAt(doc: seq<Member>, src: seq<Member>, i: nat)
    requires i < |SectionTable|
    requires RunSteps(SectionTable, doc, src).Migrated?
    ensures ApplyStep(SectionTable[i], doc, src).Migrated?
    ensures Find(RunSteps(SectionTable, doc, src).doc, SectionTable[i].name)
            == Find(ApplyStep(SectionTable[i], doc, src).doc, SectionTable[i].name)
  {
    SectionTableNamesDistinct();
    RunStepsIndependent(SectionTable, doc, src);
  }

  /** The table run's change list is the records of every step on the original document. */
  lemma TableRecords(doc: seq<Member>, src: seq<Member>)
    requires RunSteps(SectionTable, doc, src).Migrated?
    ensures RunSteps(SectionTable, doc, src).changes == Records(SectionTable, doc, src)
  {
    SectionTableNamesDistinct();
    RunStepsIndependent(SectionTable, doc, src);
  }

  /** A section step keeps the origin's value of every excluded key. */
  lemma SectionKeepsExcluded(step: Step, doc: seq<Member>, src: seq<Member>, key: string, ms: seq<Member>)
    requires step.SectionStep? && key in Excluded(step.policy)
    requires Find(doc, step.name) == Some(JObj(ms))
    requires ApplyStep(step, doc, src).Migrated?
    ensures exists ms' :: Find(ApplyStep(step, doc, src).doc, step.name) == Some(JObj(ms'))
                          && Find(ms', key) == Find(ms, key)
  {
    var fv := ServiceView(src, step.name);
    assert ServiceView(doc, step.name) == Obj(ms);
    if fv.Obj? {
      var fields := KeysExcept(fv.members, Excluded(step.policy));
      var t := TrackedMerge(fv.members, ms, fields);
      KeysExceptMembers(fv.members, Excluded(step.policy), key);
      TrackedMergeValues(fv.members, ms, fields, key);
      FindPut(doc, step.name, JObj(t.members), step.name);
      assert Find(t.members, key) == Find(ms, key);
    } else {
      assert Find(ms, key) == Find(ms, key);
    }
  }

  /** The identity fields survive: `m_fontInfo.Name`, `m_FaceInfo.m_FamilyName`
      and `m_FaceInfo.m_StyleName` keep the origin's values. */
  lemma ServiceKeepsIdentityFields(doc: seq<Member>, src: seq<Member>, section: string, key: string, ms: seq<Member>)
    requires RunSteps(SectionTable, doc, src).Migrated?
    requires (section == "m_fontInfo" && key == "Name")
          || (section == "m_FaceInfo" && (key == "m_FamilyName" || key == "m_StyleName"))
    requires Find(doc, section) == Some(JObj(ms))
    ensures exists ms' :: Find(RunSteps(SectionTable, doc, src).doc, section) == Some(JObj(ms'))
                          && Find(ms', key) == Find(ms, key)
  {
    var i := if section == "m_fontInfo" then 0 else 2;
    TableStepAt(doc, src, i);
    SectionKeepsExcluded(SectionTable[i], doc, src, key, ms);
  }

  /** The section steps: when both sides hold an object, the result is the
      tracked merge of the source section's keys minus the exclusions; when
      either side is missing or JSON null the section is left alone; when
      either side holds something else the whole run throws. */
  lemma ServiceSection(doc: seq<Member>, src: seq<Member>, i: nat)
    requires i < |SectionTable| && SectionTable[i].SectionStep?
    ensures var step := SectionTable[i];
            var fv := ServiceView(src, step.name);
            var ov := ServiceView(doc, step.name);
            var m := RunSteps(SectionTable, doc, src);
            && (fv.NotAnObject? || ov.NotAnObject? ==> m.Threw?)
            && (m.Migrated? && fv.Obj? && ov.Obj? ==>
                  var t := TrackedMerge(fv.members, ov.members, KeysExcept(fv.members, Excluded(step.policy)));
                  Find(m.doc, step.name) == Some(JObj(t.members)))
            && (m.Migrated? && (fv.Skip? || ov.Skip?) ==> Find(m.doc, step.name) == Find(doc, step.name))
  {
    var step := SectionTable[i];
    SectionTableNamesDistinct();
    RunStepsIndependent(SectionTable, doc, src);
    var fv := ServiceView(src, step.name);
    var ov := ServiceView(doc, step.name);
    if fv.Obj? && ov.Obj? {
      var t := TrackedMerge(fv.members, ov.members, KeysExcept(fv.members, Excluded(step.policy)));
      FindPut(doc, step.name, JObj(t.members), step.name);
    }
  }

  /** `m_AtlasWidth` and `m_AtlasHeight`: copied (and recorded) only when the
      source value is not null and differs; assigned in place, so a key the
      origin already has keeps its position among the top-level keys. */
  lemma ServiceRootStep(doc: seq<Member>, src: seq<Member>, name: string)
    requires name == "m_AtlasWidth" || name == "m_AtlasHeight"
    ensures ApplyStep(RootStep(name), doc, src).Migrated?
    ensures var m := ApplyStep(RootStep(name), doc, src);
            && (m.changes == [name] <==> Differs(src, doc, name))
            && (m.changes == [] <==> !Differs(src, doc, name))
            && (Differs(src, doc, name) ==> NodeAt(m.doc, name) == NodeAt(src, name))
            && (!Differs(src, doc, name) ==> m.doc == doc)
            && (name in Keys(doc) ==> Keys(m.doc) == Keys(doc))
  {
    if Differs(src, doc, name) {
      FindPut(doc, name, NodeAt(src, name).value, name);
    }
  }

  /** What happens once both documents are loaded, for any outcome `m` of the
      section table: an exception fails the file with the unexpected-error
      message and no records; otherwise the records and the change flag are
      set, and the file succeeds exactly when the folder and the write do,
      writing the cleaned serialization to the output path and nothing else. */
  lemma WriteOutputOutcome(r0: ProcessResult, originFile: string, fs: FileSystem, codec: Codec, m: Migration)
    requires r0.outputFilePath == [] && r0.errorMessage == [] && !r0.hasChanges && r0.changedFields == []
    ensures var (r, fs') := WriteOutput(r0, originFile, fs, codec, m);
            && Consistent(r) && r.fileName == r0.fileName
            && (m.Threw? ==> !r.success && r.changedFields == [] && r.errorMessage == UnexpectedPrefix + NotAnObjectMessage)
            && (m.Migrated? ==> r.changedFields == m.changes && r.hasChanges == (m.changes != []))
            && (r.success <==> m.Migrated? && Combine(DirectoryName(originFile), OutputFolder) !in fs.dirErrors
                                && OutputPath(originFile) !in fs.writeErrors)
            && (r.success ==> r.outputFilePath == OutputPath(originFile)
                              && fs'.files == fs.files[OutputPath(originFile) := Text(CleanEmptyArrays(codec.serialize(m.doc)))])
            && (!r.success ==> fs' == fs)
  {
    OutputPathLonger(originFile);
  }

  /** Once both files are loaded, the rest of the processing is `WriteOutput`. */
  lemma ProcessLoaded(originFile: string, fromFile: string, fs: FileSystem, codec: Codec,
                      origin: seq<Member>, source: seq<Member>)
    requires originFile in fs.files && fs.files[originFile].Text?
    requires fromFile in fs.files && fs.files[fromFile].Text?
    requires LoadObject(codec.parse(fs.files[originFile].contents)) == Loaded(origin)
    requires LoadObject(codec.parse(fs.files[fromFile].contents)) == Loaded(source)
    ensures ProcessSpec(originFile, fromFile, fs, codec)
            == WriteOutput(NewResult().(fileName := FileName(originFile)), originFile, fs, codec,
                           RunSteps(SectionTable, origin, source))
  {
  }

  /** The change list is the records of the nine steps, each computed on the
      original document, in table order; the changed-flag agrees with it. It
      is set even when creating the output folder or writing the file fails. */
  lemma ProcessChanges(originFile: string, fromFile: string, fs: FileSystem, codec: Codec,
                       origin: seq<Member>, source: seq<Member>)
    requires originFile in fs.files && fs.files[originFile].Text?
    requires fromFile in fs.files && fs.files[fromFile].Text?
    requires codec.parse(fs.files[originFile].contents) == Parsed(JObj(origin))
    requires codec.parse(fs.files[fromFile].contents) == Parsed(JObj(source))
    ensures var r := ProcessSpec(originFile, fromFile, fs, codec).0;
            RunSteps(SectionTable, origin, source).Migrated? ==>
              r.changedFields == Records(SectionTable, origin, source) && r.hasChanges == (r.changedFields != [])
    ensures var r := ProcessSpec(originFile, fromFile, fs, codec).0;
            RunSteps(SectionTable, origin, source).Threw? ==>
              !r.success && r.changedFields == [] && r.errorMessage == UnexpectedPrefix + NotAnObjectMessage
  {
    ProcessLoaded(originFile, fromFile, fs, codec, origin, source);
    var m := RunSteps(SectionTable, origin, source);
    WriteOutputOutcome(NewResult().(fileName := FileName(originFile)), originFile, fs, codec, m);
    if m.Migrated? {
      TableRecords(origin, source);
    }
  }

  /** The early failures, in the order the service checks them; none of them
      changes the file system. */
  lemma ProcessEarlyFailures(originFile: string, fromFile: string, fs: FileSystem, codec: Codec)
    ensures var (r, fs') := ProcessSpec(originFile, fromFile, fs, codec);
            && (originFile !in fs.files ==> r.errorMessage == MissingOriginPrefix + originFile)
            && (originFile in fs.files && fromFile !in fs.files ==> r.errorMessage == MissingSourcePrefix + fromFile)
            && (originFile in fs.files && fromFile in fs.files && fs.files[originFile].Unreadable? ==>
                  r.errorMessage == UnreadableOriginPrefix + fs.files[originFile].reason)
            && (originFile in fs.files && fromFile in fs.files && fs.files[originFile].Text?
                && fs.files[fromFile].Unreadable? ==>
                  r.errorMessage == UnreadableSourcePrefix + fs.files[fromFile].reason)
            && (originFile in fs.files && fromFile in fs.files && fs.files[originFile].Text? && fs.files[fromFile].Text?
                && LoadObject(codec.parse(fs.files[originFile].contents)).Rejected? ==>
                  r.errorMessage == InvalidOriginPrefix + LoadObject(codec.parse(fs.files[originFile].contents)).detail)
            && (originFile in fs.files && fromFile in fs.files && fs.files[originFile].Text? && fs.files[fromFile].Text?
                && LoadObject(codec.parse(fs.files[originFile].contents)).Loaded?
                && LoadObject(codec.parse(fs.files[fromFile].contents)).Rejected? ==>
                  r.errorMessage == InvalidSourcePrefix + LoadObject(codec.parse(fs.files[fromFile].contents)).detail)
            && (!r.success ==> fs' == fs && r.outputFilePath == [])
            && r.fileName == FileName(originFile)
            && Consistent(r)
  {
    if originFile in fs.files && fromFile in fs.files && fs.files[originFile].Text? && fs.files[fromFile].Text? {
      var origin := LoadObject(codec.parse(fs.files[originFile].contents));
      var source := LoadObject(codec.parse(fs.files[fromFile].contents));
      if origin.Loaded? && source.Loaded? {
        ProcessLoaded(originFile, fromFile, fs, codec, origin.members, source.members);
        WriteOutputOutcome(NewResult().(fileName := FileName(originFile)), originFile, fs, codec,
                           RunSteps(SectionTable, origin.members, source.members));
      }
    }
  }

  /** A root that is JSON null or not an object is reported as invalid JSON. */
  lemma ProcessRootNotObject(originFile: string, fromFile: string, fs: FileSystem, codec: Codec)
    requires originFile in fs.files && fs.files[originFile].Text?
    requires fromFile in fs.files && fs.files[fromFile].Text?
    requires codec.parse(fs.files[originFile].contents).Parsed?
    requires !codec.parse(fs.files[originFile].contents).root.JObj?
    ensures var r := ProcessSpec(originFile, fromFile, fs, codec).0;
            && !r.success
            && r.errorMessage == InvalidOriginPrefix
                 + (if codec.parse(fs.files[originFile].contents).root.JNull? then NullRootMessage else NotAnObjectMessage)
  {
  }

  /** The same for the source file, once the origin has loaded as an object. */
  lemma ProcessSourceRootNotObject(originFile: string, fromFile: string, fs: FileSystem, codec: Codec)
    requires originFile in fs.files && fs.files[originFile].Text?
    requires fromFile in fs.files && fs.files[fromFile].Text?
    requires LoadObject(codec.parse(fs.files[originFile].contents)).Loaded?
    requires codec.parse(fs.files[fromFile].contents).Parsed?
    requires !codec.parse(fs.files[fromFile].contents).root.JObj?
    ensures var r := ProcessSpec(originFile, fromFile, fs, codec).0;
            && !r.success
            && r.errorMessage == InvalidSourcePrefix
                 + (if codec.parse(fs.files[fromFile].contents).root.JNull? then NullRootMessage else NotAnObjectMessage)
  {
  }

  /** Success: exactly when both files load as objects, no section throws, and
      the folder and the write succeed. Then the output file is
      `<dir>\Moved_Parameters\<name>` (just the folder when the origin path
      ends with a separator and so has no name), it holds the cleaned serialization of
      the migrated document, it is never the origin file, and no other file
      changes. */
  lemma ProcessSuccess(originFile: string, fromFile: string, fs: FileSystem, codec: Codec,
                       origin: seq<Member>, source: seq<Member>)
    requires originFile in fs.files && fs.files[originFile].Text?
    requires fromFile in fs.files && fs.files[fromFile].Text?
    requires codec.parse(fs.files[originFile].contents) == Parsed(JObj(origin))
    requires codec.parse(fs.files[fromFile].contents) == Parsed(JObj(source))
    ensures var (r, fs') := ProcessSpec(originFile, fromFile, fs, codec);
            r.success <==>
              && RunSteps(SectionTable, origin, source).Migrated?
              && Combine(DirectoryName(originFile), OutputFolder) !in fs.dirErrors
              && OutputPath(originFile) !in fs.writeErrors
    ensures var (r, fs') := ProcessSpec(originFile, fromFile, fs, codec);
            r.success ==>
              && r.outputFilePath == OutputPath(originFile)
              && r.outputFilePath != originFile
              && (FileName(originFile) != [] ==> FileName(r.outputFilePath) == FileName(originFile))
              && fs'.files == fs.files[OutputPath(originFile) :=
                                         Text(CleanEmptyArrays(codec.serialize(RunSteps(SectionTable, origin, source).doc)))]
  {
    ProcessLoaded(originFile, fromFile, fs, codec, origin, source);
    WriteOutputOutcome(NewResult().(fileName := FileName(originFile)), originFile, fs, codec,
                       RunSteps(SectionTable, origin, source));
    OutputPathLonger(originFile);
    OutputPathParts(originFile);
  }

  // ---------------------------------------------------------------------------
  // Migrating a document against itself

  /** Some section step of `steps` finds a value at its key in `d` that is
      neither missing, JSON null nor an object, so `AsObject` throws. */
  predicate Blocked(steps: seq<Step>, d: seq<Member>)
  {
    exists i :: 0 <= i < |steps| && steps[i].SectionStep? && ServiceView(d, steps[i].name).NotAnObject?
  }

  /** One step against the document itself copies nothing; it throws exactly
      when its section is not an object. */
  lemma StepSelf(step: Step, d: seq<Member>)
    ensures ApplyStep(step, d, d)
            == if step.SectionStep? && ServiceView(d, step.name).NotAnObject? then Threw else Migrated(d, [])
  {
    match step
    case SectionStep(name, policy) =>
      var v := ServiceView(d, name);
      if v.Obj? {
        var fields := KeysExcept(v.members, Excluded(policy));
        TrackedMergeSettled(v.members, v.members, fields);
        PutSame(d, name);
        assert Qualify(name, []) == [];
      }
    case RootStep(name) =>
  }

  lemma {:induction false} RunStepsSelf(steps: seq<Step>, d: seq<Member>)
    ensures RunSteps(steps, d, d) == if Blocked(steps, d) then Threw else Migrated(d, [])
    decreases |steps|
  {
    if steps != [] {
      StepSelf(steps[0], d);
      RunStepsSelf(steps[1..], d);
      BlockedCons(steps, d);
    }
  }

  lemma BlockedCons(steps: seq<Step>, d: seq<Member>)
    requires steps != []
    ensures Blocked(steps, d)
            <==> (steps[0].SectionStep? && ServiceView(d, steps[0].name).NotAnObject?) || Blocked(steps[1..], d)
  {
    if Blocked(steps, d) {
      var i :| 0 <= i < |steps| && steps[i].SectionStep? && ServiceView(d, steps[i].name).NotAnObject?;
      if i > 0 {
        assert steps[1..][i - 1] == steps[i];
      }
    }
    if Blocked(steps[1..], d) {
      var i :| 0 <= i < |steps[1..]| && steps[1..][i].SectionStep? && ServiceView(d, steps[1..][i].name).NotAnObject?;
      assert steps[i + 1] == steps[1..][i];
    }
  }

  /** Migrating a document against itself records nothing and changes
      nothing, unless one of its sections is not an object, in which case
      the run throws. */
  lemma SelfMigration(d: seq<Member>)
    ensures RunSteps(SectionTable, d, d) == if Blocked(SectionTable, d) then Threw else Migrated(d, [])
  {
    RunStepsSelf(SectionTable, d);
  }

  /** An array at `m_GlyphTable` makes the run throw even against itself. */
  lemma SelfMigrationCanThrow()
    ensures RunSteps(SectionTable, [("m_GlyphTable", JArr([]))], [("m_GlyphTable", JArr([]))]) == Threw
  {
    var d := [("m_GlyphTable", JArr([]))];
    assert SectionTable[5] == SectionStep("m_GlyphTable", AllFields);
    assert Find(d, "m_GlyphTable") == Some(JArr([]));
    assert ServiceView(d, "m_GlyphTable").NotAnObject?;
    SelfMigration(d);
  }

  /** Processing a file against itself: no change is recorded, and on success
      the output is the cleaned serialization of the document as read. */
  lemma ProcessSelf(file: string, fs: FileSystem, codec: Codec, d: seq<Member>)
    requires file in fs.files && fs.files[file].Text?
    requires codec.parse(fs.files[file].contents) == Parsed(JObj(d))
    requires !Blocked(SectionTable, d)
    ensures var (r, fs') := ProcessSpec(file, file, fs, codec);
            && r.changedFields == [] && !r.hasChanges
            && (r.success <==> Combine(DirectoryName(file), OutputFolder) !in fs.dirErrors
                               && OutputPath(file) !in fs.writeErrors)
            && (r.success ==> fs'.files == fs.files[OutputPath(file) := Text(CleanEmptyArrays(codec.serialize(d)))])
  {
    SelfMigration(d);
    ProcessLoaded(file, file, fs, codec, d, d);
    WriteOutputOutcome(NewResult().(fileName := FileName(file)), file, fs, codec, Migrated(d, []));
  }
}
