/** The console program's section sequence: the same nine steps as the desktop
    service, but with the untracked merge. A section is merged only when both
    documents hold an object there (`as JObject`), every listed field the
    source has is overwritten, and the two atlas sizes are copied whenever the
    source has them. Nothing here throws and nothing is recorded. */
module ConsoleMigration {
  import opened JsonModel
  import opened FieldSets
  import opened FieldMerge

  /** `node[name] as JObject`: the members of the object under `name`, or
      nothing when the key is missing or holds anything else. */
  function AsObject(node: seq<Member>, name: string): (r: Option<seq<Member>>)
    ensures r.Some? <==> exists ms :: Find(node, name) == Some(JObj(ms))
    ensures r.Some? ==> Find(node, name) == Some(JObj(r.value))
  {
    match Find(node, name)
    case Some(JObj(ms)) => Some(ms)
    case _ => None
  }

  /** One block of `ProcessFiles` on the origin document `doc`. */
  function ConsoleStep(step: Step, doc: seq<Member>, src: seq<Member>): seq<Member>
  {
    match step
    case SectionStep(name, policy) =>
      var f := AsObject(src, name);
      var o := AsObject(doc, name);
      if f.Some? && o.Some? then
        Put(doc, name, JObj(Overwrite(f.value, o.value, KeysExcept(f.value, Excluded(policy)))))
      else doc
    case RootStep(name) =>
      if Find(src, name).Some? then Put(doc, name, Find(src, name).value) else doc
  }

  /** The steps one after another. */
  function ConsoleRun(steps: seq<Step>, doc: seq<Member>, src: seq<Member>): seq<Member>
    decreases |steps|
  {
    if steps == [] then doc else ConsoleRun(steps[1..], ConsoleStep(steps[0], doc, src), src)
  }

  /** One block of `ProcessFiles`: the origin's section object is merged in
      place, or a root scalar is assigned by indexer. */
  method ConsoleBlock(step: Step, originFileNode: ObjectNode, fromFileNode: seq<Member>)
    modifies originFileNode
    ensures originFileNode.members == ConsoleStep(step, old(originFileNode.members), fromFileNode)
  {
    match step
    case SectionStep(name, policy) =>
      var fromSection := AsObject(fromFileNode, name);
      var originSection := AsObject(originFileNode.members, name);
      if fromSection.Some? && originSection.Some? {
        var fromMembers := fromSection.value;
        var fields := ResolveFields(policy, fromMembers);
        var section := new ObjectNode(originSection.value);
        MoveFieldsInObjectNode(fromMembers, section, fields);
        originFileNode.Set(name, JObj(section.members));
      }
    case RootStep(name) =>
      var fromValue := Find(fromFileNode, name);
      if fromValue.Some? {
        originFileNode.Set(name, fromValue.value);
      }
  }

  /** The section sequence of `ProcessFiles`, in table order, on the origin
      document in place. */
  method MigrateSections(originFileNode: ObjectNode, fromFileNode: seq<Member>)
    modifies originFileNode
    ensures originFileNode.members == ConsoleRun(SectionTable, old(originFileNode.members), fromFileNode)
  {
    var i := 0;
    while i < |SectionTable|
      invariant 0 <= i <= |SectionTable|
      invariant ConsoleRun(SectionTable[i..], originFileNode.members, fromFileNode)
                == ConsoleRun(SectionTable, old(originFileNode.members), fromFileNode)
    {
      ghost var before := originFileNode.members;
      ConsoleBlock(SectionTable[i], originFileNode, fromFileNode);
      ConsoleRunCons(SectionTable, i, before, fromFileNode);
      i := i + 1;
    }
  }

  lemma ConsoleRunCons(steps: seq<Step>, i: int, doc: seq<Member>, src: seq<Member>)
    requires 0 <= i < |steps|
    ensures ConsoleRun(steps[i..], doc, src) == ConsoleRun(steps[i + 1..], ConsoleStep(steps[i], doc, src), src)
  {
    assert steps[i..][0] == steps[i] && steps[i..][1..] == steps[i + 1..];
  }

  // ---------------------------------------------------------------------------
  // Properties

  /** A step changes no top-level key but its own. */
  lemma ConsoleStepFrame(step: Step, doc: seq<Member>, src: seq<Member>, k: string)
    requires k != step.name
    ensures Find(ConsoleStep(step, doc, src), k) == Find(doc, k)
  {
    match step
    case SectionStep(name, policy) =>
      var f := AsObject(src, name);
      var o := AsObject(doc, name);
      if f.Some? && o.Some? {
        FindPut(doc, name, JObj(Overwrite(f.value, o.value, KeysExcept(f.value, Excluded(policy)))), k);
      }
    case RootStep(name) =>
      if Find(src, name).Some? {
        FindPut(doc, name, Find(src, name).value, k);
      }
  }

  /** A step reads the origin document only at its own key. */
  lemma ConsoleStepLocal(step: Step, d1: seq<Member>, d2: seq<Member>, src: seq<Member>)
    requires Find(d1, step.name) == Find(d2, step.name)
    ensures Find(ConsoleStep(step, d1, src), step.name) == Find(ConsoleStep(step, d2, src), step.name)
  {
    var name := step.name;
    match step
    case SectionStep(_, policy) =>
      var f := AsObject(src, name);
      var o := AsObject(d1, name);
      assert o == AsObject(d2, name);
      if f.Some? && o.Some? {
        var v := JObj(Overwrite(f.value, o.value, KeysExcept(f.value, Excluded(policy))));
        FindPut(d1, name, v, name);
        FindPut(d2, name, v, name);
      }
    case RootStep(_) =>
      if Find(src, name).Some? {
        FindPut(d1, name, Find(src, name).value, name);
        FindPut(d2, name, Find(src, name).value, name);
      }
  }

  /** The steps of a table with distinct keys do not interfere: each step's key
      ends up as that step alone would leave it on the original document, and
      every other key is unchanged. */
  lemma {:induction false} ConsoleRunIndependent(steps: seq<Step>, doc: seq<Member>, src: seq<Member>)
    requires NoDup(StepNames(steps))
    ensures forall i :: 0 <= i < |steps| ==>
              Find(ConsoleRun(steps, doc, src), steps[i].name) == Find(ConsoleStep(steps[i], doc, src), steps[i].name)
    ensures forall k :: k !in StepNames(steps) ==> Find(ConsoleRun(steps, doc, src), k) == Find(doc, k)
    decreases |steps|
  {
    if steps != [] {
      var rest := steps[1..];
      var d := ConsoleStep(steps[0], doc, src);
      assert StepNames(rest) == StepNames(steps)[1..];
      assert StepNames(steps)[0] == steps[0].name;
      ConsoleRunIndependent(rest, d, src);
      var r := ConsoleRun(steps, doc, src);
      forall i | 0 <= i < |steps|
        ensures Find(r, steps[i].name) == Find(ConsoleStep(steps[i], doc, src), steps[i].name)
      {
        if i == 0 {
          assert steps[0].name !in StepNames(rest) by {
            forall j | 0 <= j < |rest| ensures StepNames(rest)[j] != steps[0].name {
              assert StepNames(steps)[j + 1] == StepNames(rest)[j];
            }
          }
        } else {
          assert rest[i - 1] == steps[i];
          assert StepNames(steps)[i] == steps[i].name;
          ConsoleStepFrame(steps[0], doc, src, steps[i].name);
          ConsoleStepLocal(steps[i], d, doc, src);
        }
      }
      forall k | k !in StepNames(steps)
        ensures Find(r, k) == Find(doc, k)
      {
        assert k != StepNames(steps)[0];
        assert k !in StepNames(rest);
        ConsoleStepFrame(steps[0], doc, src, k);
      }
    }
  }

  /** The source section under `name`, if it is an object, has no duplicate keys. */
  predicate SectionKeysUnique(src: seq<Member>, name: string)
  {
    AsObject(src, name).Some? ==> UniqueKeys(AsObject(src, name).value)
  }

  /** A step applied to a document that already holds that step's result at its
      key changes nothing. */
  lemma ConsoleStepRepeat(step: Step, doc: seq<Member>, src: seq<Member>, d': seq<Member>)
    requires SectionKeysUnique(src, step.name)
    requires Find(d', step.name) == Find(ConsoleStep(step, doc, src), step.name)
    ensures ConsoleStep(step, d', src) == d'
  {
    var name := step.name;
    match step
    case SectionStep(_, policy) =>
      var f := AsObject(src, name);
      var o := AsObject(doc, name);
      if f.Some? && o.Some? {
        var fields := KeysExcept(f.value, Excluded(policy));
        var once := Overwrite(f.value, o.value, fields);
        FindPut(doc, name, JObj(once), name);
        assert AsObject(d', name) == Some(once);
        KeysExceptNoDup(f.value, Excluded(policy));
        OverwriteIdempotent(f.value, o.value, fields);
        PutSame(d', name);
      } else {
        assert AsObject(d', name) == o;
      }
    case RootStep(_) =>
      if Find(src, name).Some? {
        FindPut(doc, name, Find(src, name).value, name);
        PutSame(d', name);
      }
  }

  lemma {:induction false} ConsoleRunSettled(steps: seq<Step>, doc: seq<Member>, src: seq<Member>)
    requires forall i :: 0 <= i < |steps| ==> ConsoleStep(steps[i], doc, src) == doc
    ensures ConsoleRun(steps, doc, src) == doc
    decreases |steps|
  {
    if steps != [] {
      assert ConsoleStep(steps[0], doc, src) == doc;
      ConsoleRunSettled(steps[1..], doc, src);
    }
  }

  /** Running the console's table a second time on its own output, with the same
      source, leaves the document as it is (when the source sections have no
      duplicate keys). */
  lemma ConsoleIdempotent(doc: seq<Member>, src: seq<Member>)
    requires forall i :: 0 <= i < |SectionTable| ==> SectionKeysUnique(src, SectionTable[i].name)
    ensures var d' := ConsoleRun(SectionTable, doc, src);
            ConsoleRun(SectionTable, d', src) == d'
  {
    var d' := ConsoleRun(SectionTable, doc, src);
    SectionTableNamesDistinct();
    ConsoleRunIndependent(SectionTable, doc, src);
    forall i | 0 <= i < |SectionTable|
      ensures ConsoleStep(SectionTable[i], d', src) == d'
    {
      ConsoleStepRepeat(SectionTable[i], doc, src, d');
    }
    ConsoleRunSettled(SectionTable, d', src);
  }

  /** Top-level keys outside the table are never touched. */
  lemma ConsoleKeepsOtherKeys(doc: seq<Member>, src: seq<Member>, k: string)
    requires k !in StepNames(SectionTable)
    ensures Find(ConsoleRun(SectionTable, doc, src), k) == Find(doc, k)
  {
    SectionTableNamesDistinct();
    ConsoleRunIndependent(SectionTable, doc, src);
  }

  /** The section steps: when both documents hold an object, every listed field
      the source has takes the source's value and every other field keeps the
      origin's; when either side is missing or not an object the section is left
      exactly as it was. */
  lemma ConsoleSection(doc: seq<Member>, src: seq<Member>, i: nat, key: string)
    requires i < |SectionTable| && SectionTable[i].SectionStep?
    ensures var step := SectionTable[i];
            var r := ConsoleRun(SectionTable, doc, src);
            var f := AsObject(src, step.name);
            var o := AsObject(doc, step.name);
            && (f.Some? && o.Some? ==>
                  var o' := Overwrite(f.value, o.value, KeysExcept(f.value, Excluded(step.policy)));
                  && Find(r, step.name) == Some(JObj(o'))
                  && Find(o', key) == if key !in Excluded(step.policy) && Find(f.value, key).Some?
                                      then Find(f.value, key) else Find(o.value, key))
            && (f.None? || o.None? ==> Find(r, step.name) == Find(doc, step.name))
  {
    var step := SectionTable[i];
    SectionTableNamesDistinct();
    ConsoleRunIndependent(SectionTable, doc, src);
    var f := AsObject(src, step.name);
    var o := AsObject(doc, step.name);
    if f.Some? && o.Some? {
      var fields := KeysExcept(f.value, Excluded(step.policy));
      FindPut(doc, step.name, JObj(Overwrite(f.value, o.value, fields)), step.name);
      OverwriteValues(f.value, o.value, fields, key);
      KeysExceptMembers(f.value, Excluded(step.policy), key);
    }
  }

  /** The identity fields survive: `m_fontInfo.Name`, `m_FaceInfo.m_FamilyName`
      and `m_FaceInfo.m_StyleName` keep the origin's values. */
  lemma ConsoleKeepsIdentityFields(doc: seq<Member>, src: seq<Member>, section: string, key: string, ms: seq<Member>)
    requires (section == "m_fontInfo" && key == "Name")
          || (section == "m_FaceInfo" && (key == "m_FamilyName" || key == "m_StyleName"))
    requires Find(doc, section) == Some(JObj(ms))
    ensures exists ms' :: Find(ConsoleRun(SectionTable, doc, src), section) == Some(JObj(ms'))
                          && Find(ms', key) == Find(ms, key)
  {
    var i := if section == "m_fontInfo" then 0 else 2;
    assert SectionTable[i].name == section && key in Excluded(SectionTable[i].policy);
    ConsoleSectionKeeps(doc, src, i, key, ms);
  }

  /** A field excluded from a section keeps the origin's value. */
  lemma ConsoleSectionKeeps(doc: seq<Member>, src: seq<Member>, i: nat, key: string, ms: seq<Member>)
    requires i < |SectionTable| && SectionTable[i].SectionStep?
    requires key in Excluded(SectionTable[i].policy)
    requires Find(doc, SectionTable[i].name) == Some(JObj(ms))
    ensures exists ms' :: Find(ConsoleRun(SectionTable, doc, src), SectionTable[i].name) == Some(JObj(ms'))
                          && Find(ms', key) == Find(ms, key)
  {
    var step := SectionTable[i];
    var r := ConsoleRun(SectionTable, doc, src);
    ConsoleSection(doc, src, i, key);
    var f := AsObject(src, step.name);
    assert AsObject(doc, step.name) == Some(ms);
    if f.Some? {
      var o' := Overwrite(f.value, ms, KeysExcept(f.value, Excluded(step.policy)));
      assert Find(r, step.name) == Some(JObj(o')) && Find(o', key) == Find(ms, key);
    } else {
      assert Find(r, step.name) == Some(JObj(ms));
    }
  }

  /** `m_AtlasWidth` and `m_AtlasHeight` take the source's value whenever the
      source has the key (a JSON null included), with no comparison; otherwise
      the origin's value stays. A key the origin already has keeps its place. */
  lemma ConsoleRootStep(doc: seq<Member>, src: seq<Member>, name: string)
    requires name == "m_AtlasWidth" || name == "m_AtlasHeight"
    ensures Find(ConsoleRun(SectionTable, doc, src), name)
            == if Find(src, name).Some? then Find(src, name) else Find(doc, name)
    ensures name in Keys(doc) ==> Keys(ConsoleStep(RootStep(name), doc, src)) == Keys(doc)
  {
    SectionTableNamesDistinct();
    var i := if name == "m_AtlasWidth" then 3 else 4;
    assert SectionTable[i] == RootStep(name);
    ConsoleRunAt(SectionTable, doc, src, i);
    RootStepFinds(doc, src, name);
  }

  lemma ConsoleRunAt(steps: seq<Step>, doc: seq<Member>, src: seq<Member>, i: int)
    requires NoDup(StepNames(steps)) && 0 <= i < |steps|
    ensures Find(ConsoleRun(steps, doc, src), steps[i].name) == Find(ConsoleStep(steps[i], doc, src), steps[i].name)
  {
    ConsoleRunIndependent(steps, doc, src);
  }

  /** A root step reads the source's value when it has one and keeps the
      member's place when the key is already there. */
  lemma RootStepFinds(doc: seq<Member>, src: seq<Member>, name: string)
    ensures Find(ConsoleStep(RootStep(name), doc, src), name)
            == if Find(src, name).Some? then Find(src, name) else Find(doc, name)
    ensures name in Keys(doc) ==> Keys(ConsoleStep(RootStep(name), doc, src)) == Keys(doc)
  {
    if Find(src, name).Some? {
      FindPut(doc, name, Find(src, name).value, name);
    }
  }
}
