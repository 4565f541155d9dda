/** The field-set resolvers: which keys of a source section are migrated.
    Each resolver lists the keys of the SOURCE section in their order, minus a
    fixed exclusion set; the destination is not an argument. Also the fixed
    sequence of top-level steps that both pipelines run. */
module FieldSets {
  import opened JsonModel

  /** The keys of `node`, in order, except those in `excluded`. */
  function KeysExcept(node: seq<Member>, excluded: set<string>): seq<string>
  {
    if node == [] then []
    else
      var init := KeysExcept(node[..|node| - 1], excluded);
      var k := node[|node| - 1].0;
      if k in excluded then init else init + [k]
  }

  /** The exclusion policy of a section. */
  datatype Policy = FontInfoFields | FaceInfoFields | AllFields

  function Excluded(p: Policy): set<string>
  {
    match p
    case FontInfoFields => {"Name"}
    case FaceInfoFields => {"m_FamilyName", "m_StyleName"}
    case AllFields => {}
  }

  /** One step of a document pipeline: merge a section object field by field,
      or copy a scalar at the document root. */
  datatype Step = SectionStep(name: string, policy: Policy) | RootStep(name: string)

  /** The steps in the order both programs run them. */
  const SectionTable: seq<Step> := [
    SectionStep("m_fontInfo", FontInfoFields),
    SectionStep("m_glyphInfoList", AllFields),
    SectionStep("m_FaceInfo", FaceInfoFields),
    RootStep("m_AtlasWidth"),
    RootStep("m_AtlasHeight"),
    SectionStep("m_GlyphTable", AllFields),
    SectionStep("m_CharacterTable", AllFields),
    SectionStep("m_UsedGlyphRects", AllFields),
    SectionStep("m_FreeGlyphRects", AllFields)
  ]

  function StepNames(steps: seq<Step>): seq<string>
  {
    seq(|steps|, i requires 0 <= i < |steps| => steps[i].name)
  }

  /** The table touches nine distinct top-level keys. */
  lemma SectionTableNamesDistinct()
    ensures NoDup(StepNames(SectionTable))
    ensures |SectionTable| == 9
  {
    var ns := StepNames(SectionTable);
    assert ns == ["m_fontInfo", "m_glyphInfoList", "m_FaceInfo", "m_AtlasWidth", "m_AtlasHeight",
                  "m_GlyphTable", "m_CharacterTable", "m_UsedGlyphRects", "m_FreeGlyphRects"];
    forall i, j | 0 <= i < j < |ns|
      ensures ns[i] != ns[j]
    {
      assert ns[i][2] != ns[j][2] || |ns[i]| != |ns[j]| || ns[i][3] != ns[j][3] || ns[i][9] != ns[j][9];
    }
  }

  /** A key is listed exactly when the source section has it and it is not excluded. */
  lemma {:induction false} KeysExceptMembers(node: seq<Member>, excluded: set<string>, k: string)
    ensures k in KeysExcept(node, excluded) <==> k in Keys(node) && k !in excluded
  {
    if node != [] {
      var init := node[..|node| - 1];
      KeysExceptMembers(init, excluded, k);
      assert Keys(node) == Keys(init) + [node[|node| - 1].0];
    }
  }

  /** Listing keeps the source order: it distributes over concatenation. */
  lemma {:induction false} KeysExceptAppend(a: seq<Member>, b: seq<Member>, excluded: set<string>)
    ensures KeysExcept(a + b, excluded) == KeysExcept(a, excluded) + KeysExcept(b, excluded)
  {
    if b == [] {
      assert a + b == a;
    } else {
      var b' := b[..|b| - 1];
      assert (a + b)[..|a + b| - 1] == a + b';
      KeysExceptAppend(a, b', excluded);
    }
  }

  /** With nothing excluded, every key is listed, in order. */
  lemma {:induction false} KeysExceptNothing(node: seq<Member>)
    ensures KeysExcept(node, {}) == Keys(node)
  {
    if node != [] {
      KeysExceptNothing(node[..|node| - 1]);
      assert Keys(node) == Keys(node[..|node| - 1]) + [node[|node| - 1].0];
    }
  }

  /** A source section without duplicate keys gives a list without duplicates. */
  lemma {:induction false} KeysExceptNoDup(node: seq<Member>, excluded: set<string>)
    requires UniqueKeys(node)
    ensures NoDup(KeysExcept(node, excluded))
  {
    if node != [] {
      var init := node[..|node| - 1];
      var k := node[|node| - 1].0;
      KeysExceptNoDup(init, excluded);
      if k !in excluded {
        KeysExceptMembers(init, excluded, k);
        assert k !in Keys(init) by {
          assert forall j :: 0 <= j < |init| ==> Keys(init)[j] == node[j].0 != k;
        }
      }
    }
  }

  /** The loop shared by the three resolvers: walk the source section and
      collect each key that is not excluded. */
  method FieldsExcept(node: seq<Member>, excluded: set<string>) returns (fields: seq<string>)
    ensures fields == KeysExcept(node, excluded)
  {
    fields := [];
    var i := 0;
    while i < |node|
      invariant 0 <= i <= |node|
      invariant fields == KeysExcept(node[..i], excluded)
    {
      var fieldName := node[i].0;
      if fieldName !in excluded {
        fields := fields + [fieldName];
      }
      assert node[..i + 1][..i] == node[..i];
      i := i + 1;
    }
    assert node[..i] == node;
  }

  /** `GetFontInfoFields`: every key of `m_fontInfo` except `Name`. */
  method GetFontInfoFields(node: seq<Member>) returns (fields: seq<string>)
    ensures fields == KeysExcept(node, {"Name"})
    ensures forall k :: k in fields <==> k in Keys(node) && k != "Name"
  {
    fields := FieldsExcept(node, {"Name"});
    forall k ensures k in fields <==> k in Keys(node) && k != "Name" {
      KeysExceptMembers(node, {"Name"}, k);
    }
  }

  /** `GetFieldsFaceInfo`: every key of `m_FaceInfo` except `m_FamilyName` and `m_StyleName`. */
  method GetFieldsFaceInfo(node: seq<Member>) returns (fields: seq<string>)
    ensures fields == KeysExcept(node, {"m_FamilyName", "m_StyleName"})
    ensures forall k :: k in fields <==> k in Keys(node) && k != "m_FamilyName" && k != "m_StyleName"
  {
    fields := FieldsExcept(node, {"m_FamilyName", "m_StyleName"});
    forall k ensures k in fields <==> k in Keys(node) && k != "m_FamilyName" && k != "m_StyleName" {
      KeysExceptMembers(node, {"m_FamilyName", "m_StyleName"}, k);
    }
  }

  /** `GetAllFieldsInNode`: every key, in order. */
  method GetAllFieldsInNode(node: seq<Member>) returns (fields: seq<string>)
    ensures fields == Keys(node)
  {
    fields := FieldsExcept(node, {});
    KeysExceptNothing(node);
  }

  /** The resolver each section of the table uses. */
  method ResolveFields(policy: Policy, node: seq<Member>) returns (fields: seq<string>)
    ensures fields == KeysExcept(node, Excluded(policy))
  {
    match policy
    case FontInfoFields => fields := GetFontInfoFields(node);
    case FaceInfoFields => fields := GetFieldsFaceInfo(node);
    case AllFields =>
      fields := GetAllFieldsInNode(node);
      KeysExceptNothing(node);
  }
}
