/** The merge engine in its two versions.

    Tracked (the desktop service): a listed field is copied only when its
    source value is not null and differs from the destination's, and the
    copied names are returned. Overwrite (the console program): every listed
    field present in the source is copied unconditionally. Both remove the
    destination member first and then assign it, so a copied field moves to
    the end of the destination's key order. */
module FieldMerge {
  import opened JsonModel

  /** The destination members after a tracked merge, and the names copied. */
  datatype Tracked = Tracked(members: seq<Member>, moved: seq<string>)

  /** Whether the tracked merge copies `f`: the source value is not null (a JSON
      null reads as null) and is not deep-equal to the destination's value. */
  predicate Differs(from: seq<Member>, to: seq<Member>, f: string)
  {
    NodeAt(from, f).Some? && NodeAt(from, f) != NodeAt(to, f)
  }

  /** Specification of `MoveFieldsInObjectNodeWithTracking`, one field at a time. */
  function TrackedMerge(from: seq<Member>, to: seq<Member>, fields: seq<string>): Tracked
    decreases |fields|
  {
    if fields == [] then Tracked(to, [])
    else
      var f := fields[0];
      if Differs(from, to, f) then
        var rest := TrackedMerge(from, Without(to, {f}) + [(f, NodeAt(from, f).value)], fields[1..]);
        Tracked(rest.members, [f] + rest.moved)
      else TrackedMerge(from, to, fields[1..])
  }

  /** The listed fields that differ beforehand, in list order. */
  function Changes(from: seq<Member>, to: seq<Member>, fields: seq<string>): seq<string>
  {
    if fields == [] then []
    else (if Differs(from, to, fields[0]) then [fields[0]] else []) + Changes(from, to, fields[1..])
  }

  /** Specification of `MoveFieldsInObjectNode`: copy every listed field that the
      source has (a JSON null is a value here). */
  function Overwrite(from: seq<Member>, to: seq<Member>, fields: seq<string>): seq<Member>
    decreases |fields|
  {
    if fields == [] then to
    else
      var f := fields[0];
      if Find(from, f).Some? then Overwrite(from, Without(to, {f}) + [(f, Find(from, f).value)], fields[1..])
      else Overwrite(from, to, fields[1..])
  }

  /** The listed fields the source has, in list order. */
  function Present(from: seq<Member>, fields: seq<string>): seq<string>
  {
    if fields == [] then []
    else (if Find(from, fields[0]).Some? then [fields[0]] else []) + Present(from, fields[1..])
  }

  // ---------------------------------------------------------------------------
  // The two merge loops

  /** `MoveFieldsInObjectNodeWithTracking(fromNode, toNode, moveFields)`. */
  method MoveFieldsInObjectNodeWithTracking(from: seq<Member>, to: ObjectNode, fields: seq<string>)
    returns (moved: seq<string>)
    modifies to
    ensures to.members == TrackedMerge(from, old(to.members), fields).members
    ensures moved == TrackedMerge(from, old(to.members), fields).moved
  {
    ghost var goal := TrackedMerge(from, to.members, fields);
    moved := [];
    var i := 0;
    while i < |fields|
      invariant 0 <= i <= |fields|
      invariant TrackedMerge(from, to.members, fields[i..]).members == goal.members
      invariant moved + TrackedMerge(from, to.members, fields[i..]).moved == goal.moved
    {
      var field := fields[i];
      TrackedMergeAt(from, to.members, fields, i);
      var source := NodeAt(from, field);
      if source.Some? && source != NodeAt(to.members, field) {
        RemoveThenPut(to.members, field, source.value);
        to.Remove(field);
        to.Set(field, source.value);
        NamesAssoc(moved, [field], TrackedMerge(from, to.members, fields[i + 1..]).moved);
        moved := moved + [field];
      }
      i := i + 1;
    }
  }

  /** `MoveFieldsInObjectNode(fromNode, toNode, moveFields)`. */
  method MoveFieldsInObjectNode(from: seq<Member>, to: ObjectNode, fields: seq<string>)
    modifies to
    ensures to.members == Overwrite(from, old(to.members), fields)
  {
    var i := 0;
    while i < |fields|
      invariant 0 <= i <= |fields|
      invariant Overwrite(from, to.members, fields[i..]) == Overwrite(from, old(to.members), fields)
    {
      var field := fields[i];
      OverwriteAt(from, to.members, fields, i);
      var source := Find(from, field);
      if source.Some? {
        RemoveThenPut(to.members, field, source.value);
        to.Remove(field);
        to.Set(field, source.value);
      }
      i := i + 1;
    }
  }

  /** The merges unfolded at position `i` of the field list. */
  lemma TrackedMergeAt(from: seq<Member>, ms: seq<Member>, fields: seq<string>, i: int)
    requires 0 <= i < |fields|
    ensures var f := fields[i];
            TrackedMerge(from, ms, fields[i..])
            == if Differs(from, ms, f) then
                 var r := TrackedMerge(from, Without(ms, {f}) + [(f, NodeAt(from, f).value)], fields[i + 1..]);
                 Tracked(r.members, [f] + r.moved)
               else TrackedMerge(from, ms, fields[i + 1..])
  {
    assert fields[i..][0] == fields[i] && fields[i..][1..] == fields[i + 1..];
  }

  lemma OverwriteAt(from: seq<Member>, ms: seq<Member>, fields: seq<string>, i: int)
    requires 0 <= i < |fields|
    ensures var f := fields[i];
            Overwrite(from, ms, fields[i..])
            == if Find(from, f).Some? then Overwrite(from, Without(ms, {f}) + [(f, Find(from, f).value)], fields[i + 1..])
               else Overwrite(from, ms, fields[i + 1..])
  {
    assert fields[i..][0] == fields[i] && fields[i..][1..] == fields[i + 1..];
  }

  lemma NamesAssoc(a: seq<string>, b: seq<string>, c: seq<string>)
    ensures a + b + c == a + (b + c)
  {
  }

  // ---------------------------------------------------------------------------
  // Properties of the tracked merge

  lemma {:induction false} ChangesMembers(from: seq<Member>, to: seq<Member>, fields: seq<string>, f: string)
    ensures f in Changes(from, to, fields) <==> f in fields && Differs(from, to, f)
  {
    if fields != [] {
      ChangesMembers(from, to, fields[1..], f);
    }
  }

  lemma {:induction false} ChangesNoDup(from: seq<Member>, to: seq<Member>, fields: seq<string>)
    requires NoDup(fields)
    ensures NoDup(Changes(from, to, fields))
  {
    if fields != [] {
      ChangesNoDup(from, to, fields[1..]);
      ChangesMembers(from, to, fields[1..], fields[0]);
    }
  }

  /** The destination once the names in `done` have been moved: the members of
      `to` not in `done`, in order, then the moved entries in the order moved. */
  function Staged(from: seq<Member>, to: seq<Member>, done: seq<string>): seq<Member>
  {
    Without(to, Elements(done)) + Entries(from, done)
  }

  /** The closed form, with the names already moved (`done`) still pending
      in the state. */
  lemma {:induction false} TrackedMergeFrom(from: seq<Member>, to: seq<Member>, done: seq<string>, fields: seq<string>)
    requires NoDup(fields)
    requires forall f :: f in fields ==> f !in done
    ensures var m := Changes(from, to, fields);
            TrackedMerge(from, Staged(from, to, done), fields) == Tracked(Staged(from, to, done + m), m)
    decreases |fields|
  {
    if fields == [] {
      assert done + [] == done;
    } else {
      var f := fields[0];
      forall g | g in fields[1..] ensures g !in done + [f] { }
      StateAgrees(from, to, done, f);
      var m' := Changes(from, to, fields[1..]);
      assert NodeAt(Staged(from, to, done), f) == NodeAt(to, f);
      if Differs(from, to, f) {
        TrackedMergeFrom(from, to, done + [f], fields[1..]);
        assert fields == [f] + fields[1..];
        TrackedMergeMoves(from, to, done, f, fields[1..]);
      } else {
        assert TrackedMerge(from, Staged(from, to, done), fields)
            == TrackedMerge(from, Staged(from, to, done), fields[1..]);
        assert Changes(from, to, fields) == m';
        TrackedMergeFrom(from, to, done, fields[1..]);
      }
    }
  }

  /** One unfolding of the tracked merge on a staged state whose first field differs. */
  lemma TrackedMergeMoves(from: seq<Member>, to: seq<Member>, done: seq<string>, f: string, rest: seq<string>)
    requires f !in done && Differs(from, to, f)
    requires Find(Staged(from, to, done), f) == Find(to, f)
    requires var m' := Changes(from, to, rest);
             TrackedMerge(from, Staged(from, to, done + [f]), rest)
             == Tracked(Staged(from, to, done + [f] + m'), m')
    ensures var m := Changes(from, to, [f] + rest);
            TrackedMerge(from, Staged(from, to, done), [f] + rest) == Tracked(Staged(from, to, done + m), m)
  {
    var m', m := Changes(from, to, rest), Changes(from, to, [f] + rest);
    MoveStep(from, to, done, f, NodeAt(from, f).value);
    ChangesCons(from, to, f, rest);
    StagedAssoc(from, to, done, f, m');
    TrackedMergeCons(from, Staged(from, to, done), Staged(from, to, done + [f]), f, rest,
                     Staged(from, to, done + [f] + m'), m');
  }

  /** Unfolding the tracked merge once on a field that differs. */
  lemma TrackedMergeCons(from: seq<Member>, s: seq<Member>, s': seq<Member>, f: string, rest: seq<string>,
                         after: seq<Member>, moved: seq<string>)
    requires NodeAt(from, f).Some? && NodeAt(from, f) != NodeAt(s, f)
    requires s' == Without(s, {f}) + [(f, NodeAt(from, f).value)]
    requires TrackedMerge(from, s', rest) == Tracked(after, moved)
    ensures TrackedMerge(from, s, [f] + rest) == Tracked(after, [f] + moved)
  {
    assert ([f] + rest)[0] == f && ([f] + rest)[1..] == rest;
  }

  lemma ChangesCons(from: seq<Member>, to: seq<Member>, f: string, rest: seq<string>)
    ensures Changes(from, to, [f] + rest) == (if Differs(from, to, f) then [f] else []) + Changes(from, to, rest)
  {
    assert ([f] + rest)[0] == f && ([f] + rest)[1..] == rest;
  }

  lemma StagedAssoc(from: seq<Member>, to: seq<Member>, done: seq<string>, f: string, later: seq<string>)
    ensures Staged(from, to, done + [f] + later) == Staged(from, to, done + ([f] + later))
  {
    assert done + [f] + later == done + ([f] + later);
  }

  /** While `f` is still pending, the staged state holds `to`'s value for it. */
  lemma StateAgrees(from: seq<Member>, to: seq<Member>, done: seq<string>, f: string)
    requires f !in done
    ensures Find(Staged(from, to, done), f) == Find(to, f)
  {
    FindAppend(Without(to, Elements(done)), Entries(from, done), f);
    FindWithout(to, Elements(done), f);
    FindEntries(from, done, f);
  }

  /** Moving one more pending field `f` (with the source's value) extends `done` by `f`. */
  lemma MoveStep(from: seq<Member>, to: seq<Member>, done: seq<string>, f: string, v: Json)
    requires f !in done && Find(from, f) == Some(v)
    ensures Without(Staged(from, to, done), {f}) + [(f, v)] == Staged(from, to, done + [f])
  {
    var a, b := Without(to, Elements(done)), Entries(from, done);
    WithoutAppend(a, b, {f});
    WithoutWithout(to, Elements(done), {f});
    WithoutEntries(from, done, {f});
    ElementsSnoc(done, f);
    EntriesAppend(from, done, f);
    MembersAssoc(Without(to, Elements(done + [f])), b, [(f, v)]);
  }

  lemma ElementsSnoc(ks: seq<string>, k: string)
    ensures Elements(ks) + {k} == Elements(ks + [k])
  {
  }

  lemma MembersAssoc(a: seq<Member>, b: seq<Member>, c: seq<Member>)
    ensures a + b + c == a + (b + c)
  {
  }

  /** The tracked merge in closed form: the copied fields are exactly the
      listed ones that differed beforehand, in list order; the untouched
      members keep their relative order and come first, and the copied
      members follow them in the order they were copied. */
  lemma TrackedMergeClosedForm(from: seq<Member>, to: seq<Member>, fields: seq<string>)
    requires NoDup(fields)
    ensures var m := Changes(from, to, fields);
            TrackedMerge(from, to, fields) == Tracked(Without(to, Elements(m)) + Entries(from, m), m)
  {
    WithoutEmpty(to);
    assert Without(to, Elements([])) + Entries(from, []) == to by { assert Elements([]) == {}; }
    TrackedMergeFrom(from, to, [], fields);
    assert [] + Changes(from, to, fields) == Changes(from, to, fields);
  }

  /** What a tracked merge leaves behind: every key that was not copied keeps
      its old value (keys not listed, keys whose source value is missing or
      null, keys already deep-equal), and every copied key holds the source's value. */
  lemma {:induction false} TrackedMergeValues(from: seq<Member>, to: seq<Member>, fields: seq<string>, k: string)
    ensures var r := TrackedMerge(from, to, fields);
            Find(r.members, k) == if k in fields && Differs(from, to, k) then Find(from, k) else Find(to, k)
    decreases |fields|
  {
    if fields != [] {
      var f := fields[0];
      if Differs(from, to, f) {
        var to' := Without(to, {f}) + [(f, NodeAt(from, f).value)];
        FindAppend(Without(to, {f}), [(f, NodeAt(from, f).value)], k);
        FindWithout(to, {f}, k);
        TrackedMergeValues(from, to', fields[1..], k);
      } else {
        TrackedMergeValues(from, to, fields[1..], k);
      }
    }
  }

  /** After a tracked merge every listed field whose source value is not null
      is deep-equal to that source value in the destination. */
  lemma {:induction false} TrackedMergeCopies(from: seq<Member>, to: seq<Member>, fields: seq<string>, f: string)
    requires f in fields && NodeAt(from, f).Some?
    ensures NodeAt(TrackedMerge(from, to, fields).members, f) == NodeAt(from, f)
    decreases |fields|
  {
    var g := fields[0];
    assert f != g ==> f in fields[1..];
    if Differs(from, to, g) {
      var to' := Without(to, {g}) + [(g, NodeAt(from, g).value)];
      if f == g {
        FindAppend(Without(to, {g}), [(g, NodeAt(from, g).value)], f);
        FindWithout(to, {g}, f);
        TrackedMergeKeepsSettled(from, to', fields[1..], f);
      } else {
        TrackedMergeCopies(from, to', fields[1..], f);
      }
    } else if f == g {
      TrackedMergeKeepsSettled(from, to, fields[1..], f);
    } else {
      TrackedMergeCopies(from, to, fields[1..], f);
    }
  }

  /** A key already holding the source's (non-null) value keeps it. */
  lemma {:induction false} TrackedMergeKeepsSettled(from: seq<Member>, to: seq<Member>, fields: seq<string>, f: string)
    requires NodeAt(from, f).Some? && NodeAt(to, f) == NodeAt(from, f)
    ensures NodeAt(TrackedMerge(from, to, fields).members, f) == NodeAt(from, f)
    decreases |fields|
  {
    if fields != [] {
      var g := fields[0];
      if Differs(from, to, g) {
        var to' := Without(to, {g}) + [(g, NodeAt(from, g).value)];
        FindAppend(Without(to, {g}), [(g, NodeAt(from, g).value)], f);
        FindWithout(to, {g}, f);
        TrackedMergeKeepsSettled(from, to', fields[1..], f);
      } else {
        TrackedMergeKeepsSettled(from, to, fields[1..], f);
      }
    }
  }

  /** A merge in which nothing differs copies nothing and changes nothing. */
  lemma {:induction false} TrackedMergeSettled(from: seq<Member>, to: seq<Member>, fields: seq<string>)
    requires forall f :: f in fields ==> !Differs(from, to, f)
    ensures TrackedMerge(from, to, fields) == Tracked(to, [])
    decreases |fields|
  {
    if fields != [] {
      TrackedMergeSettled(from, to, fields[1..]);
    }
  }

  /** A merge that reports no copied field left the destination as it was. */
  lemma {:induction false} TrackedMergeQuiet(from: seq<Member>, to: seq<Member>, fields: seq<string>)
    requires TrackedMerge(from, to, fields).moved == []
    ensures TrackedMerge(from, to, fields).members == to
    decreases |fields|
  {
    if fields != [] && !Differs(from, to, fields[0]) {
      TrackedMergeQuiet(from, to, fields[1..]);
    }
  }

  /** Idempotence: merging the same source again copies nothing and leaves the
      destination unchanged, so the second call returns an empty list. */
  lemma TrackedMergeIdempotent(from: seq<Member>, to: seq<Member>, fields: seq<string>)
    ensures var r := TrackedMerge(from, to, fields);
            TrackedMerge(from, r.members, fields) == Tracked(r.members, [])
  {
    var r := TrackedMerge(from, to, fields);
    forall f | f in fields ensures !Differs(from, r.members, f) {
      if NodeAt(from, f).Some? {
        TrackedMergeCopies(from, to, fields, f);
      }
    }
    TrackedMergeSettled(from, r.members, fields);
  }

  /** A destination without duplicate keys keeps that property. */
  lemma TrackedMergeUniqueKeys(from: seq<Member>, to: seq<Member>, fields: seq<string>)
    requires UniqueKeys(to) && NoDup(fields)
    ensures UniqueKeys(TrackedMerge(from, to, fields).members)
  {
    var m := Changes(from, to, fields);
    TrackedMergeClosedForm(from, to, fields);
    ChangesNoDup(from, to, fields);
    AppendEntriesUnique(from, to, m);
  }

  lemma AppendEntriesUnique(from: seq<Member>, to: seq<Member>, m: seq<string>)
    requires UniqueKeys(to) && NoDup(m)
    ensures UniqueKeys(Without(to, Elements(m)) + Entries(from, m))
  {
    var a: seq<Member> := Without(to, Elements(m));
    var b: seq<Member> := Entries(from, m);
    WithoutUnique(to, Elements(m));
    WithoutKeys(to, Elements(m));
    forall i, j | 0 <= i < j < |a + b|
      ensures (a + b)[i].0 != (a + b)[j].0
    {
      if i < |a| && j >= |a| {
        assert a[i].0 in Keys(a) by { assert Keys(a)[i] == a[i].0; }
        assert b[j - |a|].0 == m[j - |a|];
      }
    }
  }

  // ---------------------------------------------------------------------------
  // Properties of the overwrite merge

  lemma {:induction false} PresentMembers(from: seq<Member>, fields: seq<string>, f: string)
    ensures f in Present(from, fields) <==> f in fields && Find(from, f).Some?
  {
    if fields != [] {
      PresentMembers(from, fields[1..], f);
    }
  }

  lemma {:induction false} OverwriteFrom(from: seq<Member>, to: seq<Member>, done: seq<string>, fields: seq<string>)
    requires NoDup(fields)
    requires forall f :: f in fields ==> f !in done
    ensures var p := Present(from, fields);
            Overwrite(from, Staged(from, to, done), fields) == Staged(from, to, done + p)
    decreases |fields|
  {
    if fields == [] {
      assert done + [] == done;
    } else {
      var f := fields[0];
      forall g | g in fields[1..] ensures g !in done + [f] { }
      var p' := Present(from, fields[1..]);
      if Find(from, f).Some? {
        OverwriteFrom(from, to, done + [f], fields[1..]);
        assert fields == [f] + fields[1..];
        OverwriteMoves(from, to, done, f, fields[1..]);
      } else {
        OverwriteFrom(from, to, done, fields[1..]);
        assert Present(from, fields) == p';
      }
    }
  }

  /** The inductive step of `OverwriteFrom` when the source has the first field. */
  lemma OverwriteMoves(from: seq<Member>, to: seq<Member>, done: seq<string>, f: string, rest: seq<string>)
    requires f !in done && Find(from, f).Some?
    requires var p' := Present(from, rest);
             Overwrite(from, Staged(from, to, done + [f]), rest) == Staged(from, to, done + [f] + p')
    ensures Overwrite(from, Staged(from, to, done), [f] + rest) == Staged(from, to, done + Present(from, [f] + rest))
  {
    var p' := Present(from, rest);
    MoveStep(from, to, done, f, Find(from, f).value);
    OverwriteCons(from, Staged(from, to, done), f, rest);
    PresentCons(from, f, rest);
    StagedAssoc(from, to, done, f, p');
  }

  /** Unfolding the overwrite merge once on a field the source has. */
  lemma OverwriteCons(from: seq<Member>, s: seq<Member>, f: string, rest: seq<string>)
    requires Find(from, f).Some?
    ensures Overwrite(from, s, [f] + rest) == Overwrite(from, Without(s, {f}) + [(f, Find(from, f).value)], rest)
  {
    assert ([f] + rest)[0] == f && ([f] + rest)[1..] == rest;
  }

  lemma PresentCons(from: seq<Member>, f: string, rest: seq<string>)
    ensures Present(from, [f] + rest) == (if Find(from, f).Some? then [f] else []) + Present(from, rest)
  {
    assert ([f] + rest)[0] == f && ([f] + rest)[1..] == rest;
  }

  /** The overwrite merge in closed form: the members not copied keep their
      order and come first, then every listed field the source has, in list order. */
  lemma OverwriteClosedForm(from: seq<Member>, to: seq<Member>, fields: seq<string>)
    requires NoDup(fields)
    ensures var p := Present(from, fields);
            Overwrite(from, to, fields) == Without(to, Elements(p)) + Entries(from, p)
  {
    WithoutEmpty(to);
    assert Without(to, Elements([])) + Entries(from, []) == to by { assert Elements([]) == {}; }
    OverwriteFrom(from, to, [], fields);
    assert [] + Present(from, fields) == Present(from, fields);
  }

  /** After an overwrite merge a listed field the source has equals the source's
      value; every other destination key is unchanged. */
  lemma {:induction false} OverwriteValues(from: seq<Member>, to: seq<Member>, fields: seq<string>, k: string)
    ensures Find(Overwrite(from, to, fields), k)
            == if k in fields && Find(from, k).Some? then Find(from, k) else Find(to, k)
    decreases |fields|
  {
    if fields != [] {
      var f := fields[0];
      if Find(from, f).Some? {
        var to' := Without(to, {f}) + [(f, Find(from, f).value)];
        FindAppend(Without(to, {f}), [(f, Find(from, f).value)], k);
        FindWithout(to, {f}, k);
        OverwriteValues(from, to', fields[1..], k);
      } else {
        OverwriteValues(from, to, fields[1..], k);
      }
    }
  }

  /** Overwriting a second time with the same source gives the same document. */
  lemma OverwriteIdempotent(from: seq<Member>, to: seq<Member>, fields: seq<string>)
    requires NoDup(fields)
    ensures Overwrite(from, Overwrite(from, to, fields), fields) == Overwrite(from, to, fields)
  {
    var p := Present(from, fields);
    OverwriteClosedForm(from, to, fields);
    OverwriteClosedForm(from, Overwrite(from, to, fields), fields);
    StagedAgain(from, to, p);
  }

  /** Staging the same names a second time changes nothing. */
  lemma StagedAgain(from: seq<Member>, to: seq<Member>, p: seq<string>)
    ensures var once := Without(to, Elements(p)) + Entries(from, p);
            Without(once, Elements(p)) + Entries(from, p) == once
  {
    var a, b := Without(to, Elements(p)), Entries(from, p);
    WithoutAppend(a, b, Elements(p));
    WithoutTwice(to, Elements(p));
    EntriesGone(from, p);
    assert a + [] == a;
  }

  lemma WithoutTwice(ms: seq<Member>, ks: set<string>)
    ensures Without(Without(ms, ks), ks) == Without(ms, ks)
  {
    WithoutWithout(ms, ks, ks);
    assert ks + ks == ks;
  }

  lemma EntriesGone(from: seq<Member>, p: seq<string>)
    ensures Without(Entries(from, p), Elements(p)) == []
  {
    WithoutAll(Entries(from, p), Elements(p));
  }

  lemma {:induction false} WithoutAll(ms: seq<Member>, ks: set<string>)
    requires forall i :: 0 <= i < |ms| ==> ms[i].0 in ks
    ensures Without(ms, ks) == []
  {
    if ms != [] {
      WithoutAll(ms[1..], ks);
    }
  }

  /** The tracked merge is the overwrite merge with an equality shortcut: when
      no listed source value is JSON null, both leave every key with the same
      value (they may differ only in key order). */
  lemma TrackedAgreesWithOverwrite(from: seq<Member>, to: seq<Member>, fields: seq<string>, k: string)
    requires forall f :: f in fields ==> Find(from, f) != Some(JNull)
    ensures Find(TrackedMerge(from, to, fields).members, k) == Find(Overwrite(from, to, fields), k)
  {
    TrackedMergeValues(from, to, fields, k);
    OverwriteValues(from, to, fields, k);
  }
}
