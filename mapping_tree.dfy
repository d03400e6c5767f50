/**
 * Stage 3 of the mapping compiler (fhirpath_helpers/elasticsearch/mapping.py): the
 * field mapping of one resource, built from its triples with the type table, and the
 * per-resource loop of `generate_mappings` that adds the `resourceType` field.
 */
module MappingTree {
  import opened Results
  import opened Text
  import opened Dicts
  import opened Descriptors
  import opened ElementPaths
  import opened ElementGroups
  import opened Seqs

  /** The code of a structure defined inline, mapped from its own children. */
  const BackboneElement: string := "BackboneElement"

  /** Type codes that are left out of the mapping when the type table has no entry for them. */
  const IgnoredTypes: seq<string> := [
    "markdown", "UsageContext", "TriggerDefinition", "DataRequirement", "ParameterDefinition",
    "MarketingStatus", "ProdCharacteristic", "SampledData", "Contributor", "ElementDefinition",
    "ProductShelfLife", "Resource", "Extension", "SubstanceAmount"
  ]

  const CodeKey: string := "code"
  const ResourceTypeKey: string := "resourceType"

  /** The key a group's field is stored under: the last dot-segment of its path. */
  function Name(g: Group): string {
    LastSegment(g.head.path, '.')
  }

  /** The group yields a field: its code is in the table or is `BackboneElement`. */
  predicate Kept(g: Group, table: TypeTable) {
    g.head.code in table || g.head.code == BackboneElement
  }

  /** `create_resource_mapping(ts, table)` */
  function Mappings(ts: seq<PathTriple>, table: TypeTable): Result<Mapping>
    decreases |ts|, 2, 0
  {
    MapGroups(Groups(ts), table, |ts|, [])
  }

  /** The loop of `create_resource_mapping` over the groups `gs`, from the mapping `acc` on. */
  function MapGroups(gs: seq<Group>, table: TypeTable, bound: nat, acc: Mapping): Result<Mapping>
    requires forall g :: g in gs ==> |g.children| < bound
    decreases bound, 1, |gs|
  {
    if gs == [] then Success(acc)
    else
      var f := Field(gs[0], table, bound);
      if f.Failure? then Failure(f.error)
      else if f.value.None? then MapGroups(gs[1..], table, bound, acc)
      else MapGroups(gs[1..], table, bound, Put(acc, Name(gs[0]), f.value.value))
  }

  /**
   * The descriptor of one group, or None when the field is left out. A table hit is a
   * copy of the table entry; a `BackboneElement` missing from the table is a nested
   * object mapped from the group's children; an ignored code is left out; any other
   * code raises KeyError. A repeated field whose descriptor has no `type` gets
   * `"type": "nested"`.
   */
  function Field(g: Group, table: TypeTable, bound: nat): Result<Option<Descriptor>>
    requires |g.children| < bound
    decreases bound, 0, 0
  {
    if g.head.code in table then Success(Some(Tagged(table[g.head.code], g.head.multiple)))
    else if g.head.code == BackboneElement then
      var properties := Mappings(g.children, table);
      if properties.Failure? then Failure(properties.error)
      else Success(Some(Tagged(NestedDescriptor(properties.value), g.head.multiple)))
    else if g.head.code in IgnoredTypes then Success(None)
    else Failure(KeyError(g.head.code))
  }

  /**
   * A group yields a field exactly when it is kept; only an unknown code or a failing
   * `BackboneElement` raises, and an unknown code raises KeyError with that code. A
   * table hit that needs no tagging is the table's descriptor, and a repeated field's
   * descriptor always has `type`.
   */
  lemma FieldSpec(g: Group, table: TypeTable, bound: nat)
    requires |g.children| < bound
    ensures var r := Field(g, table, bound);
      && (r.Success? ==> (r.value.Some? <==> Kept(g, table)))
      && (r.Failure? ==> g.head.code !in table && (g.head.code == BackboneElement || g.head.code !in IgnoredTypes))
      && (g.head.code !in table && g.head.code != BackboneElement && g.head.code !in IgnoredTypes ==>
            r == Failure(KeyError(g.head.code)))
      && (g.head.code in table && (!g.head.multiple || HasKey(table[g.head.code], "type")) ==>
            r == Success(Some(table[g.head.code])))
      && (r.Success? && r.value.Some? && g.head.multiple ==> HasKey(r.value.value, "type"))
  {
  }

  // ---------------------------------------------------------------------------
  // What the loop builds

  /** The names of the kept groups, in order. */
  function KeptNames(gs: seq<Group>, table: TypeTable): seq<string>
  {
    if gs == [] then []
    else (if Kept(gs[0], table) then [Name(gs[0])] else []) + KeptNames(gs[1..], table)
  }

  /** `names` added to `ks` one by one, each only if not already there: first-encounter order. */
  function AddNames(ks: seq<string>, names: seq<string>): seq<string>
    decreases |names|
  {
    if names == [] then ks
    else AddNames(if names[0] in ks then ks else ks + [names[0]], names[1..])
  }

  /** Adding names keeps what was there, adds every name once and nothing else. */
  lemma {:induction false} AddNamesFacts(ks: seq<string>, names: seq<string>)
    ensures var r := AddNames(ks, names);
      && HasPrefix(r, ks)
      && (forall x :: x in r <==> x in ks || x in names)
      && (Distinct(ks) ==> Distinct(r))
    decreases |names|
  {
    if names != [] {
      var ks' := if names[0] in ks then ks else ks + [names[0]];
      AddNamesFacts(ks', names[1..]);
      assert forall x :: x in names <==> x == names[0] || x in names[1..];
      var r := AddNames(ks, names);
      assert r[..|ks|] == r[..|ks'|][..|ks|];
    }
  }

  /** A mapping's keys in the order the fields were first assigned. */
  lemma {:induction false} MapGroupsKeys(gs: seq<Group>, table: TypeTable, bound: nat, acc: Mapping)
    requires forall g :: g in gs ==> |g.children| < bound
    ensures var r := MapGroups(gs, table, bound, acc);
      r.Success? ==> Keys(r.value) == AddNames(Keys(acc), KeptNames(gs, table))
  {
    if gs != [] {
      var f := Field(gs[0], table, bound);
      assert forall g :: g in gs[1..] ==> g in gs;
      if f.Success? {
        if f.value.None? {
          assert KeptNames(gs, table) == KeptNames(gs[1..], table) by {
            assert [] + KeptNames(gs[1..], table) == KeptNames(gs[1..], table);
          }
          MapGroupsKeys(gs[1..], table, bound, acc);
        } else {
          var acc' := Put(acc, Name(gs[0]), f.value.value);
          MapGroupsKeys(gs[1..], table, bound, acc');
        }
      }
    }
  }

  /** The loop succeeds exactly when every group's field does. */
  lemma {:induction false} MapGroupsSucceeds(gs: seq<Group>, table: TypeTable, bound: nat, acc: Mapping)
    requires forall g :: g in gs ==> |g.children| < bound
    ensures MapGroups(gs, table, bound, acc).Success? <==>
      forall i :: 0 <= i < |gs| ==> Field(gs[i], table, bound).Success?
  {
    if gs != [] {
      var f := Field(gs[0], table, bound);
      assert forall g :: g in gs[1..] ==> g in gs;
      assert forall i :: 1 <= i < |gs| ==> gs[i] == gs[1..][i - 1];
      if f.Success? {
        var acc' := if f.value.None? then acc else Put(acc, Name(gs[0]), f.value.value);
        MapGroupsSucceeds(gs[1..], table, bound, acc');
      }
    }
  }

  /** No kept group among `gs` from position `i` on has the name `k`. */
  predicate NoLaterName(gs: seq<Group>, table: TypeTable, i: int, k: string) {
    forall j :: i <= j < |gs| && 0 <= j ==> !(Kept(gs[j], table) && Name(gs[j]) == k)
  }

  /** The mapping the loop continues from after the first group. */
  function AfterFirst(gs: seq<Group>, table: TypeTable, bound: nat, acc: Mapping): Mapping
    requires gs != [] && |gs[0].children| < bound
    requires Field(gs[0], table, bound).Success?
  {
    var f := Field(gs[0], table, bound);
    if f.value.None? then acc else Put(acc, Name(gs[0]), f.value.value)
  }

  /** A successful loop ran the first group's field and went on from `AfterFirst`. */
  lemma MapGroupsCons(gs: seq<Group>, table: TypeTable, bound: nat, acc: Mapping)
    requires forall g :: g in gs ==> |g.children| < bound
    requires gs != [] && MapGroups(gs, table, bound, acc).Success?
    ensures Field(gs[0], table, bound).Success?
    ensures forall g :: g in gs[1..] ==> |g.children| < bound
    ensures MapGroups(gs, table, bound, acc) == MapGroups(gs[1..], table, bound, AfterFirst(gs, table, bound, acc))
  {
    assert forall g :: g in gs[1..] ==> g in gs;
  }

  lemma NoLaterShift(gs: seq<Group>, table: TypeTable, i: nat, k: string)
    requires gs != [] && NoLaterName(gs, table, i + 1, k)
    ensures NoLaterName(gs[1..], table, i, k)
  {
    assert forall j :: 0 <= j < |gs| - 1 ==> gs[1..][j] == gs[j + 1];
  }

  /** A key of `acc` that no kept group names keeps its value. */
  lemma {:induction false} MapGroupsKeepsAcc(gs: seq<Group>, table: TypeTable, bound: nat, acc: Mapping, k: string)
    requires forall g :: g in gs ==> |g.children| < bound
    requires HasKey(acc, k) && NoLaterName(gs, table, 0, k)
    ensures var r := MapGroups(gs, table, bound, acc);
      r.Success? ==> HasKey(r.value, k) && Get(r.value, k) == Get(acc, k)
  {
    if gs != [] && MapGroups(gs, table, bound, acc).Success? {
      MapGroupsCons(gs, table, bound, acc);
      NoLaterShift(gs, table, 0, k);
      var f := Field(gs[0], table, bound);
      var acc' := AfterFirst(gs, table, bound, acc);
      assert HasKey(acc', k) && Get(acc', k) == Get(acc, k) by {
        if f.value.Some? {
          assert Name(gs[0]) != k;
          PutGet(acc, Name(gs[0]), f.value.value);
        }
      }
      MapGroupsKeepsAcc(gs[1..], table, bound, acc', k);
    }
  }

  /** A kept first group whose name no later kept group reuses keeps its descriptor to the end. */
  lemma FirstLastWins(gs: seq<Group>, table: TypeTable, bound: nat, acc: Mapping)
    requires forall g :: g in gs ==> |g.children| < bound
    requires gs != [] && Kept(gs[0], table) && NoLaterName(gs, table, 1, Name(gs[0]))
    requires MapGroups(gs, table, bound, acc).Success?
    ensures var r := MapGroups(gs, table, bound, acc);
      && Field(gs[0], table, bound).Success? && Field(gs[0], table, bound).value.Some?
      && HasKey(r.value, Name(gs[0]))
      && Get(r.value, Name(gs[0])) == Field(gs[0], table, bound).value.value
  {
    MapGroupsCons(gs, table, bound, acc);
    var d := Field(gs[0], table, bound).value.value;
    var acc' := Put(acc, Name(gs[0]), d);
    assert AfterFirst(gs, table, bound, acc) == acc';
    NoLaterShift(gs, table, 0, Name(gs[0]));
    PutGet(acc, Name(gs[0]), d);
    MapGroupsKeepsAcc(gs[1..], table, bound, acc', Name(gs[0]));
  }

  /** The value under a name is the descriptor of the last kept group with that name. */
  lemma {:induction false} MapGroupsLastWins(gs: seq<Group>, table: TypeTable, bound: nat, acc: Mapping, i: nat)
    requires forall g :: g in gs ==> |g.children| < bound
    requires i < |gs| && Kept(gs[i], table) && NoLaterName(gs, table, i + 1, Name(gs[i]))
    ensures var r := MapGroups(gs, table, bound, acc);
      r.Success? ==>
        && Field(gs[i], table, bound).Success? && Field(gs[i], table, bound).value.Some?
        && HasKey(r.value, Name(gs[i]))
        && Get(r.value, Name(gs[i])) == Field(gs[i], table, bound).value.value
  {
    if MapGroups(gs, table, bound, acc).Success? {
      MapGroupsCons(gs, table, bound, acc);
      var acc' := AfterFirst(gs, table, bound, acc);
      if i == 0 {
        FirstLastWins(gs, table, bound, acc);
      } else {
        DropIndex(gs, i);
        NoLaterShift(gs, table, i, Name(gs[i]));
        MapGroupsLastWins(gs[1..], table, bound, acc', i - 1);
      }
    }
  }

  /**
   * `create_resource_mapping` succeeds exactly when every group's field does, so a
   * group with an unknown code makes it raise. On success, the keys are the names of
   * the kept groups in first-encounter order, each once, and the value under each key
   * is the descriptor of the last kept group with that name.
   */
  lemma MappingsResult(ts: seq<PathTriple>, table: TypeTable)
    ensures var gs := Groups(ts);
      Mappings(ts, table).Success? <==> forall i :: 0 <= i < |gs| ==> Field(gs[i], table, |ts|).Success?
    ensures var gs := Groups(ts); var r := Mappings(ts, table);
      r.Success? ==>
        && Keys(r.value) == AddNames([], KeptNames(gs, table))
        && UniqueKeys(r.value)
        && (forall i :: 0 <= i < |gs| && Kept(gs[i], table) && NoLaterName(gs, table, i + 1, Name(gs[i])) ==>
              && Field(gs[i], table, |ts|).Success? && Field(gs[i], table, |ts|).value.Some?
              && HasKey(r.value, Name(gs[i]))
              && Get(r.value, Name(gs[i])) == Field(gs[i], table, |ts|).value.value)
  {
    var gs := Groups(ts);
    var r := Mappings(ts, table);
    MapGroupsSucceeds(gs, table, |ts|, []);
    MapGroupsKeys(gs, table, |ts|, []);
    if r.Success? {
      forall i | 0 <= i < |gs| && Kept(gs[i], table) && NoLaterName(gs, table, i + 1, Name(gs[i]))
        ensures Field(gs[i], table, |ts|).Success? && Field(gs[i], table, |ts|).value.Some?
        ensures HasKey(r.value, Name(gs[i])) && Get(r.value, Name(gs[i])) == Field(gs[i], table, |ts|).value.value
      {
        MapGroupsLastWins(gs, table, |ts|, [], i);
      }
      AddNamesFacts([], KeptNames(gs, table));
      forall a, b | 0 <= a < b < |r.value| ensures r.value[a].0 != r.value[b].0 {
        assert Keys(r.value)[a] == r.value[a].0 && Keys(r.value)[b] == r.value[b].0;
      }
    }
  }

  /** A group whose code is neither in the table, nor `BackboneElement`, nor ignored makes the mapping raise KeyError. */
  lemma UnknownCodeFails(ts: seq<PathTriple>, table: TypeTable, g: Group)
    requires g in Groups(ts)
    requires g.head.code !in table && g.head.code != BackboneElement && g.head.code !in IgnoredTypes
    ensures Mappings(ts, table).Failure?
  {
    MappingsResult(ts, table);
    var gs := Groups(ts);
    var i :| 0 <= i < |gs| && gs[i] == g;
    assert Field(gs[i], table, |ts|).Failure?;
  }

  /** In a successful mapping, every repeated field's descriptor has a `type` key. */
  lemma RepeatedFieldsTyped(ts: seq<PathTriple>, table: TypeTable, i: nat)
    requires i < |Groups(ts)|
    requires var g := Groups(ts)[i];
      Kept(g, table) && g.head.multiple && NoLaterName(Groups(ts), table, i + 1, Name(g))
    ensures var r := Mappings(ts, table);
      r.Success? ==> HasKey(r.value, Name(Groups(ts)[i])) && HasKey(Get(r.value, Name(Groups(ts)[i])), "type")
  {
    MappingsResult(ts, table);
  }

  // ---------------------------------------------------------------------------
  // The imperative code

  /** One round of the loop over the groups, from position `i`. */
  lemma MapGroupsAt(gs: seq<Group>, i: nat, table: TypeTable, bound: nat, acc: Mapping)
    requires i < |gs| && forall g :: g in gs[i..] ==> |g.children| < bound
    ensures |gs[i].children| < bound && forall g :: g in gs[i + 1..] ==> |g.children| < bound
    ensures var f := Field(gs[i], table, bound);
      MapGroups(gs[i..], table, bound, acc) ==
        if f.Failure? then Failure(f.error)
        else if f.value.None? then MapGroups(gs[i + 1..], table, bound, acc)
        else MapGroups(gs[i + 1..], table, bound, Put(acc, Name(gs[i]), f.value.value))
  {
    assert gs[i..][0] == gs[i] && gs[i..][1..] == gs[i + 1..];
    assert forall x :: x in gs[i + 1..] ==> x in gs[i..];
  }

  /**
   * The field of a table hit is the table's descriptor under the multiplicity rule. A
   * `BackboneElement` missing from the table raises exactly when its children's mapping
   * does, and otherwise is `{"type": "nested", "properties": ...}` holding that mapping.
   */
  lemma FieldCases(g: Group, table: TypeTable, bound: nat)
    requires |g.children| < bound
    ensures g.head.code in table ==> Field(g, table, bound) == Success(Some(Tagged(table[g.head.code], g.head.multiple)))
    ensures g.head.code !in table && g.head.code == BackboneElement ==>
      var p := Mappings(g.children, table);
      var r := Field(g, table, bound);
      && (r.Failure? <==> p.Failure?)
      && (r.Failure? ==> r.error == p.error)
      && (r.Success? ==>
            && r.value == Some(Tagged(NestedDescriptor(p.value), g.head.multiple))
            && Keys(r.value.value) == ["type", "properties"]
            && Get(r.value.value, "type") == Str("nested")
            && Get(r.value.value, "properties") == PropertiesJson(p.value))
  {
  }

  /**
   * `create_resource_mapping`: iterates the groups, fills `mapped` by key, recursing
   * into the children of a `BackboneElement`.
   */
  method CreateResourceMapping(ts: seq<PathTriple>, table: TypeTable) returns (r: Result<Mapping>)
    ensures r == Mappings(ts, table)
    decreases |ts|
  {
    var gs := IterateElements(ts);
    var mapped: Mapping := [];
    var i := 0;
    while i < |gs|
      invariant 0 <= i <= |gs|
      invariant forall g :: g in gs[i..] ==> |g.children| < |ts|
      invariant Mappings(ts, table) == MapGroups(gs[i..], table, |ts|, mapped)
    {
      var g := gs[i];
      MapGroupsAt(gs, i, table, |ts|, mapped);
      var path, code, multiple, children := g.head.path, g.head.code, g.head.multiple, g.children;
      var name := LastSegment(path, '.');
      var map_: Descriptor;
      if code in table {
        map_ := table[code];
        FieldCases(g, table, |ts|);
      } else if code == BackboneElement {
        var properties := CreateResourceMapping(children, table);
        FieldCases(g, table, |ts|);
        if properties.Failure? {
          return Failure(properties.error);
        }
        map_ := [("type", Str("nested")), ("properties", PropertiesJson(properties.value))];
        assert map_ == NestedDescriptor(properties.value);
      } else if code in IgnoredTypes {
        i := i + 1;
        continue;
      } else {
        return Failure(KeyError(code));
      }
      ghost var untagged := map_;
      if multiple && !HasKey(map_, "type") {
        map_ := Put(map_, "type", Str("nested"));
      }
      assert map_ == Tagged(untagged, multiple);
      mapped := Put(mapped, name, map_);
      i := i + 1;
    }
    r := Success(mapped);
  }

  // ---------------------------------------------------------------------------
  // generate_mappings, lines 53-63

  /** A resource mapping with `resourceType` set to the table's `code` descriptor. */
  function WithResourceType(m: Mapping, table: TypeTable): Mapping
    requires CodeKey in table
  {
    Put(m, ResourceTypeKey, table[CodeKey])
  }

  /**
   * The mappings of every resource, in order: its own mapping, with `resourceType`;
   * the first mapping that raises stops it, and a missing `code` entry raises KeyError
   * once the first mapping is built.
   */
  function ResourceMappings(paths: Dict<seq<PathTriple>>, table: TypeTable): Result<Dict<Mapping>>
  {
    if paths == [] then Success([])
    else
      var m := Mappings(paths[0].1, table);
      if m.Failure? then Failure(m.error)
      else if CodeKey !in table then Failure(KeyError(CodeKey))
      else
        var rest := ResourceMappings(paths[1..], table);
        if rest.Failure? then rest
        else Success([(paths[0].0, WithResourceType(m.value, table))] + rest.value)
  }

  /** `entry` is the mapping built for the resource entry `p`. */
  predicate MappedResource(entry: (string, Mapping), p: (string, seq<PathTriple>), table: TypeTable) {
    && entry.0 == p.0
    && Mappings(p.1, table).Success? && CodeKey in table
    && entry.1 == WithResourceType(Mappings(p.1, table).value, table)
  }

  lemma {:induction false} ResourceMappingsPairs(paths: Dict<seq<PathTriple>>, table: TypeTable)
    ensures var r := ResourceMappings(paths, table);
      r.Success? ==> |r.value| == |paths| && forall i :: 0 <= i < |paths| ==> MappedResource(r.value[i], paths[i], table)
  {
    var r := ResourceMappings(paths, table);
    if paths != [] && r.Success? {
      var m := Mappings(paths[0].1, table);
      var rest := ResourceMappings(paths[1..], table);
      assert m.Success? && CodeKey in table && rest.Success?;
      var head := (paths[0].0, WithResourceType(m.value, table));
      assert r.value == [head] + rest.value;
      assert paths == [paths[0]] + paths[1..];
      ResourceMappingsPairs(paths[1..], table);
      forall i | 0 <= i < |paths| ensures MappedResource(r.value[i], paths[i], table) {
        if i == 0 {
          assert r.value[0] == head;
        } else {
          ConsIndex(head, rest.value, i);
          ConsIndex(paths[0], paths[1..], i);
          assert MappedResource(rest.value[i - 1], paths[1..][i - 1], table);
        }
      }
    }
  }

  /**
   * Setting `resourceType` makes it the table's `code` descriptor, in place when the
   * mapping has that field and last otherwise, and changes no other field.
   */
  lemma WithResourceTypeFields(m: Mapping, table: TypeTable)
    requires CodeKey in table
    ensures var w := WithResourceType(m, table);
      && HasKey(w, ResourceTypeKey) && Get(w, ResourceTypeKey) == table[CodeKey]
      && Keys(w) == (if HasKey(m, ResourceTypeKey) then Keys(m) else Keys(m) + [ResourceTypeKey])
      && (forall k :: k != ResourceTypeKey && HasKey(m, k) ==> Get(w, k) == Get(m, k))
  {
    PutGet(m, ResourceTypeKey, table[CodeKey]);
  }

  /**
   * Every resource gets one mapping, in order, under its own name: its field mapping
   * with a `resourceType` field equal to the table's `code` descriptor, which replaces
   * a field of that name in place and otherwise comes last; no other field changes.
   */
  lemma ResourceMappingsEntries(paths: Dict<seq<PathTriple>>, table: TypeTable)
    ensures var r := ResourceMappings(paths, table);
      r.Success? ==>
        && Keys(r.value) == Keys(paths)
        && (paths != [] ==> CodeKey in table)
        && forall i :: 0 <= i < |paths| ==>
             && Mappings(paths[i].1, table).Success?
             && var m := Mappings(paths[i].1, table).value;
                && HasKey(r.value[i].1, ResourceTypeKey)
                && Get(r.value[i].1, ResourceTypeKey) == table[CodeKey]
                && Keys(r.value[i].1) == (if HasKey(m, ResourceTypeKey) then Keys(m) else Keys(m) + [ResourceTypeKey])
                && (forall k :: k != ResourceTypeKey && HasKey(m, k) ==> Get(r.value[i].1, k) == Get(m, k))
  {
    var r := ResourceMappings(paths, table);
    if r.Success? {
      ResourceMappingsPairs(paths, table);
      assert Keys(r.value) == Keys(paths) by {
        forall i | 0 <= i < |paths| ensures Keys(r.value)[i] == Keys(paths)[i] {
          assert MappedResource(r.value[i], paths[i], table);
        }
      }
      if paths != [] {
        assert MappedResource(r.value[0], paths[0], table);
      }
      forall i | 0 <= i < |paths|
        ensures
          && Mappings(paths[i].1, table).Success?
          && var m := Mappings(paths[i].1, table).value;
             && HasKey(r.value[i].1, ResourceTypeKey)
             && Get(r.value[i].1, ResourceTypeKey) == table[CodeKey]
             && Keys(r.value[i].1) == (if HasKey(m, ResourceTypeKey) then Keys(m) else Keys(m) + [ResourceTypeKey])
             && (forall k :: k != ResourceTypeKey && HasKey(m, k) ==> Get(r.value[i].1, k) == Get(m, k))
      {
        assert MappedResource(r.value[i], paths[i], table);
        WithResourceTypeFields(Mappings(paths[i].1, table).value, table);
      }
    }
  }

  /** `rest` after the entries `done`: the first exception wins. */
  function Prepended(done: Dict<Mapping>, rest: Result<Dict<Mapping>>): Result<Dict<Mapping>>
  {
    if rest.Failure? then rest else Success(done + rest.value)
  }

  /** One round of the loop of `generate_mappings` when the resource maps successfully. */
  lemma MapResourcesStep(rest: Dict<seq<PathTriple>>, before: Dict<Mapping>, table: TypeTable)
    requires rest != [] && UniqueKeys(rest) && Fresh(rest, before)
    requires Mappings(rest[0].1, table).Success? && CodeKey in table
    ensures var m := Mappings(rest[0].1, table).value;
      var entry := (rest[0].0, WithResourceType(m, table));
      && Put(Put(before, entry.0, m), entry.0, entry.1) == before + [entry]
      && UniqueKeys(rest[1..]) && Fresh(rest[1..], before + [entry])
      && Prepended(before, ResourceMappings(rest, table)) == Prepended(before + [entry], ResourceMappings(rest[1..], table))
  {
    var m := Mappings(rest[0].1, table).value;
    var entry := (rest[0].0, WithResourceType(m, table));
    PutPut(before, entry.0, m, entry.1);
    FreshStep(rest, before, entry.1);
    UniqueTail(rest);
    var tail := ResourceMappings(rest[1..], table);
    if tail.Success? {
      assert ResourceMappings(rest, table) == Success([entry] + tail.value);
      AppendCons(before, entry, tail.value);
    }
  }

  /**
   * The loop of `generate_mappings` over the collected triples: each resource's mapping
   * is stored, then its `resourceType` is set.
   */
  method MapResources(paths: Dict<seq<PathTriple>>, table: TypeTable) returns (r: Result<Dict<Mapping>>)
    requires UniqueKeys(paths)
    ensures r == ResourceMappings(paths, table)
  {
    var maps: Dict<Mapping> := [];
    var i := 0;
    assert paths[0..] == paths;
    assert ResourceMappings(paths, table).Success? ==> [] + ResourceMappings(paths, table).value == ResourceMappings(paths, table).value;
    while i < |paths|
      invariant 0 <= i <= |paths|
      invariant UniqueKeys(paths[i..]) && Fresh(paths[i..], maps)
      invariant ResourceMappings(paths, table) == Prepended(maps, ResourceMappings(paths[i..], table))
    {
      var (resource, pathsDef) := paths[i];
      ghost var rest := paths[i..];
      ghost var before := maps;
      assert rest[0] == paths[i] && rest[1..] == paths[i + 1..];
      var m := CreateResourceMapping(pathsDef, table);
      if m.Failure? {
        return Failure(m.error);
      }
      maps := Put(maps, resource, m.value);
      if CodeKey !in table {
        return Failure(KeyError(CodeKey));
      }
      var withType := WithResourceType(m.value, table);
      maps := Put(maps, resource, withType);
      MapResourcesStep(rest, before, table);
      i := i + 1;
    }
    assert paths[i..] == [] && maps + [] == maps;
    r := Success(maps);
  }

  /** What `generate_mappings` returns for the per-resource element lists `entries`. */
  function Generated(entries: Dict<seq<Element>>, table: TypeTable): Result<Dict<Mapping>>
  {
    var paths :- ElementsPaths(entries);
    ResourceMappings(paths, table)
  }

  /**
   * `generate_mappings` from line 51 on: collects the triples of every resource (popping
   * the two bases from `resources`), then maps each resource.
   */
  method GenerateMappings(resources: ResourceElements, table: TypeTable) returns (r: Result<Dict<Mapping>>)
    requires resources.Valid()
    modifies resources
    ensures resources.Valid()
    ensures resources.entries == Popped(old(resources.entries))
    ensures r == Generated(old(resources.entries), table)
  {
    ghost var entries := resources.entries;
    var elementsPaths :- BuildElementsPaths(resources);
    ElementsPathsResult(entries);
    r := MapResources(elementsPaths, table);
  }
}
