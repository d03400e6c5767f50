# FHIR Elasticsearch mapping compiler, modelled in Dafny

This project models the core of `fhirpath_helpers`. That core is the compiler that turns FHIR element definitions into Elasticsearch field mappings, plus two small helpers (`resolve_path` and the `Content-Disposition` filename picker of `download`).

The compiler works in three stages.

1. **Path extraction** (`ElementPaths`). Every element definition becomes a `(path, code, multiple)` triple. A choice element (`value[x]`) becomes one triple per declared type, with the capitalised type code spliced into the path.
2. **Inheritance rebasing** (`ElementPaths`). The triples of `Resource` and `DomainResource` are popped from the resource dict. Rebased copies of them are appended to every other resource: the first path segment is replaced by the resource name.
3. **Tree building** (`ElementGroups`, `MappingTree`). The triples of one level are grouped by path prefix (the `iterate_elements` generator). Every group then becomes one field:
   - a copy of the type table's descriptor;
   - a nested object mapped recursively from its children, for `BackboneElement`;
   - nothing, for an ignored type;
   - a `KeyError`, for an unknown type.

   A repeated field without a `type` key gets `"type": "nested"`. Each resource mapping finally gets a `resourceType` field.

Modules:
- `Results`: the exceptions (`KeyError`, `AssertionError`, `IndexError`) as values.
- `Text`: the `str` operations used (`split`, `join`, `replace`, `strip`, `lower`, `startswith`).
- `Dicts`: Python dicts as insertion-ordered entry lists. Assigning to an existing key replaces the value in place; `pop` removes the entry.
- `Descriptors`: JSON descriptors and the multiplicity rule.
- `ElementPaths`: stages 1 and 2.
- `ElementGroups`: the `iterate_elements` generator.
- `MappingTree`: stage 3 and the per-resource loop of `generate_mappings`.
- `Helpers`: `resolve_path` and the filename picker.

The code in loops and in-place updates is modelled as methods and classes:
- `TripleList` is the list that `apply_default_paths` appends to.
- `ResourceElements` is the dict that `build_elements_paths` pops from.

Each method's result, or its new state, is given by a specification function of its inputs or of the old state. The properties are proved about those functions.

Two places where the code differs from a natural reading are modelled as the code does them:
- **The child test is a plain string prefix.** No `.` separator is required, so `A.bc` is grouped under `A.b` (`ElementGroups.ExtendedNameIsChild`). In general, a later path that extends an earlier one never starts a group of its own (`ElementGroups.ExtensionIsChild`).
- **The `resourceType` assignment is unconditional.** It overwrites a field of that name in place (`MappingTree.WithResourceTypeFields`).

## Model

| member | source | states |
|---|---|---|
| `ElementPaths.ElementTriplesCases` | fhirpath_helpers/elasticsearch/mapping.py:84-96 | The main element, or an element without types, gives no triple. A non-choice element gives exactly one triple: first type code, `multiple` iff `n_max != "1"`. A choice element with one type is an AssertionError. With two or more types it gives the choice triples. |
| `ElementPaths.ChoiceTriplesSpec` | fhirpath_helpers/elasticsearch/mapping.py:90-94 | Succeeds iff every type code is non-empty; otherwise IndexError. On success, one triple per code in order, each with `[x]` replaced by the capitalised code and the shared flag. |
| `ElementPaths.ChoicePathAtEnd` | fhirpath_helpers/elasticsearch/mapping.py:93-94 | A path `stem[x]` with no other marker becomes `stem` followed by the code with its first character upper-cased. |
| `ElementPaths.ExtractedConcat` | fhirpath_helpers/elasticsearch/mapping.py:84-96 | Extraction is element by element: the triples of `a + b` are those of `a` then those of `b`, and the first exception wins. |
| `ElementPaths.AppendChoicePaths` | fhirpath_helpers/elasticsearch/mapping.py:92-94 | The type loop appends exactly the choice triples to the list, or stops with IndexError at an empty code. |
| `ElementPaths.ExtractElementsPaths` | fhirpath_helpers/elasticsearch/mapping.py:80-97 | The loop-and-append extraction returns exactly the element-by-element triples, or the first exception. |
| `ElementPaths.RebasedReplacesFirstSegment` | fhirpath_helpers/elasticsearch/mapping.py:102-105 | A rebased triple keeps its code and flag. Its path is the resource name followed by everything after the first dot of the old path, so re-splitting it gives the name and the old tail segments. |
| `ElementPaths.TripleList.Append` | fhirpath_helpers/elasticsearch/mapping.py:105 | `append` adds the triple at the end and changes nothing else. |
| `ElementPaths.ApplyDefaultPaths` | fhirpath_helpers/elasticsearch/mapping.py:100-105 | The container ends as its old items followed by one rebased copy of each default triple, in order. |
| `ElementPaths.ResourceElements.Pop` | fhirpath_helpers/elasticsearch/mapping.py:69-70 | `pop` returns the key's value and removes exactly that entry. A missing key raises KeyError and leaves the dict unchanged. |
| `ElementPaths.AddResourcesAppends` | fhirpath_helpers/elasticsearch/mapping.py:71-75 | While the remaining resource names are new, the loop of assignments only appends one entry per resource, or raises the first exception. |
| `ElementPaths.CollectedEntries` | fhirpath_helpers/elasticsearch/mapping.py:71-75 | Each remaining resource gets one entry, in order, under its own name: its own triples, then the rebased `Resource` triples, then the rebased `DomainResource` triples. The loop raises iff some resource's extraction raises. |
| `ElementPaths.ElementsPathsCollects` | fhirpath_helpers/elasticsearch/mapping.py:66-77 | Success requires both bases to be present and to extract. The result is then the collection of the other resources, in input order. |
| `ElementPaths.CollectedKeys` | fhirpath_helpers/elasticsearch/mapping.py:71-75 | The collected dict has the resources' keys, each once. Each value is that resource's triples followed by the rebased bases. |
| `ElementPaths.ElementsPathsResult` | fhirpath_helpers/elasticsearch/mapping.py:66-77 | On success the result has unique keys, exactly the input keys other than `Resource` and `DomainResource`, in input order. Each value is own ++ rebased `Resource` ++ rebased `DomainResource` triples. |
| `ElementPaths.BuildElementsPaths` | fhirpath_helpers/elasticsearch/mapping.py:66-77 | Pops `Resource` (KeyError if absent), extracts it, then the same for `DomainResource`, then collects the rest. It returns the specified result and leaves the dict without the popped keys. |
| `ElementGroups.Children` | fhirpath_helpers/elasticsearch/mapping.py:128 | The children are exactly the triples whose path extends the given path as a string and differs from it. The list is strictly shorter than the level whenever the level holds the path itself, which makes the recursion terminate. |
| `ElementGroups.GroupsFrom` | fhirpath_helpers/elasticsearch/mapping.py:126-130 | Every yielded group is headed by a triple of the remaining input. Its children are the children of its path across the whole level, and they are fewer than the level's triples. |
| `ElementGroups.GroupsAreFirstEncounters` | fhirpath_helpers/elasticsearch/mapping.py:124-130 | The generator yields, in input order, one group per triple that no earlier triple's path is a prefix of. A repeated path, or any path extending an earlier one, is skipped. |
| `ElementGroups.EveryTripleHasGroup` | fhirpath_helpers/elasticsearch/mapping.py:126-129 | Every triple of the level is a group head or extends the path of an earlier group head. |
| `ElementGroups.IterateElements` | fhirpath_helpers/elasticsearch/mapping.py:124-130 | The loop over the `mapped_elements` list yields exactly the specified groups: the membership test in that list is the test against the paths of the groups yielded so far. |
| `ElementGroups.ExtendedNameIsChild` | fhirpath_helpers/elasticsearch/mapping.py:128 | `A.bc` is yielded as a child of `A.b`, not as a group of its own. |
| `ElementGroups.ExtensionIsChild` | fhirpath_helpers/elasticsearch/mapping.py:126-130 | A triple whose path extends the path of an earlier triple never starts a group. It is a child of some group that `iterate_elements` yields before it. |
| `Text.LastSegmentIsSuffix` | fhirpath_helpers/elasticsearch/mapping.py:133 | A field's name has no dot, ends the path, and is the whole path or follows its last dot. |
| `Text.ReplaceAllFirst` | fhirpath_helpers/elasticsearch/mapping.py:94 | `replace` copies the text before the leftmost occurrence, writes the replacement in its place and goes on after it, so occurrences never overlap. |
| `Text.ReplaceAllSkips` | fhirpath_helpers/elasticsearch/mapping.py:94 | Text before the leftmost occurrence is copied unchanged. |
| `Text.ReplaceAllNone` | fhirpath_helpers/elasticsearch/mapping.py:94 | Text without an occurrence is returned unchanged. |
| `Descriptors.Tagged` | fhirpath_helpers/elasticsearch/mapping.py:151-152 | A repeated field whose descriptor has no `type` gets `type` appended as `nested`. A descriptor with `type`, or a field that does not repeat, is unchanged. Other keys and distinct keys are kept. |
| `Descriptors.NestedDescriptor` | fhirpath_helpers/elasticsearch/mapping.py:140-143 | A backbone descriptor has the keys `type` then `properties`: `nested`, and the children's mapping. |
| `MappingTree.FieldSpec` | fhirpath_helpers/elasticsearch/mapping.py:134-152 | A table hit gives the table's descriptor, unchanged unless the multiplicity rule applies. An ignored miss gives no field. Any other miss that is not `BackboneElement` raises KeyError(code), and only a `BackboneElement` miss or an unknown code can raise. A repeated field's descriptor always has `type`. |
| `MappingTree.FieldCases` | fhirpath_helpers/elasticsearch/mapping.py:135-143 | A table hit gives the tagged copy of the table's descriptor. A `BackboneElement` miss raises exactly when the children's mapping raises, with the same exception. Otherwise it gives the descriptor with keys `type` then `properties`: `nested`, and the children's mapping. |
| `MappingTree.MapGroupsSucceeds` | fhirpath_helpers/elasticsearch/mapping.py:132-154 | The loop over the groups succeeds iff every group's field does. |
| `MappingTree.MapGroupsKeys` | fhirpath_helpers/elasticsearch/mapping.py:133-154 | The keys are the existing keys followed by the names of the kept groups, each added only the first time: first-encounter order. |
| `MappingTree.MapGroupsLastWins` | fhirpath_helpers/elasticsearch/mapping.py:133-154 | The value under a name is the descriptor of the last kept group with that name: a later field with the same name overwrites an earlier one. |
| `MappingTree.MapGroupsKeepsAcc` | fhirpath_helpers/elasticsearch/mapping.py:154 | A key that no kept group names keeps its value. |
| `MappingTree.AddNamesFacts` | fhirpath_helpers/elasticsearch/mapping.py:154 | Adding names keeps the old keys as a prefix, holds exactly the old keys and the names, and keeps keys distinct. |
| `MappingTree.MappingsResult` | fhirpath_helpers/elasticsearch/mapping.py:118-156 | `create_resource_mapping` succeeds iff every group's field does. Its keys are the kept groups' names in first-encounter order, each once. Each value is the descriptor of the last kept group with that name. |
| `MappingTree.UnknownCodeFails` | fhirpath_helpers/elasticsearch/mapping.py:144-149 | A group whose code is not in the table, not `BackboneElement` and not ignored makes the mapping raise. |
| `MappingTree.RepeatedFieldsTyped` | fhirpath_helpers/elasticsearch/mapping.py:151-154 | In a successful mapping, the descriptor stored for a repeated field has a `type` key. |
| `MappingTree.CreateResourceMapping` | fhirpath_helpers/elasticsearch/mapping.py:118-156 | The recursive loop with `continue` on ignored codes and early raise on unknown ones returns exactly the specified mapping. |
| `MappingTree.ResourceMappingsEntries` | fhirpath_helpers/elasticsearch/mapping.py:59-61 | Every resource gets one mapping under its own name, in order. Its `resourceType` is the table's `code` descriptor: it replaces a field of that name in place and otherwise comes last. No other field changes, and `code` must be in the table. |
| `MappingTree.MapResources` | fhirpath_helpers/elasticsearch/mapping.py:53-63 | The loop that stores each mapping and then sets its `resourceType` returns exactly the specified mappings, or the first exception. |
| `MappingTree.WithResourceTypeFields` | fhirpath_helpers/elasticsearch/mapping.py:61 | After the assignment `resourceType` holds the table's `code` descriptor. The key order is unchanged when the key was present; otherwise the key is appended. Every other field keeps its value. |
| `MappingTree.GenerateMappings` | fhirpath_helpers/elasticsearch/mapping.py:51-63 | Collecting the triples and mapping every resource gives the composition of the two specifications. Afterwards the resource dict is still well formed and has lost exactly the `Resource` and `DomainResource` entries. |
| `Dicts.PutGet` | fhirpath_helpers/elasticsearch/mapping.py:154 | After `d[k] = v`, `d[k]` is `v` and every other key keeps its value. |
| `Dicts.Put` | fhirpath_helpers/elasticsearch/mapping.py:154 | Assigning to a present key keeps the key order; assigning to a new key appends it at the end. |
| `Dicts.PutUnique` | fhirpath_helpers/elasticsearch/mapping.py:154 | Assignment keeps keys distinct. |
| `Dicts.PutPut` | fhirpath_helpers/elasticsearch/mapping.py:60-61 | Assigning a key twice keeps the second value where the key stands. |
| `Dicts.PutNew` | fhirpath_helpers/elasticsearch/mapping.py:75 | Assigning a new key appends an entry. |
| `Dicts.RemoveGet` | fhirpath_helpers/elasticsearch/mapping.py:69-70 | After `pop(k)`, `k` is absent, and every other key keeps its presence and value. |
| `Dicts.RemoveAt` | fhirpath_helpers/elasticsearch/mapping.py:69-70 | Popping a present key cuts out exactly its entry. |
| `Dicts.RemoveAbsent` | fhirpath_helpers/elasticsearch/mapping.py:69-70 | Popping an absent key changes nothing. |
| `Dicts.RemoveUnique` | fhirpath_helpers/elasticsearch/mapping.py:69-70 | Popping keeps keys distinct. |
| `Text.JoinSplit` | fhirpath_helpers/elasticsearch/mapping.py:103-104 | Joining the parts of a split gives back the string. |
| `Text.SplitJoin` | fhirpath_helpers/elasticsearch/mapping.py:103-104 | Splitting a join of separator-free parts gives back the parts. |
| `Text.Split` | fhirpath_helpers/elasticsearch/mapping.py:103 | `split` gives at least one part, and no part contains the separator. |
| `Text.IndexOf` | fhirpath_helpers/helpers.py:60 | The first occurrence of a character that is present: the character sits at that index and nowhere before it. |
| `Text.Capitalize` | fhirpath_helpers/elasticsearch/mapping.py:93 | Only the first character changes, and only a lower-case ASCII letter, to its upper-case form. |
| `Text.StripTrimmed` | fhirpath_helpers/helpers.py:56 | No whitespace is left at either end. |
| `Text.StripBlank` | fhirpath_helpers/helpers.py:56-57 | The stripped string is empty iff the string is all whitespace, so exactly such parts are skipped. |
| `Text.LowerStartsWithSpec` | fhirpath_helpers/helpers.py:59 | The character-by-character, case-folded prefix test used for `filename` is `s.lower().startswith(w)`. |
| `Helpers.Parent` | fhirpath_helpers/helpers.py:33 | `parent` drops the last component and keeps the anchor. A path without components is its own parent. |
| `Helpers.Child` | fhirpath_helpers/helpers.py:35 | `me / part` keeps the anchor and adds exactly one component, `part`, at the end. |
| `Helpers.ParentOfChild` | fhirpath_helpers/helpers.py:33-35 | Going down one component and back up returns the same path. |
| `Helpers.WalkAppend` | fhirpath_helpers/helpers.py:27-35 | The segments are processed left to right: walking `a + b` walks `a`, then `b`. |
| `Helpers.WalkSkipped` | fhirpath_helpers/helpers.py:28-31 | Segments that are all empty or `.` leave the path unchanged. |
| `Helpers.WalkWithoutUp` | fhirpath_helpers/helpers.py:27-35 | Without `..`, the result is the start path followed by the non-empty, non-`.` segments in order. Its length is the start length plus their count. |
| `Helpers.WalkUp` | fhirpath_helpers/helpers.py:32-33 | A `..` segment replaces the path reached so far by its parent before the walk goes on. |
| `Helpers.ResolvePath` | fhirpath_helpers/helpers.py:14-36 | An absolute input is returned as the platform path, whatever the parent. A `~` input is user-expanded. Otherwise the `/` segments are walked from the parent, or from the working directory when there is no parent. |
| `Helpers.RelativeSkippedIsParent` | fhirpath_helpers/helpers.py:23-31 | `resolve_path(".", parent)`, and any relative path of empty and `.` segments, resolves to the parent itself. |
| `Helpers.NameOfComponent` | fhirpath_helpers/helpers.py:41 | The name of a URL path has no `/`, is not `.`, and is empty or one of the path's segments. |
| `Helpers.FileNameInCases` | fhirpath_helpers/helpers.py:60-61 | The deciding part raises IndexError iff it has no `=`. Otherwise the result is stripped at both ends. |
| `Helpers.FirstNamingPartDecides` | fhirpath_helpers/helpers.py:55-61 | The first part that, stripped and lower-cased, starts with `filename` decides the result. |
| `Helpers.NoNamingPartFallsBack` | fhirpath_helpers/helpers.py:62 | When no part names the file, the URL's filename is returned. |
| `Helpers.EmptyHeaderFallsBack` | fhirpath_helpers/helpers.py:51-53 | An empty or absent header gives the URL's filename. |
| `Helpers.GetFileName` | fhirpath_helpers/helpers.py:49-62 | The early return for an empty header and the search loop with its early returns compute the specified filename or IndexError. |

## Left out

- Loading the FHIR specification (`FhirSpecFactory`, the profile loop of `generate_mappings`, fhirpath_helpers/elasticsearch/mapping.py:32-49). This is a foreign library. The per-resource element lists are an input, and so is the element reduced to its path, type codes, maximum cardinality and main-element flag.
- The release-dependent choice of type table (mapping.py:54-57). The table is a parameter. Its data in fhirpath_helpers/elasticsearch/pytypes.py is not part of this model, and neither is the aliasing between its entries.
- `add_mapping_meta`, `write_resource_mapping` and `make_and_write_es_mappings`: timestamps, JSON file output and console messages.
- `logging.debug` calls: these are side effects only.
- `download` apart from its filename picker: network access, temporary directories and file writes. Also left out is the `Content-Type` test choosing the write mode.
- The operating-system and URL calls:
  - `os.path.isabs`, `os.path.expanduser`, `os.getcwd` and `pathlib.Path(str)` are the fields of `Helpers.OsEnv`;
  - `urlparse(url).path` is the `urlPath` parameter.
- The separator is `/` (POSIX `os.sep`). pathlib's own parsing of a path string is only modelled for the final name (`Helpers.NameOf`, see `Helpers.NameOfComponent`).
- The `Content-Disposition` header is a string parameter, empty when the header is absent.
- `str.lower()` is modelled for ASCII letters only. For the `startswith("filename")` test this gives the same answer as Python's Unicode lowering: no non-ASCII character lowers to a string that begins with one of those letters and continues the match.
- `str.upper()` on a choice type's first character is modelled for ASCII letters only, which covers the FHIR type codes.
- `iterate_elements` is a generator. Its groups are collected eagerly before the mapping loop runs. This changes nothing, because the generator reads only its input list and its own `mapped_elements` list.
- `.copy()` of a table descriptor: descriptors are values here, so the table is never changed and copying leaves nothing to model.
- `ElementGroups.Children`: states which triples are children and bounds the length, not that the children keep their order and multiplicity. The definition is the order-preserving filter.
