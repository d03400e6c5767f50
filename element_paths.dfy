/**
 * Stages 1 and 2 of the mapping compiler (fhirpath_helpers/elasticsearch/mapping.py):
 * flattening element definitions into (path, type code, repeats) triples, expanding
 * choice elements, and rebasing the `Resource` and `DomainResource` triples onto every
 * other resource.
 */
module ElementPaths {
  import opened Results
  import opened Text
  import opened Dicts
  import opened Seqs

  /**
   * An element definition, reduced to what the compiler reads: its dotted path, the
   * codes of its declared types in order, its maximum cardinality (`"1"`, `"*"`, ...)
   * and whether it is the element that stands for the resource itself.
   */
  datatype Element = Element(path: string, types: seq<string>, nMax: string, isMain: bool)

  /** `(path, code, multiple)` */
  datatype PathTriple = PathTriple(path: string, code: string, multiple: bool)

  /** The suffix of a choice element's path. */
  const ChoiceMarker: string := "[x]"

  // ---------------------------------------------------------------------------
  // extract_elements_paths

  /** The path a choice element takes for one of its type codes: `value[x]` and `boolean` give `valueBoolean`. */
  function ChoicePath(path: string, code: string): string
    requires code != []
  {
    ReplaceAll(path, ChoiceMarker, Capitalize(code))
  }

  /**
   * The triples of a choice element, one per type code in order; a code with no first
   * character raises IndexError.
   */
  function ChoiceTriples(path: string, codes: seq<string>, multiple: bool): Result<seq<PathTriple>>
  {
    if codes == [] then Success([])
    else if codes[0] == [] then Failure(IndexError)
    else
      var rest := ChoiceTriples(path, codes[1..], multiple);
      if rest.Failure? then rest
      else Success([PathTriple(ChoicePath(path, codes[0]), codes[0], multiple)] + rest.value)
  }

  /**
   * The choice triples exist exactly when every code is non-empty, and are then one per
   * code in order; otherwise IndexError.
   */
  lemma {:induction false} ChoiceTriplesSpec(path: string, codes: seq<string>, multiple: bool)
    ensures var r := ChoiceTriples(path, codes, multiple);
      && (r.Success? <==> forall i :: 0 <= i < |codes| ==> codes[i] != [])
      && (r.Failure? ==> r.error == IndexError)
      && (r.Success? ==> |r.value| == |codes| && forall i :: 0 <= i < |codes| ==>
            r.value[i] == PathTriple(ChoicePath(path, codes[i]), codes[i], multiple))
  {
    if codes != [] {
      ChoiceTriplesSpec(path, codes[1..], multiple);
      assert forall i :: 1 <= i < |codes| ==> codes[i] == codes[1..][i - 1];
    }
  }

  /** The triples one element contributes. */
  function ElementTriples(el: Element): Result<seq<PathTriple>>
  {
    if el.isMain || |el.types| == 0 then Success([])
    else if EndsWith(el.path, ChoiceMarker) then
      if |el.types| > 1 then ChoiceTriples(el.path, el.types, el.nMax != "1")
      else Failure(AssertionError)
    else Success([PathTriple(el.path, el.types[0], el.nMax != "1")])
  }

  /**
   * None for the resource's own element or an element without types, one per type for
   * a choice element (which must declare at least two), otherwise one triple with the
   * first type code; it repeats unless the maximum cardinality is `"1"`.
   */
  lemma ElementTriplesCases(el: Element)
    ensures el.isMain || el.types == [] ==> ElementTriples(el) == Success([])
    ensures !el.isMain && el.types != [] && !EndsWith(el.path, ChoiceMarker) ==>
      ElementTriples(el) == Success([PathTriple(el.path, el.types[0], el.nMax != "1")])
    ensures !el.isMain && EndsWith(el.path, ChoiceMarker) && |el.types| == 1 ==>
      ElementTriples(el) == Failure(AssertionError)
    ensures !el.isMain && EndsWith(el.path, ChoiceMarker) && |el.types| >= 2 ==>
      ElementTriples(el) == ChoiceTriples(el.path, el.types, el.nMax != "1")
  {
  }

  /** Two extraction results one after the other: the first exception wins. */
  function Chained(x: Result<seq<PathTriple>>, y: Result<seq<PathTriple>>): Result<seq<PathTriple>>
  {
    if x.Failure? then Failure(x.error)
    else if y.Failure? then Failure(y.error)
    else Success(x.value + y.value)
  }

  /** The triples of a list of elements, in declaration order; the first exception stops it. */
  function ExtractedPaths(elements: seq<Element>): Result<seq<PathTriple>>
  {
    if elements == [] then Success([])
    else Chained(ElementTriples(elements[0]), ExtractedPaths(elements[1..]))
  }

  /**
   * Extraction works element by element: the triples of `a + b` are those of `a`
   * followed by those of `b`, and an exception in `a` wins over one in `b`.
   */
  lemma {:induction false} ExtractedConcat(a: seq<Element>, b: seq<Element>)
    ensures ExtractedPaths(a + b) == Chained(ExtractedPaths(a), ExtractedPaths(b))
  {
    if a == [] {
      assert a + b == b;
      var tb := ExtractedPaths(b);
      if tb.Success? {
        assert [] + tb.value == tb.value;
      }
    } else {
      ConsConcat(a, b);
      ExtractedConcat(a[1..], b);
      ChainedAssoc(ElementTriples(a[0]), ExtractedPaths(a[1..]), ExtractedPaths(b));
    }
  }

  lemma ChainedAssoc(x: Result<seq<PathTriple>>, y: Result<seq<PathTriple>>, z: Result<seq<PathTriple>>)
    ensures Chained(x, Chained(y, z)) == Chained(Chained(x, y), z)
  {
    if x.Success? && y.Success? && z.Success? {
      assert x.value + (y.value + z.value) == x.value + y.value + z.value;
    }
  }

  lemma ChainedAfter(x: Result<seq<PathTriple>>, y: Result<seq<PathTriple>>, paths: seq<PathTriple>)
    requires x == Success(paths)
    ensures y.Failure? ==> Chained(x, y) == Failure(y.error)
    ensures y.Success? ==> Chained(x, y) == Success(paths + y.value)
  {
  }

  /** A single element yields exactly its own triples. */
  lemma ExtractedSingle(el: Element)
    ensures ExtractedPaths([el]) == ElementTriples(el)
  {
    assert [el][1..] == [];
    var h := ElementTriples(el);
    if h.Success? {
      assert h.value + [] == h.value;
    }
  }

  /** An exception among the first `n` elements is the exception of the whole list. */
  lemma ExtractedPrefixFails(elements: seq<Element>, n: nat)
    requires n <= |elements| && ExtractedPaths(elements[..n]).Failure?
    ensures ExtractedPaths(elements) == ExtractedPaths(elements[..n])
  {
    TakeDrop(elements, n);
    ExtractedConcat(elements[..n], elements[n..]);
  }

  /** The triples of one more element follow those of the prefix. */
  lemma ExtractedSnoc(elements: seq<Element>, i: nat)
    requires i < |elements|
    ensures ExtractedPaths(elements[..i + 1]) == Chained(ExtractedPaths(elements[..i]), ElementTriples(elements[i]))
  {
    TakeOneMore(elements, i);
    ExtractedSingle(elements[i]);
    ExtractedConcat(elements[..i], [elements[i]]);
  }

  /** One round of the loop over the elements: the element's triples are appended. */
  lemma ExtractedStep(elements: seq<Element>, i: nat, paths: seq<PathTriple>)
    requires i < |elements| && ExtractedPaths(elements[..i]) == Success(paths)
    requires ElementTriples(elements[i]).Success?
    ensures ExtractedPaths(elements[..i + 1]) == Success(paths + ElementTriples(elements[i]).value)
  {
    ExtractedSnoc(elements, i);
    ChainedAfter(ExtractedPaths(elements[..i]), ElementTriples(elements[i]), paths);
  }

  /** One round of the loop over the elements: the element's exception ends the extraction. */
  lemma ExtractedStops(elements: seq<Element>, i: nat, paths: seq<PathTriple>)
    requires i < |elements| && ExtractedPaths(elements[..i]) == Success(paths)
    requires ElementTriples(elements[i]).Failure?
    ensures ExtractedPaths(elements) == Failure(ElementTriples(elements[i]).error)
  {
    ExtractedSnocFails(elements, i, paths);
    ExtractedPrefixFails(elements, i + 1);
  }

  lemma ExtractedSnocFails(elements: seq<Element>, i: nat, paths: seq<PathTriple>)
    requires i < |elements| && ExtractedPaths(elements[..i]) == Success(paths)
    requires ElementTriples(elements[i]).Failure?
    ensures ExtractedPaths(elements[..i + 1]) == Failure(ElementTriples(elements[i]).error)
  {
    ExtractedSnoc(elements, i);
    ChainedAfter(ExtractedPaths(elements[..i]), ElementTriples(elements[i]), paths);
  }

  /**
   * A choice path `p[x]` whose stem has no other marker becomes the stem followed by
   * the capitalised code.
   */
  lemma {:induction false} ChoicePathAtEnd(stem: string, code: string)
    requires code != [] && !Contains(stem, ChoiceMarker)
    ensures ChoicePath(stem + ChoiceMarker, code) == stem + Capitalize(code)
  {
    var s := stem + ChoiceMarker;
    var rep := Capitalize(code);
    if stem == [] {
      assert s == ChoiceMarker;
      assert s[|ChoiceMarker|..] == [];
    } else {
      assert s[..3] != ChoiceMarker by {
        if |stem| >= 3 {
          assert s[..3] == stem[..3];
        } else if |stem| == 2 {
          assert s[2] == '[';
        } else {
          assert s[1] == '[';
        }
      }
      assert !Contains(stem[1..], ChoiceMarker);
      ChoicePathAtEnd(stem[1..], code);
      assert s[1..] == stem[1..] + ChoiceMarker;
      assert [s[0]] + (stem[1..] + rep) == stem + rep;
    }
  }

  /**
   * The inner loop of `extract_elements_paths` for a choice element: appends one triple
   * per type code to `paths`, stopping with IndexError at an empty code.
   */
  method AppendChoicePaths(paths: seq<PathTriple>, path: string, codes: seq<string>, multiple: bool)
    returns (r: Result<seq<PathTriple>>)
    ensures r.Success? <==> ChoiceTriples(path, codes, multiple).Success?
    ensures r.Success? ==> r.value == paths + ChoiceTriples(path, codes, multiple).value
    ensures r.Failure? ==> r.error == IndexError
  {
    ChoiceTriplesSpec(path, codes, multiple);
    var out := paths;
    var j := 0;
    while j < |codes|
      invariant 0 <= j <= |codes|
      invariant |out| == |paths| + j && out[..|paths|] == paths
      invariant forall q :: 0 <= q < j ==>
        codes[q] != [] && out[|paths| + q] == PathTriple(ChoicePath(path, codes[q]), codes[q], multiple)
    {
      var code := codes[j];
      if |code| == 0 {
        return Failure(IndexError);
      }
      var addon := [UpperChar(code[0])] + code[1..];
      out := out + [PathTriple(ReplaceAll(path, ChoiceMarker, addon), code, multiple)];
      j := j + 1;
    }
    assert out == paths + out[|paths|..];
    r := Success(out);
  }

  /**
   * `extract_elements_paths`: builds the list of triples by appending, element by
   * element and, for a choice element, type by type.
   */
  method ExtractElementsPaths(elements: seq<Element>) returns (r: Result<seq<PathTriple>>)
    ensures r == ExtractedPaths(elements)
  {
    var paths: seq<PathTriple> := [];
    var i := 0;
    while i < |elements|
      invariant 0 <= i <= |elements|
      invariant ExtractedPaths(elements[..i]) == Success(paths)
    {
      var el := elements[i];
      ElementTriplesCases(el);
      if el.isMain || |el.types| == 0 {
        ExtractedStep(elements, i, paths);
        assert paths + [] == paths;
      } else if EndsWith(el.path, ChoiceMarker) {
        if |el.types| <= 1 {
          ExtractedStops(elements, i, paths);
          return Failure(AssertionError);
        }
        var next := AppendChoicePaths(paths, el.path, el.types, el.nMax != "1");
        if next.Failure? {
          ChoiceTriplesSpec(el.path, el.types, el.nMax != "1");
          ExtractedStops(elements, i, paths);
          return Failure(next.error);
        }
        ExtractedStep(elements, i, paths);
        paths := next.value;
      } else {
        ExtractedStep(elements, i, paths);
        paths := paths + [PathTriple(el.path, el.types[0], el.nMax != "1")];
      }
      i := i + 1;
    }
    assert elements[..i] == elements;
    r := Success(paths);
  }

  // ---------------------------------------------------------------------------
  // apply_default_paths

  /** A base triple moved onto `resource`: `".".join([resource] + path.split(".")[1:])`. */
  function Rebased(resource: string, t: PathTriple): PathTriple
  {
    PathTriple(Join([resource] + Split(t.path, '.')[1..], '.'), t.code, t.multiple)
  }

  function RebasedAll(resource: string, defaults: seq<PathTriple>): seq<PathTriple>
  {
    seq(|defaults|, i requires 0 <= i < |defaults| => Rebased(resource, defaults[i]))
  }

  /**
   * Rebasing replaces the first dot-segment of the path by the resource name and keeps
   * the rest of the path, the code and the flag.
   */
  lemma RebasedReplacesFirstSegment(resource: string, t: PathTriple)
    ensures var r := Rebased(resource, t); var parts := Split(t.path, '.');
      && r.code == t.code && r.multiple == t.multiple
      && t.path == parts[0] + Tail(parts, '.')
      && r.path == resource + Tail(parts, '.')
      && ('.' !in resource ==> Split(r.path, '.') == [resource] + parts[1..])
  {
    var parts := Split(t.path, '.');
    var newParts := [resource] + parts[1..];
    JoinSplit(t.path, '.');
    JoinFirst(parts, '.');
    JoinFirst(newParts, '.');
    assert newParts[1..] == parts[1..];
    if '.' !in resource {
      forall i | 0 <= i < |newParts| ensures '.' !in newParts[i] {
        if i > 0 { assert newParts[i] == parts[i]; }
      }
      SplitJoin(newParts, '.');
    }
  }

  /** The list a resource's triples are collected in; `apply_default_paths` appends to it. */
  class TripleList {
    var items: seq<PathTriple>

    constructor (items: seq<PathTriple>)
      ensures this.items == items
    {
      this.items := items;
    }

    method Append(t: PathTriple)
      modifies this
      ensures items == old(items) + [t]
    {
      items := items + [t];
    }
  }

  /** `apply_default_paths`: appends the rebased copy of every default triple to `container`. */
  method ApplyDefaultPaths(resource: string, defaults: seq<PathTriple>, container: TripleList)
    modifies container
    ensures container.items == old(container.items) + RebasedAll(resource, defaults)
  {
    var i := 0;
    while i < |defaults|
      invariant 0 <= i <= |defaults|
      invariant container.items == old(container.items) + RebasedAll(resource, defaults[..i])
    {
      var t := defaults[i];
      var parts := Split(t.path, '.');
      var path := Join([resource] + parts[1..], '.');
      container.Append(PathTriple(path, t.code, t.multiple));
      assert RebasedAll(resource, defaults[..i + 1]) == RebasedAll(resource, defaults[..i]) + [Rebased(resource, t)];
      i := i + 1;
    }
    assert defaults[..i] == defaults;
  }

  // ---------------------------------------------------------------------------
  // build_elements_paths

  const ResourceKey: string := "Resource"
  const DomainResourceKey: string := "DomainResource"

  /** What the compiler finds for one resource: its own triples, then those of `Resource`, then those of `DomainResource`. */
  function ResourcePaths(resource: string, own: seq<PathTriple>, base: seq<PathTriple>, domain: seq<PathTriple>): seq<PathTriple>
  {
    own + RebasedAll(resource, base) + RebasedAll(resource, domain)
  }

  /** The loop of `build_elements_paths` over the remaining resources, from `acc` on. */
  function AddResources(rest: Dict<seq<Element>>, base: seq<PathTriple>, domain: seq<PathTriple>,
                        acc: Dict<seq<PathTriple>>): Result<Dict<seq<PathTriple>>>
  {
    if rest == [] then Success(acc)
    else
      var own := ExtractedPaths(rest[0].1);
      if own.Failure? then Failure(own.error)
      else AddResources(rest[1..], base, domain, Put(acc, rest[0].0, ResourcePaths(rest[0].0, own.value, base, domain)))
  }

  /** One round of the loop: the resource at `i` raises, or its entry is assigned. */
  lemma AddResourcesStep(rest: Dict<seq<Element>>, i: nat, base: seq<PathTriple>, domain: seq<PathTriple>,
                         acc: Dict<seq<PathTriple>>)
    requires i < |rest|
    ensures var own := ExtractedPaths(rest[i].1);
      AddResources(rest[i..], base, domain, acc) ==
        if own.Failure? then Failure(own.error)
        else AddResources(rest[i + 1..], base, domain, Put(acc, rest[i].0, ResourcePaths(rest[i].0, own.value, base, domain)))
  {
    assert rest[i..][0] == rest[i] && rest[i..][1..] == rest[i + 1..];
  }

  /** What `build_elements_paths` returns for the resource dict `entries`. */
  function ElementsPaths(entries: Dict<seq<Element>>): Result<Dict<seq<PathTriple>>>
  {
    if !HasKey(entries, ResourceKey) then Failure(KeyError(ResourceKey))
    else
      var base := ExtractedPaths(Get(entries, ResourceKey));
      if base.Failure? then Failure(base.error)
      else
        var rest := Remove(entries, ResourceKey);
        if !HasKey(rest, DomainResourceKey) then Failure(KeyError(DomainResourceKey))
        else
          var domain := ExtractedPaths(Get(rest, DomainResourceKey));
          if domain.Failure? then Failure(domain.error)
          else AddResources(Remove(rest, DomainResourceKey), base.value, domain.value, [])
  }

  /** The resource dict that `build_elements_paths` leaves behind: the popped keys are gone. */
  function Popped(entries: Dict<seq<Element>>): Dict<seq<Element>>
  {
    if !HasKey(entries, ResourceKey) then entries
    else if ExtractedPaths(Get(entries, ResourceKey)).Failure? then Remove(entries, ResourceKey)
    else Remove(Remove(entries, ResourceKey), DomainResourceKey)
  }

  lemma UniqueTail<V>(d: Dict<V>)
    requires d != [] && UniqueKeys(d)
    ensures UniqueKeys(d[1..]) && !HasKey(d[1..], d[0].0)
  {
    forall a, b | 0 <= a < b < |d| - 1 ensures d[1..][a].0 != d[1..][b].0 {
      assert d[1..][a] == d[a + 1] && d[1..][b] == d[b + 1];
    }
  }

  /** No resource in `rest` is a key of `acc` yet. */
  predicate Fresh<V, W>(rest: Dict<V>, acc: Dict<W>) {
    forall i :: 0 <= i < |rest| ==> !HasKey(acc, rest[i].0)
  }

  /** The entries the loop adds, one per resource in order, when none of them is in the dict yet. */
  function Collected(rest: Dict<seq<Element>>, base: seq<PathTriple>, domain: seq<PathTriple>): Result<Dict<seq<PathTriple>>>
  {
    if rest == [] then Success([])
    else
      var own := ExtractedPaths(rest[0].1);
      if own.Failure? then Failure(own.error)
      else
        var tail := Collected(rest[1..], base, domain);
        if tail.Failure? then tail
        else Success([(rest[0].0, ResourcePaths(rest[0].0, own.value, base, domain))] + tail.value)
  }

  /** One step of the loop keeps the remaining resources fresh. */
  lemma FreshStep<V, W>(rest: Dict<V>, acc: Dict<W>, v: W)
    requires rest != [] && UniqueKeys(rest) && Fresh(rest, acc)
    ensures Put(acc, rest[0].0, v) == acc + [(rest[0].0, v)]
    ensures Fresh(rest[1..], acc + [(rest[0].0, v)])
  {
    PutNew(acc, rest[0].0, v);
    var acc' := acc + [(rest[0].0, v)];
    KeysAppend(acc, [(rest[0].0, v)]);
    forall i | 0 <= i < |rest| - 1 ensures !HasKey(acc', rest[1..][i].0) {
      assert rest[1..][i] == rest[i + 1];
      assert !HasKey(acc, rest[i + 1].0);
      assert rest[i + 1].0 != rest[0].0;
    }
  }

  /** While its resources are fresh, the loop only appends: first exception first. */
  lemma {:induction false} AddResourcesAppends(rest: Dict<seq<Element>>, base: seq<PathTriple>, domain: seq<PathTriple>,
                                               acc: Dict<seq<PathTriple>>)
    requires UniqueKeys(rest) && Fresh(rest, acc)
    ensures var c := Collected(rest, base, domain);
      AddResources(rest, base, domain, acc) == if c.Failure? then Failure(c.error) else Success(acc + c.value)
  {
    if rest == [] {
      assert acc + [] == acc;
    } else if ExtractedPaths(rest[0].1).Success? {
      var name := rest[0].0;
      var v := ResourcePaths(name, ExtractedPaths(rest[0].1).value, base, domain);
      var acc' := acc + [(name, v)];
      assert UniqueKeys(rest[1..]) && Fresh(rest[1..], acc') && Put(acc, name, v) == acc' by {
        UniqueTail(rest);
        FreshStep(rest, acc, v);
      }
      AddResourcesAppends(rest[1..], base, domain, acc');
      var c := Collected(rest[1..], base, domain);
      assert AddResources(rest, base, domain, acc) == AddResources(rest[1..], base, domain, acc');
      if c.Success? {
        assert Collected(rest, base, domain) == Success([(name, v)] + c.value);
        AppendCons(acc, (name, v), c.value);
      }
    }
  }

  /**
   * Every resource of `rest` gets one entry, in order, under its own name, holding its
   * own triples followed by the rebased base triples; the loop raises exactly when the
   * triples of one of the resources cannot be extracted.
   */
  lemma {:induction false} CollectedEntries(rest: Dict<seq<Element>>, base: seq<PathTriple>, domain: seq<PathTriple>)
    ensures var c := Collected(rest, base, domain);
      c.Success? ==>
        && |c.value| == |rest| && Keys(c.value) == Keys(rest)
        && forall i :: 0 <= i < |rest| ==>
             && ExtractedPaths(rest[i].1).Success?
             && c.value[i].1 == ResourcePaths(rest[i].0, ExtractedPaths(rest[i].1).value, base, domain)
    ensures Collected(rest, base, domain).Failure? <==>
      exists i :: 0 <= i < |rest| && ExtractedPaths(rest[i].1).Failure?
  {
    if rest != [] {
      CollectedEntries(rest[1..], base, domain);
      assert forall i :: 1 <= i < |rest| ==> rest[i] == rest[1..][i - 1];
      var c := Collected(rest, base, domain);
      if c.Failure? && ExtractedPaths(rest[0].1).Success? {
        var i :| 0 <= i < |rest[1..]| && ExtractedPaths(rest[1..][i].1).Failure?;
        assert rest[i + 1] == rest[1..][i];
      }
    }
  }

  /** The resources left once both bases are popped. */
  function Others(entries: Dict<seq<Element>>): Dict<seq<Element>>
  {
    Remove(Remove(entries, ResourceKey), DomainResourceKey)
  }

  /**
   * `build_elements_paths` succeeds only when both bases are present and extract, and
   * then holds exactly one entry per other resource, in the input order.
   */
  lemma ElementsPathsCollects(entries: Dict<seq<Element>>)
    requires UniqueKeys(entries)
    ensures var r := ElementsPaths(entries);
      r.Success? ==>
        && HasKey(entries, ResourceKey) && HasKey(entries, DomainResourceKey)
        && ExtractedPaths(Get(entries, ResourceKey)).Success?
        && ExtractedPaths(Get(entries, DomainResourceKey)).Success?
        && UniqueKeys(Others(entries))
        && (forall k :: HasKey(Others(entries), k) <==> HasKey(entries, k) && k != ResourceKey && k != DomainResourceKey)
        && (forall k :: HasKey(Others(entries), k) ==> Get(Others(entries), k) == Get(entries, k))
        && r == Collected(Others(entries), ExtractedPaths(Get(entries, ResourceKey)).value,
                          ExtractedPaths(Get(entries, DomainResourceKey)).value)
  {
    var r := ElementsPaths(entries);
    if r.Success? {
      var rest := Remove(entries, ResourceKey);
      RemoveGet(entries, ResourceKey);
      RemoveUnique(entries, ResourceKey);
      RemoveGet(rest, DomainResourceKey);
      RemoveUnique(rest, DomainResourceKey);
      var base := ExtractedPaths(Get(entries, ResourceKey)).value;
      var domain := ExtractedPaths(Get(rest, DomainResourceKey)).value;
      AddResourcesAppends(Others(entries), base, domain, []);
      var c := Collected(Others(entries), base, domain);
      if c.Success? {
        assert [] + c.value == c.value;
      }
    }
  }

  /** A successful collection has the keys of the resources it was built from, each once. */
  lemma CollectedKeys(rest: Dict<seq<Element>>, base: seq<PathTriple>, domain: seq<PathTriple>)
    requires UniqueKeys(rest)
    ensures var c := Collected(rest, base, domain);
      c.Success? ==>
        && Keys(c.value) == Keys(rest) && UniqueKeys(c.value)
        && forall k :: HasKey(c.value, k) ==>
             && HasKey(rest, k)
             && ExtractedPaths(Get(rest, k)).Success?
             && Get(c.value, k) == ResourcePaths(k, ExtractedPaths(Get(rest, k)).value, base, domain)
  {
    var r := Collected(rest, base, domain);
    if r.Success? {
      CollectedEntries(rest, base, domain);
      var c := r.value;
      assert UniqueKeys(c) by {
        forall a, b | 0 <= a < b < |c| ensures c[a].0 != c[b].0 {
          assert Keys(c)[a] == Keys(rest)[a] && Keys(c)[b] == Keys(rest)[b];
        }
      }
      forall k | HasKey(c, k)
        ensures HasKey(rest, k)
        ensures ExtractedPaths(Get(rest, k)).Success?
        ensures Get(c, k) == ResourcePaths(k, ExtractedPaths(Get(rest, k)).value, base, domain)
      {
        assert HasKey(rest, k);
        var i := IndexOfKey(rest, k);
        assert Keys(c)[i] == Keys(rest)[i];
        GetAt(c, i);
      }
    }
  }

  /**
   * `build_elements_paths` succeeds only when both bases are present. Its result holds
   * every other resource, in the input order and never a base key, each with its own
   * triples followed by the rebased `Resource` and `DomainResource` triples.
   */
  lemma ElementsPathsResult(entries: Dict<seq<Element>>)
    requires UniqueKeys(entries)
    ensures var r := ElementsPaths(entries);
      r.Success? ==>
        && HasKey(entries, ResourceKey) && HasKey(entries, DomainResourceKey)
        && ExtractedPaths(Get(entries, ResourceKey)).Success?
        && ExtractedPaths(Get(entries, DomainResourceKey)).Success?
        && Keys(r.value) == Keys(Others(entries))
        && UniqueKeys(r.value)
        && (forall k :: HasKey(r.value, k) <==> HasKey(entries, k) && k != ResourceKey && k != DomainResourceKey)
        && (forall k :: HasKey(r.value, k) ==>
              && ExtractedPaths(Get(entries, k)).Success?
              &&
              Get(r.value, k) == ResourcePaths(k, ExtractedPaths(Get(entries, k)).value,
                                               ExtractedPaths(Get(entries, ResourceKey)).value,
                                               ExtractedPaths(Get(entries, DomainResourceKey)).value))
  {
    var r := ElementsPaths(entries);
    if r.Success? {
      ElementsPathsCollects(entries);
      var base := ExtractedPaths(Get(entries, ResourceKey)).value;
      var domain := ExtractedPaths(Get(entries, DomainResourceKey)).value;
      CollectedKeys(Others(entries), base, domain);
    }
  }

  /** The resource dict `build_elements_paths` reads and pops the two bases from. */
  class ResourceElements {
    var entries: Dict<seq<Element>>

    ghost predicate Valid()
      reads this
    {
      UniqueKeys(entries)
    }

    constructor (entries: Dict<seq<Element>>)
      requires UniqueKeys(entries)
      ensures Valid() && this.entries == entries
    {
      this.entries := entries;
    }

    /** `entries.pop(key)`: KeyError when the key is absent. */
    method Pop(key: string) returns (r: Result<seq<Element>>)
      requires Valid()
      modifies this
      ensures Valid()
      ensures HasKey(old(entries), key) ==> r == Success(Get(old(entries), key))
      ensures !HasKey(old(entries), key) ==> r == Failure(KeyError(key))
      ensures entries == Remove(old(entries), key)
      ensures !HasKey(old(entries), key) ==> entries == old(entries)
    {
      RemoveUnique(entries, key);
      if !HasKey(entries, key) {
        RemoveAbsent(entries, key);
        return Failure(KeyError(key));
      }
      r := Success(Get(entries, key));
      entries := Remove(entries, key);
    }
  }

  /**
   * `build_elements_paths`: pops both bases (KeyError if one is missing), extracts
   * their triples, then collects every remaining resource's triples with the rebased
   * bases appended.
   */
  method BuildElementsPaths(resources: ResourceElements) returns (r: Result<Dict<seq<PathTriple>>>)
    requires resources.Valid()
    modifies resources
    ensures resources.Valid()
    ensures r == ElementsPaths(old(resources.entries))
    ensures resources.entries == Popped(old(resources.entries))
  {
    var resourceElements :- resources.Pop(ResourceKey);
    var defaultPaths :- ExtractElementsPaths(resourceElements);
    var domainElements :- resources.Pop(DomainResourceKey);
    var defaultDomainPaths :- ExtractElementsPaths(domainElements);
    var rest := resources.entries;
    var out: Dict<seq<PathTriple>> := [];
    var i := 0;
    while i < |rest|
      invariant 0 <= i <= |rest|
      invariant resources.entries == rest
      invariant AddResources(rest, defaultPaths, defaultDomainPaths, [])
             == AddResources(rest[i..], defaultPaths, defaultDomainPaths, out)
    {
      var (resource, elements) := rest[i];
      AddResourcesStep(rest, i, defaultPaths, defaultDomainPaths, out);
      var own := ExtractElementsPaths(elements);
      if own.Failure? {
        return Failure(own.error);
      }
      var paths := new TripleList(own.value);
      ApplyDefaultPaths(resource, defaultPaths, paths);
      ApplyDefaultPaths(resource, defaultDomainPaths, paths);
      assert paths.items == ResourcePaths(resource, own.value, defaultPaths, defaultDomainPaths);
      out := Put(out, resource, paths.items);
      i := i + 1;
    }
    assert rest[i..] == [];
    r := Success(out);
  }
}
