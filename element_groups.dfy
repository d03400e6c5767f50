/**
 * The `iterate_elements` generator of `create_resource_mapping`
 * (fhirpath_helpers/elasticsearch/mapping.py): it walks the triples of one level and
 * groups each not yet seen path with the triples whose paths extend it.
 */
module ElementGroups {
  import opened Text
  import opened ElementPaths
  import opened Seqs

  /** One value the generator yields: a triple and the triples that extend its path. */
  datatype Group = Group(head: PathTriple, children: seq<PathTriple>)

  /**
   * The child test of the generator: `c` extends `p` as a string. No `.` is required
   * after `p`, so `Patient.nameSuffix` counts as a child of `Patient.name`.
   */
  predicate IsChildPath(c: string, p: string) {
    StartsWith(c, p) && c != p
  }

  /**
   * The children of `p` on a level: the triples of `ts` whose path extends `p` as a
   * string and differs from it, in order. None of them has path `p`, so there are fewer
   * of them than triples whenever the level holds `p` itself.
   */
  function Children(ts: seq<PathTriple>, p: string): (r: seq<PathTriple>)
    ensures |r| <= |ts|
    ensures forall x :: x in r <==> x in ts && IsChildPath(x.path, p)
    ensures (exists q :: 0 <= q < |ts| && ts[q].path == p) ==> |r| < |ts|
  {
    if ts == [] then []
    else
      var rest := Children(ts[1..], p);
      assert forall q :: 1 <= q < |ts| ==> ts[q] == ts[1..][q - 1];
      assert forall x :: x in ts <==> x == ts[0] || x in ts[1..];
      (if IsChildPath(ts[0].path, p) then [ts[0]] else []) + rest
  }

  /** The paths of the given triples, in order. */
  function PathsOf(ts: seq<PathTriple>): (r: seq<string>)
    ensures |r| == |ts| && forall k :: 0 <= k < |ts| ==> r[k] == ts[k].path
  {
    seq(|ts|, k requires 0 <= k < |ts| => ts[k].path)
  }

  /** `p` extends one of the group paths yielded so far. */
  predicate Covered(p: string, heads: seq<string>) {
    heads != [] && (StartsWith(p, heads[|heads| - 1]) || Covered(p, heads[..|heads| - 1]))
  }

  lemma {:induction false} CoveredAt(p: string, heads: seq<string>)
    ensures Covered(p, heads) <==> exists j :: 0 <= j < |heads| && StartsWith(p, heads[j])
  {
    if heads != [] {
      var init := heads[..|heads| - 1];
      CoveredAt(p, init);
      assert forall j :: 0 <= j < |init| ==> init[j] == heads[j];
    }
  }

  lemma CoveredAppend(p: string, heads: seq<string>, h: string)
    ensures Covered(p, heads + [h]) <==> StartsWith(p, h) || Covered(p, heads)
  {
    assert (heads + [h])[..|heads|] == heads;
  }

  /**
   * The groups yielded from position `i` on, when the group paths yielded before are
   * `heads`. A triple is skipped when its path extends one of them: its path is then
   * either one of them or one of their children's paths.
   */
  function GroupsFrom(ts: seq<PathTriple>, i: nat, heads: seq<string>): (gs: seq<Group>)
    requires i <= |ts|
    ensures forall g :: g in gs ==> g.head in ts[i..] && g.children == Children(ts, g.head.path) && |g.children| < |ts|
    decreases |ts| - i
  {
    if i == |ts| then []
    else if Covered(ts[i].path, heads) then GroupsFrom(ts, i + 1, heads)
    else
      var g := Group(ts[i], Children(ts, ts[i].path));
      assert |g.children| < |ts| by {
        assert ts[i].path == ts[i].path;
      }
      [g] + GroupsFrom(ts, i + 1, heads + [ts[i].path])
  }

  /** Everything `iterate_elements` yields for the triples `ts`, in order. */
  function Groups(ts: seq<PathTriple>): (gs: seq<Group>)
    ensures forall g :: g in gs ==> g.head in ts && g.children == Children(ts, g.head.path) && |g.children| < |ts|
  {
    assert ts[0..] == ts;
    GroupsFrom(ts, 0, [])
  }

  /** No earlier triple's path is a prefix of the path of `ts[q]`. */
  predicate StartsGroup(ts: seq<PathTriple>, q: nat)
    requires q < |ts|
  {
    forall q' :: 0 <= q' < q ==> !StartsWith(ts[q].path, ts[q'].path)
  }

  /**
   * A reference definition of the generator: the groups are headed, in input order, by
   * exactly the triples that no earlier triple's path is a prefix of.
   */
  function FirstEncounters(ts: seq<PathTriple>, i: nat): seq<Group>
    requires i <= |ts|
    decreases |ts| - i
  {
    if i == |ts| then []
    else (if StartsGroup(ts, i) then [Group(ts[i], Children(ts, ts[i].path))] else []) + FirstEncounters(ts, i + 1)
  }

  /** `heads` are paths of `ts[..i]` and cover every path of `ts[..i]`. */
  predicate YieldedFor(ts: seq<PathTriple>, i: nat, heads: seq<string>)
    requires i <= |ts|
  {
    && (forall j :: 0 <= j < |heads| ==> heads[j] in PathsOf(ts[..i]))
    && (forall q :: 0 <= q < i ==> Covered(ts[q].path, heads))
  }

  /** With `heads` the group paths yielded for `ts[..i]`, a path is covered iff it extends one of `ts[..i]`. */
  lemma CoveredIffStartsGroup(ts: seq<PathTriple>, i: nat, heads: seq<string>)
    requires i < |ts|
    requires YieldedFor(ts, i, heads)
    ensures Covered(ts[i].path, heads) <==> !StartsGroup(ts, i)
  {
    if Covered(ts[i].path, heads) {
      CoveredAt(ts[i].path, heads);
      var j :| 0 <= j < |heads| && StartsWith(ts[i].path, heads[j]);
      var q :| 0 <= q < i && PathsOf(ts[..i])[q] == heads[j];
      assert ts[..i][q] == ts[q];
      assert !StartsGroup(ts, i);
    }
    if !StartsGroup(ts, i) {
      var q :| 0 <= q < i && StartsWith(ts[i].path, ts[q].path);
      CoveredAt(ts[q].path, heads);
      var j :| 0 <= j < |heads| && StartsWith(ts[q].path, heads[j]);
      StartsWithTrans(ts[i].path, ts[q].path, heads[j]);
      CoveredAt(ts[i].path, heads);
    }
  }

  /** A skipped triple is already covered. */
  lemma YieldedSkip(ts: seq<PathTriple>, i: nat, heads: seq<string>)
    requires i < |ts| && YieldedFor(ts, i, heads) && Covered(ts[i].path, heads)
    ensures YieldedFor(ts, i + 1, heads)
  {
  }

  /** A yielded triple's path joins the heads. */
  lemma YieldedAdd(ts: seq<PathTriple>, i: nat, heads: seq<string>)
    requires i < |ts| && YieldedFor(ts, i, heads)
    ensures YieldedFor(ts, i + 1, heads + [ts[i].path])
  {
    var heads' := heads + [ts[i].path];
    var before, after := PathsOf(ts[..i]), PathsOf(ts[..i + 1]);
    forall j | 0 <= j < |heads'| ensures heads'[j] in after {
      if j < |heads| {
        assert heads[j] in before;
        var q :| 0 <= q < i && before[q] == heads[j];
        assert after[q] == before[q];
      } else {
        assert after[i] == heads'[j];
      }
    }
    forall q | 0 <= q < i + 1 ensures Covered(ts[q].path, heads') {
      CoveredAppend(ts[q].path, heads, ts[i].path);
    }
  }

  lemma {:induction false} GroupsFromFirstEncounters(ts: seq<PathTriple>, i: nat, heads: seq<string>)
    requires i <= |ts|
    requires YieldedFor(ts, i, heads)
    ensures GroupsFrom(ts, i, heads) == FirstEncounters(ts, i)
    decreases |ts| - i
  {
    if i < |ts| {
      CoveredIffStartsGroup(ts, i, heads);
      if Covered(ts[i].path, heads) {
        YieldedSkip(ts, i, heads);
        GroupsFromFirstEncounters(ts, i + 1, heads);
      } else {
        YieldedAdd(ts, i, heads);
        GroupsFromFirstEncounters(ts, i + 1, heads + [ts[i].path]);
      }
    }
  }

  /**
   * Each path is grouped at most once and in first-encounter order: `iterate_elements`
   * yields, in input order, one group per triple that no earlier triple's path is a
   * prefix of (a repeated path or an extension of an earlier path is skipped), with
   * every triple of the level that extends it.
   */
  lemma GroupsAreFirstEncounters(ts: seq<PathTriple>)
    ensures Groups(ts) == FirstEncounters(ts, 0)
  {
    GroupsFromFirstEncounters(ts, 0, []);
  }

  /** Every triple of the level is the head of a group or extends an earlier head. */
  lemma {:induction false} EveryTripleHasGroup(ts: seq<PathTriple>, q: nat)
    requires q < |ts|
    ensures exists h :: 0 <= h <= q && StartsGroup(ts, h) && StartsWith(ts[q].path, ts[h].path)
  {
    if StartsGroup(ts, q) {
      assert StartsWith(ts[q].path, ts[q].path);
    } else {
      var q' :| 0 <= q' < q && StartsWith(ts[q].path, ts[q'].path);
      EveryTripleHasGroup(ts, q');
      var h :| 0 <= h <= q' && StartsGroup(ts, h) && StartsWith(ts[q'].path, ts[h].path);
      StartsWithTrans(ts[q].path, ts[q'].path, ts[h].path);
    }
  }

  /** Marking `p` and the paths of its children as mapped is what adding `p` to the heads covers. */
  lemma MappedAdd(ts: seq<PathTriple>, mapped: seq<string>, heads: seq<string>, p: string)
    requires forall q :: 0 <= q < |ts| ==> (ts[q].path in mapped <==> Covered(ts[q].path, heads))
    ensures forall q :: 0 <= q < |ts| ==>
      (ts[q].path in mapped + [p] + PathsOf(Children(ts, p)) <==> Covered(ts[q].path, heads + [p]))
  {
    var children := Children(ts, p);
    forall q | 0 <= q < |ts|
      ensures ts[q].path in mapped + [p] + PathsOf(children) <==> Covered(ts[q].path, heads + [p])
    {
      var c := ts[q].path;
      CoveredAppend(c, heads, p);
      assert c in PathsOf(children) <==> IsChildPath(c, p) by {
        if IsChildPath(c, p) {
          assert ts[q] in children;
          var k :| 0 <= k < |children| && children[k] == ts[q];
          assert PathsOf(children)[k] == c;
        }
        if c in PathsOf(children) {
          var k :| 0 <= k < |children| && PathsOf(children)[k] == c;
          assert children[k] in children;
        }
      }
    }
  }

  /**
   * `iterate_elements`: the loop over the triples that keeps the list of paths already
   * mapped and yields a group for each triple whose path is not in it. The yielded
   * groups are collected eagerly.
   */
  method IterateElements(ts: seq<PathTriple>) returns (gs: seq<Group>)
    ensures gs == Groups(ts)
  {
    var mappedElements: seq<string> := [];
    ghost var heads: seq<string> := [];
    gs := [];
    var i := 0;
    while i < |ts|
      invariant 0 <= i <= |ts|
      invariant Groups(ts) == gs + GroupsFrom(ts, i, heads)
      invariant forall q :: 0 <= q < |ts| ==> (ts[q].path in mappedElements <==> Covered(ts[q].path, heads))
    {
      var t := ts[i];
      if t.path !in mappedElements {
        var children := Children(ts, t.path);
        MappedAdd(ts, mappedElements, heads, t.path);
        AppendCons(gs, Group(t, children), GroupsFrom(ts, i + 1, heads + [t.path]));
        mappedElements := mappedElements + [t.path] + PathsOf(children);
        gs := gs + [Group(t, children)];
        heads := heads + [t.path];
      }
      i := i + 1;
    }
  }

  /** A group head is yielded by the generator from any earlier position on. */
  lemma {:induction false} HeadInFirstEncounters(ts: seq<PathTriple>, i: nat, h: nat)
    requires i <= h < |ts| && StartsGroup(ts, h)
    ensures Group(ts[h], Children(ts, ts[h].path)) in FirstEncounters(ts, i)
    decreases h - i
  {
    if i < h {
      HeadInFirstEncounters(ts, i + 1, h);
    }
  }

  /**
   * The string-prefix child test in general: a triple whose path strictly extends the
   * path of an earlier triple never heads a group; it is a child of a yielded group,
   * the one of the first head its path extends.
   */
  lemma ExtensionIsChild(ts: seq<PathTriple>, i: nat, j: nat)
    requires i < j < |ts| && IsChildPath(ts[j].path, ts[i].path)
    ensures !StartsGroup(ts, j)
    ensures exists h :: 0 <= h < j && Group(ts[h], Children(ts, ts[h].path)) in Groups(ts) && ts[j] in Children(ts, ts[h].path)
  {
    EveryTripleHasGroup(ts, i);
    var h :| 0 <= h <= i && StartsGroup(ts, h) && StartsWith(ts[i].path, ts[h].path);
    StartsWithTrans(ts[j].path, ts[i].path, ts[h].path);
    assert IsChildPath(ts[j].path, ts[h].path);
    assert ts[j] in ts;
    HeadInFirstEncounters(ts, 0, h);
    GroupsAreFirstEncounters(ts);
  }

  /**
   * The string-prefix child test in action: `A.bc` is grouped under `A.b`, so it is never
   * mapped on its own level.
   */
  lemma ExtendedNameIsChild()
    ensures var ts := [PathTriple("A.b", "string", false), PathTriple("A.bc", "string", false)];
      Groups(ts) == [Group(ts[0], [ts[1]])]
  {
    var ts := [PathTriple("A.b", "string", false), PathTriple("A.bc", "string", false)];
    GroupsAreFirstEncounters(ts);
    assert StartsWith(ts[1].path, ts[0].path);
    assert Children(ts, "A.b") == [ts[1]] by {
      assert ts[1..][1..] == [];
    }
  }
}
