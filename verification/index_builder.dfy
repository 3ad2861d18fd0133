/**
 * The index builder as a whole: the flat index, the Location -> Equipment skeleton,
 * and the final loop over Point items. A point goes under the first of its group names
 * that is equipment collected from the tree; failing that, under the first that is a
 * location, which leaves it out of the tree when that location is unreachable; and is
 * omitted from the tree otherwise.
 */
module IndexBuilder {
  import opened Wrappers
  import opened Seqs
  import opened AssocList
  import opened Grouping
  import opened FlatIndex
  import opened Hierarchy

  /**
   * The decision the point loop takes for one `items_by_name` entry, given the keys of
   * `equipment_nodes` and of `location_nodes`. A found group name is tested for
   * truthiness as the source does, so an empty name would fall through to the next rule.
   */
  function PointPlace(eqs: set<string>, locs: set<string>, e: Entry): Placement {
    if !e.semantic.isPoint then NotAPoint
    else
      var pe := FirstIn(e.groupNames, eqs);
      if Truthy(pe) then OnEquipment(pe.value)
      else
        var pl := FirstIn(e.groupNames, locs);
        if Truthy(pl) then OnLocation(pl.value)
        else Unplaced
  }

  /** The placement of the entry stored under `n`. */
  function PointOf(f: Flat, n: string): Placement {
    match Get(f.itemsByName, n)
    case Some(e) => PointPlace(EqNodeSet(f), LocSet(f), e)
    case None => NotAPoint
  }

  function PointKey(f: Flat): string -> Placement {
    n => PointOf(f, n)
  }

  /** The point lists built by the point loop, which walks `items_by_name` in order. */
  function PointGroups(f: Flat): map<Placement, seq<string>> {
    Group(Keys(f.itemsByName), PointKey(f))
  }

  /** The value `build_items_index` returns. */
  datatype Index = Index(itemsByName: Dict<string, Entry>, semanticTree: seq<LocationNode>)

  /** `build_items_index`: total on the modelled inputs, where every item is a record. */
  function BuildItemsIndex(items: seq<RawItem>): Index {
    var f := BuildFlat(items);
    Index(f.itemsByName, Forest(f, PointGroups(f)))
  }

  /** No name in `equipment_nodes` or `location_nodes` is empty, so the truthiness tests never fire. */
  lemma NoEmptyParent(items: seq<RawItem>)
    ensures "" !in LocSet(BuildFlat(items))
    ensures "" !in EqNodeSet(BuildFlat(items))
  {
    var f := BuildFlat(items);
    NoEmptyKeys(items);
    forall l | Reachable(f, l)
      ensures "" !in EquipmentAt(f, l)
    {
      EquipmentPlacement(f, "", l);
    }
    EqNodesReachable(f, "");
  }

  /**
   * The point rules for one entry, when no candidate parent is the empty name: non-points
   * are never placed; a point goes to the first of its group names that is in `eqs`;
   * failing that, to the first that is in `locs`; and is omitted from the tree otherwise.
   */
  lemma PointRules(eqs: set<string>, locs: set<string>, e: Entry)
    requires "" !in eqs && "" !in locs
    ensures PointPlace(eqs, locs, e) == NotAPoint <==> !e.semantic.isPoint
    ensures forall q :: PointPlace(eqs, locs, e) == OnEquipment(q) <==>
      e.semantic.isPoint && FirstMatch(e.groupNames, eqs, q)
    ensures forall l :: PointPlace(eqs, locs, e) == OnLocation(l) <==>
      && e.semantic.isPoint
      && (forall i :: 0 <= i < |e.groupNames| ==> e.groupNames[i] !in eqs)
      && FirstMatch(e.groupNames, locs, l)
    ensures PointPlace(eqs, locs, e) == Unplaced <==>
      && e.semantic.isPoint
      && (forall i :: 0 <= i < |e.groupNames| ==> e.groupNames[i] !in eqs)
      && (forall i :: 0 <= i < |e.groupNames| ==> e.groupNames[i] !in locs)
  {
    forall q
      ensures FirstIn(e.groupNames, eqs) == Some(q) <==> FirstMatch(e.groupNames, eqs, q)
    {
      FirstInIsFirstMatch(e.groupNames, eqs, q);
    }
    forall l
      ensures FirstIn(e.groupNames, locs) == Some(l) <==> FirstMatch(e.groupNames, locs, l)
    {
      FirstInIsFirstMatch(e.groupNames, locs, l);
    }
  }

  /**
   * In the built index the rules apply to every entry with the keys of
   * `equipment_nodes` (equipment under a reachable location) and `location_nodes`.
   */
  lemma PointPlacement(items: seq<RawItem>, f: Flat, n: string, e: Entry)
    requires f == BuildFlat(items)
    requires Get(f.itemsByName, n) == Some(e)
    ensures PointOf(f, n) == PointPlace(EqNodeSet(f), LocSet(f), e)
    ensures "" !in EqNodeSet(f) && "" !in LocSet(f)
    ensures forall q :: q in EqNodeSet(f) <==> exists l :: Reachable(f, l) && q in EquipmentAt(f, l)
  {
    NoEmptyParent(items);
    forall q
      ensures q in EqNodeSet(f) <==> exists l :: Reachable(f, l) && q in EquipmentAt(f, l)
    {
      EqNodesReachable(f, q);
    }
  }

  /**
   * The point lists follow `items_by_name` order, each holds exactly the entries placed
   * there without repetition, and no entry is in two lists.
   */
  lemma PointLists(items: seq<RawItem>, f: Flat, n: string, p: Placement)
    requires f == BuildFlat(items)
    ensures Bucket(PointGroups(f), p) == Select(Keys(f.itemsByName), PointKey(f), p)
    ensures n in Bucket(PointGroups(f), p) <==> n in Keys(f.itemsByName) && PointOf(f, n) == p
    ensures Distinct(Bucket(PointGroups(f), p))
  {
    Indexed(items, n);
  }

  /** A point is placed at most once: never under two equipment, two locations, or both. */
  lemma PointPlacedOnce(f: Flat, n: string, p: Placement, p': Placement)
    requires n in Bucket(PointGroups(f), p) && n in Bucket(PointGroups(f), p')
    ensures p == p'
  {
    assert PointKey(f)(n) == p;
  }

  /**
   * A point that is omitted, or placed on a location no root reaches (one on a
   * `groupNames` cycle, a self-loop included), is in no point list of the returned
   * tree: neither a location node's nor one of its equipment nodes'.
   */
  lemma PointOffTree(items: seq<RawItem>, n: string, m: LocationNode)
    requires InTree(BuildItemsIndex(items).semanticTree, m)
    requires var f := BuildFlat(items);
      PointOf(f, n) == Unplaced || (PointOf(f, n).OnLocation? && !Reachable(f, PointOf(f, n).location))
    ensures n !in m.points
    ensures forall q :: q in m.equipment ==> n !in q.points
  {
    var f := BuildFlat(items);
    var pg := PointGroups(f);
    ForestExact(f, pg, m.item);
    assert SoundNode(f, pg, m) && Reachable(f, m.item);
    PointLists(items, f, n, OnLocation(m.item));
    forall q | q in m.equipment
      ensures n !in q.points
    {
      PointLists(items, f, n, OnEquipment(q.item));
    }
  }

  /** A point whose chosen location is its own first location group is lost from the tree. */
  lemma SelfLoopPointLost(items: seq<RawItem>, n: string, l: string, m: LocationNode)
    requires var f := BuildFlat(items); PointOf(f, n) == OnLocation(l) && LocParent(f, l) == Some(l)
    requires InTree(BuildItemsIndex(items).semanticTree, m)
    ensures n !in m.points
  {
    SelfLoopUnreachable(BuildFlat(items), l);
    PointOffTree(items, n, m);
  }

  /** Every `item` name in a subtree is one of `keys`. */
  ghost predicate NamesIn(n: LocationNode, keys: seq<string>)
    decreases n
  {
    && n.item in keys
    && (forall x :: x in n.points ==> x in keys)
    && (forall q :: q in n.equipment ==> q.item in keys && forall x :: x in q.points ==> x in keys)
    && (forall c :: c in n.childrenLocations ==> NamesIn(c, keys))
  }

  lemma {:induction false} SoundNamesIn(items: seq<RawItem>, f: Flat, pg: map<Placement, seq<string>>, n: LocationNode)
    requires f == BuildFlat(items)
    requires SoundNode(f, pg, n)
    requires forall p, x :: x in Bucket(pg, p) ==> x in Keys(f.itemsByName)
    ensures NamesIn(n, Keys(f.itemsByName))
    decreases n
  {
    var ch :| IsChain(f, ch) && Last(ch) == n.item;
    StructuralIndexed(items, n.item);
    forall q | q in n.equipment
      ensures q.item in Keys(f.itemsByName)
    {
      StructuralIndexed(items, q.item);
    }
    forall c | c in n.childrenLocations
      ensures NamesIn(c, Keys(f.itemsByName))
    {
      SoundNamesIn(items, f, pg, c);
    }
  }

  /**
   * The returned tree: its top level is exactly the root locations, in `locations` order;
   * every node is sound (its child and equipment lists are exactly the ones the placement
   * loops built, and each point list is the one the point loop built); and every name it
   * mentions is a key of `items_by_name`.
   */
  lemma IndexTree(items: seq<RawItem>)
    ensures var f := BuildFlat(items);
      NodeItems(BuildItemsIndex(items).semanticTree) == Select(Keys(f.locations), LocKey(f), None)
    ensures var f := BuildFlat(items);
      forall r :: r in BuildItemsIndex(items).semanticTree ==>
        && LocParent(f, r.item) == None
        && SoundNode(f, PointGroups(f), r)
        && NamesIn(r, Keys(BuildItemsIndex(items).itemsByName))
  {
    var f := BuildFlat(items);
    var pg := PointGroups(f);
    ForestSound(f, pg);
    ForestItems(f, pg);
    forall p, x | x in Bucket(pg, p)
      ensures x in Keys(f.itemsByName)
    {
      PointLists(items, f, x, p);
    }
    forall r | r in Forest(f, pg)
      ensures NamesIn(r, Keys(f.itemsByName))
    {
      SoundNamesIn(items, f, pg, r);
    }
  }
}
