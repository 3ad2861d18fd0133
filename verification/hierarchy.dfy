/**
 * The Location -> Equipment skeleton of the semantic tree.
 *
 * The nested dictionaries of the source share node objects between `location_nodes`
 * and the tree; here the tree is described by a parent function on location names
 * (`LocParent`, the first group name that is a location) and the ordered child lists
 * derived from it, and the nested `LocationNode` values are rendered from those lists.
 *
 * Rendering and `collect_equipment_nodes` descend from the roots only. A location's
 * parent is unique, so a descent follows a chain of distinct locations starting at a
 * root (`IsChain`); such a chain is no longer than the number of locations, which is the
 * termination measure. Locations caught in a `groupNames` cycle lie on no chain and are
 * never reached.
 */
module Hierarchy {
  import opened Wrappers
  import opened Seqs
  import opened AssocList
  import opened Grouping
  import opened FlatIndex
  import opened Chains

  /** Where the point-placement loop puts one `items_by_name` entry. */
  datatype Placement =
    | OnEquipment(equipment: string)
    | OnLocation(location: string)
    | Unplaced
    | NotAPoint

  /** `{item, points}`; a point reference `{item: name}` is kept as the bare name. */
  datatype EquipmentNode = EquipmentNode(item: string, points: seq<string>)

  /** `{item, children_locations, equipment, points}`. */
  datatype LocationNode = LocationNode(
    item: string,
    childrenLocations: seq<LocationNode>,
    equipment: seq<EquipmentNode>,
    points: seq<string>)

  /** The names of `location_nodes`, in `locations` order. */
  function LocNames(f: Flat): seq<string> {
    Keys(f.locations)
  }

  function LocSet(f: Flat): set<string> {
    set n | n in Keys(f.locations)
  }

  /** The `groupNames` recorded for `n` in an auxiliary map. */
  function GroupsOf(d: Dict<string, Structural>, n: string): seq<string> {
    match Get(d, n)
    case Some(r) => r.groupNames
    case None => []
  }

  /** `parent_locations[0]` for a location, or `None` for a root location. */
  function LocParent(f: Flat, n: string): Option<string> {
    FirstIn(GroupsOf(f.locations, n), LocSet(f))
  }

  function LocKey(f: Flat): string -> Option<string> {
    n => LocParent(f, n)
  }

  /**
   * The loop that assigns the location hierarchy: in `locations` order, each location is
   * appended to the root list (bucket `None`) or to its parent's `children_locations`.
   */
  function LocationLists(f: Flat): map<Option<string>, seq<string>> {
    Group(LocNames(f), LocKey(f))
  }

  function Roots(f: Flat): seq<string> {
    Bucket(LocationLists(f), None)
  }

  function Children(f: Flat, l: string): seq<string> {
    Bucket(LocationLists(f), Some(l))
  }

  /** The location an equipment item is appended under: its first group name that is a location. */
  function EqParent(f: Flat, e: string): Option<string> {
    FirstIn(GroupsOf(f.equipment, e), LocSet(f))
  }

  function EqKey(f: Flat): string -> Option<string> {
    n => EqParent(f, n)
  }

  /** The loop mapping equipment to locations; bucket `None` holds the equipment left out of the tree. */
  function EquipmentLists(f: Flat): map<Option<string>, seq<string>> {
    Group(Keys(f.equipment), EqKey(f))
  }

  function EquipmentAt(f: Flat, l: string): seq<string> {
    Bucket(EquipmentLists(f), Some(l))
  }

  /**
   * A location's parent is read from the group names of its last occurrence flagged as a
   * location, not from the entry `items_by_name` keeps for the same name.
   */
  lemma LocParentFromLast(items: seq<RawItem>, i: int)
    requires 0 <= i < |items| && LocationKey(items[i]).Some?
    requires forall j :: i < j < |items| ==> LocationKey(items[j]) != LocationKey(items[i])
    ensures var f := BuildFlat(items);
      LocParent(f, LocationKey(items[i]).value) == FirstIn(GroupNamesOf(items[i]), LocSet(f))
  {
    LocationsHoldLast(items, i);
  }

  /** Likewise an equipment item's location is read from its last occurrence flagged as equipment. */
  lemma EqParentFromLast(items: seq<RawItem>, i: int)
    requires 0 <= i < |items| && EquipmentKey(items[i]).Some?
    requires forall j :: i < j < |items| ==> EquipmentKey(items[j]) != EquipmentKey(items[i])
    ensures var f := BuildFlat(items);
      EqParent(f, EquipmentKey(items[i]).value) == FirstIn(GroupNamesOf(items[i]), LocSet(f))
  {
    EquipmentHoldLast(items, i);
  }

  /**
   * Location placement: a location is a root iff none of its group names is a location,
   * and otherwise a child of exactly the first group name that is one; root and child
   * lists follow `locations` order.
   */
  lemma LocationPlacement(f: Flat, l: string, p: string)
    ensures l in Roots(f) <==> l in LocSet(f) && LocParent(f, l) == None
    ensures l in Children(f, p) <==> l in LocSet(f) && LocParent(f, l) == Some(p)
    ensures Roots(f) == Select(LocNames(f), LocKey(f), None)
    ensures Children(f, p) == Select(LocNames(f), LocKey(f), Some(p))
    ensures Valid(f.locations) ==> Distinct(Roots(f)) && Distinct(Children(f, p))
  {
  }

  /**
   * Equipment placement: an equipment item is listed under location `l` iff `l` is the
   * first of its group names that is a location, at most once; with no location among
   * its group names it is under no location at all.
   */
  lemma EquipmentPlacement(f: Flat, e: string, l: string)
    ensures e in EquipmentAt(f, l) <==> e in Keys(f.equipment) && EqParent(f, e) == Some(l)
    ensures EquipmentAt(f, l) == Select(Keys(f.equipment), EqKey(f), Some(l))
    ensures Valid(f.equipment) ==> Distinct(EquipmentAt(f, l))
    ensures (forall g :: g in GroupsOf(f.equipment, e) ==> g !in LocSet(f)) ==> e !in EquipmentAt(f, l)
  {
  }

  function Last(path: seq<string>): string
    requires |path| > 0
  {
    path[|path| - 1]
  }

  /** A descent from a root: distinct locations, each the parent of the next. */
  ghost predicate IsChain(f: Flat, path: seq<string>) {
    IsChainOf(LocKey(f), LocSet(f), path)
  }

  /** A location is reachable when some descent from a root ends at it. */
  ghost predicate Reachable(f: Flat, l: string) {
    exists ch :: IsChain(f, ch) && Last(ch) == l
  }

  /** Descending to a child extends a chain, and a chain that can still grow is shorter than the location set. */
  lemma ChainExtend(f: Flat, path: seq<string>, c: string)
    requires IsChain(f, path)
    requires c in Children(f, Last(path))
    ensures IsChain(f, path + [c])
    ensures |path| < |LocSet(f)|
  {
    LocationPlacement(f, c, Last(path));
    Extend(LocKey(f), LocSet(f), path, c);
  }

  /** A root on its own is a chain. */
  lemma RootChain(f: Flat, r: string)
    requires r in Roots(f)
    ensures IsChain(f, [r])
  {
    LocationPlacement(f, r, r);
    Single(LocKey(f), LocSet(f), r);
  }

  /** The equipment nodes of a location, each holding the points placed on it. */
  function EquipmentNodes(pg: map<Placement, seq<string>>, es: seq<string>): (ns: seq<EquipmentNode>)
    ensures |ns| == |es|
    ensures forall i :: 0 <= i < |es| ==> ns[i] == EquipmentNode(es[i], Bucket(pg, OnEquipment(es[i])))
  {
    seq(|es|, i requires 0 <= i < |es| => EquipmentNode(es[i], Bucket(pg, OnEquipment(es[i]))))
  }

  /**
   * The node of the last location of a descent, with its child locations, its equipment
   * and the points that `pg` places on it or on its equipment.
   */
  function Render(f: Flat, pg: map<Placement, seq<string>>, path: seq<string>): LocationNode
    requires IsChain(f, path)
    decreases |LocSet(f)| - |path|, 1, 0
  {
    var l := Last(path);
    LocationNode(l, RenderAll(f, pg, path, Children(f, l)), EquipmentNodes(pg, EquipmentAt(f, l)), Bucket(pg, OnLocation(l)))
  }

  function RenderAll(f: Flat, pg: map<Placement, seq<string>>, path: seq<string>, cs: seq<string>): (ns: seq<LocationNode>)
    requires IsChain(f, path)
    requires forall c :: c in cs ==> c in Children(f, Last(path))
    ensures |ns| == |cs|
    decreases |LocSet(f)| - |path|, 0, |cs|
  {
    if |cs| == 0 then []
    else
      ChainExtend(f, path, cs[0]);
      [Render(f, pg, path + [cs[0]])] + RenderAll(f, pg, path, cs[1..])
  }

  function RenderRoots(f: Flat, pg: map<Placement, seq<string>>, rs: seq<string>): seq<LocationNode>
    requires forall r :: r in rs ==> r in Roots(f)
  {
    if |rs| == 0 then []
    else
      RootChain(f, rs[0]);
      [Render(f, pg, [rs[0]])] + RenderRoots(f, pg, rs[1..])
  }

  /** `semantic_tree["locations"]`: the root nodes, in `locations` order. */
  function Forest(f: Flat, pg: map<Placement, seq<string>>): seq<LocationNode> {
    RenderRoots(f, pg, Roots(f))
  }

  function EquipmentItems(es: seq<EquipmentNode>): seq<string> {
    seq(|es|, i requires 0 <= i < |es| => es[i].item)
  }

  /** The `item` names of a list of location nodes, in order. */
  function NodeItems(ns: seq<LocationNode>): seq<string> {
    seq(|ns|, i requires 0 <= i < |ns| => ns[i].item)
  }

  /** Putting the node of `cs[0]` in front of nodes for `cs[1..]` gives nodes for `cs`. */
  lemma NodeItemsCons(n: LocationNode, ns: seq<LocationNode>, cs: seq<string>)
    requires |cs| > 0 && n.item == cs[0] && NodeItems(ns) == cs[1..]
    ensures NodeItems([n] + ns) == cs
  {
    assert forall i :: 0 < i < |ns| + 1 ==> ([n] + ns)[i] == ns[i - 1];
  }

  /** `collect_equipment_nodes`: the equipment of a node, then that of its children, depth first. */
  function CollectNode(n: LocationNode): seq<string>
    decreases n
  {
    EquipmentItems(n.equipment) + CollectAll(n.childrenLocations)
  }

  function CollectAll(ns: seq<LocationNode>): seq<string>
    decreases ns
  {
    if |ns| == 0 then [] else CollectNode(ns[0]) + CollectAll(ns[1..])
  }

  /**
   * The keys of `equipment_nodes`: collected from the tree before any point is placed,
   * starting at the roots.
   */
  function EqNodes(f: Flat): seq<string> {
    CollectAll(Forest(f, map[]))
  }

  function EqNodeSet(f: Flat): set<string> {
    set e | e in EqNodes(f)
  }

  /** `l` ends some descent that begins with `path`. */
  ghost predicate Below(f: Flat, path: seq<string>, l: string) {
    exists ch :: IsChain(f, ch) && |path| <= |ch| && ch[..|path|] == path && Last(ch) == l
  }

  lemma CollectRenderAll(f: Flat, pg: map<Placement, seq<string>>, path: seq<string>, cs: seq<string>, e: string)
    requires IsChain(f, path)
    requires forall c :: c in cs ==> c in Children(f, Last(path))
    ensures e in CollectAll(RenderAll(f, pg, path, cs)) <==>
      exists c :: c in cs && IsChain(f, path + [c]) && e in CollectNode(Render(f, pg, path + [c]))
    decreases |cs|
  {
    if |cs| > 0 {
      ChainExtend(f, path, cs[0]);
      var ns := RenderAll(f, pg, path, cs);
      assert ns[0] == Render(f, pg, path + [cs[0]]);
      assert ns[1..] == RenderAll(f, pg, path, cs[1..]);
      CollectRenderAll(f, pg, path, cs[1..], e);
    }
  }

  /** What collecting below a rendered node consists of. */
  lemma CollectRenderUnfold(f: Flat, pg: map<Placement, seq<string>>, path: seq<string>)
    requires IsChain(f, path)
    ensures CollectNode(Render(f, pg, path))
      == EquipmentAt(f, Last(path)) + CollectAll(RenderAll(f, pg, path, Children(f, Last(path))))
  {
    var n := Render(f, pg, path);
    assert EquipmentItems(n.equipment) == EquipmentAt(f, Last(path));
  }

  /** Collecting below a descent finds only equipment of locations further down it. */
  lemma {:induction false} CollectRenderSound(f: Flat, pg: map<Placement, seq<string>>, path: seq<string>, e: string)
    requires IsChain(f, path)
    requires e in CollectNode(Render(f, pg, path))
    ensures exists l :: Below(f, path, l) && e in EquipmentAt(f, l)
    decreases |LocSet(f)| - |path|
  {
    var l := Last(path);
    if e in EquipmentAt(f, l) {
      BelowSelf(f, path);
    } else {
      var c := CollectStep(f, pg, path, e);
      CollectRenderSound(f, pg, path + [c], e);
      var l' :| Below(f, path + [c], l') && e in EquipmentAt(f, l');
      BelowParent(f, path, c, l');
      assert Below(f, path, l') && e in EquipmentAt(f, l');
    }
  }

  /** What is collected below a node but is not its own equipment is collected below one of its children. */
  lemma CollectStep(f: Flat, pg: map<Placement, seq<string>>, path: seq<string>, e: string) returns (c: string)
    requires IsChain(f, path)
    requires e in CollectNode(Render(f, pg, path)) && e !in EquipmentAt(f, Last(path))
    ensures c in Children(f, Last(path)) && IsChain(f, path + [c]) && |path| < |LocSet(f)|
    ensures e in CollectNode(Render(f, pg, path + [c]))
  {
    var cs := Children(f, Last(path));
    CollectRenderUnfold(f, pg, path);
    CollectRenderAll(f, pg, path, cs, e);
    c :| c in cs && IsChain(f, path + [c]) && e in CollectNode(Render(f, pg, path + [c]));
    ChainExtend(f, path, c);
  }

  /** The end of a descent is below it. */
  lemma BelowSelf(f: Flat, path: seq<string>)
    requires IsChain(f, path)
    ensures Below(f, path, Last(path))
  {
    assert path[..|path|] == path;
  }

  /** A location below a child of a descent is below the descent. */
  lemma BelowParent(f: Flat, path: seq<string>, c: string, l: string)
    requires Below(f, path + [c], l)
    ensures Below(f, path, l)
  {
    var ch :| IsChain(f, ch) && |path + [c]| <= |ch| && ch[..|path + [c]|] == path + [c] && Last(ch) == l;
    PrefixShrinks(ch, path, c);
  }

  /** Collecting below a descent finds the equipment of every location further down it. */
  lemma {:induction false} CollectRenderComplete(f: Flat, pg: map<Placement, seq<string>>, path: seq<string>, ch: seq<string>, e: string)
    requires IsChain(f, path)
    requires IsChain(f, ch) && |path| <= |ch| && ch[..|path|] == path
    requires e in EquipmentAt(f, Last(ch))
    ensures e in CollectNode(Render(f, pg, path))
    decreases |ch| - |path|
  {
    var l := Last(path);
    var cs := Children(f, l);
    CollectRenderUnfold(f, pg, path);
    if |ch| == |path| {
      assert ch == path;
    } else {
      var c := ch[|path|];
      assert ch[|path| - 1] == l;
      LocationPlacement(f, c, l);
      assert c in cs;
      ChainExtend(f, path, c);
      var next := path + [c];
      TakeOneMore(ch, |path|);
      CollectRenderComplete(f, pg, next, ch, e);
      CollectRenderAll(f, pg, path, cs, e);
    }
  }

  lemma CollectRoots(f: Flat, pg: map<Placement, seq<string>>, rs: seq<string>, e: string)
    requires forall r :: r in rs ==> r in Roots(f)
    ensures e in CollectAll(RenderRoots(f, pg, rs)) <==>
      exists r :: r in rs && IsChain(f, [r]) && e in CollectNode(Render(f, pg, [r]))
    decreases |rs|
  {
    if |rs| > 0 {
      RootChain(f, rs[0]);
      var ns := RenderRoots(f, pg, rs);
      assert ns[0] == Render(f, pg, [rs[0]]);
      assert ns[1..] == RenderRoots(f, pg, rs[1..]);
      CollectRoots(f, pg, rs[1..], e);
    }
  }

  /** Every collected equipment item lies under a reachable location. */
  lemma EqNodesSound(f: Flat, e: string)
    requires e in EqNodes(f)
    ensures exists l :: Reachable(f, l) && e in EquipmentAt(f, l)
  {
    var pg: map<Placement, seq<string>> := map[];
    CollectRoots(f, pg, Roots(f), e);
    var r :| r in Roots(f) && IsChain(f, [r]) && e in CollectNode(Render(f, pg, [r]));
    CollectRenderSound(f, pg, [r], e);
    var l :| Below(f, [r], l) && e in EquipmentAt(f, l);
    assert Reachable(f, l);
  }

  /** Every descent starts at a root. */
  lemma ChainStart(f: Flat, ch: seq<string>)
    requires IsChain(f, ch)
    ensures ch[0] in Roots(f) && IsChain(f, [ch[0]]) && ch[..1] == [ch[0]]
  {
    LocationPlacement(f, ch[0], ch[0]);
    RootChain(f, ch[0]);
  }

  /** A descent starts at a root, so the equipment at its end is collected. */
  lemma EqNodesComplete(f: Flat, ch: seq<string>, e: string)
    requires IsChain(f, ch) && e in EquipmentAt(f, Last(ch))
    ensures e in EqNodes(f)
  {
    var pg: map<Placement, seq<string>> := map[];
    ChainStart(f, ch);
    CollectRenderComplete(f, pg, [ch[0]], ch, e);
    RootCollected(f, pg, Roots(f), ch[0], e);
  }

  lemma RootCollected(f: Flat, pg: map<Placement, seq<string>>, rs: seq<string>, r: string, e: string)
    requires forall r :: r in rs ==> r in Roots(f)
    requires r in rs && IsChain(f, [r]) && e in CollectNode(Render(f, pg, [r]))
    ensures e in CollectAll(RenderRoots(f, pg, rs))
  {
    CollectRoots(f, pg, rs, e);
  }

  /**
   * `equipment_nodes` holds exactly the equipment placed under a location that some
   * descent from a root reaches; equipment under a location the roots cannot reach is
   * invisible to the point lookup.
   */
  lemma EqNodesReachable(f: Flat, e: string)
    ensures e in EqNodes(f) <==> exists l :: Reachable(f, l) && e in EquipmentAt(f, l)
  {
    if e in EqNodes(f) {
      EqNodesSound(f, e);
    }
    forall l | Reachable(f, l) && e in EquipmentAt(f, l)
      ensures e in EqNodes(f)
    {
      var ch :| IsChain(f, ch) && Last(ch) == l;
      EqNodesComplete(f, ch, e);
    }
  }

  /**
   * Locations on a `groupNames` cycle (a self-loop included) are never reached from the
   * roots, so the traversal never enters them and their equipment is not collected.
   */
  lemma CycleUnreachable(f: Flat, cy: seq<string>, k: int, e: string)
    requires IsCycleOf(LocKey(f), cy) && 0 <= k < |cy|
    ensures !Reachable(f, cy[k])
    ensures EqParent(f, e) == Some(cy[k]) ==> e !in EqNodes(f)
  {
    forall ch | IsChain(f, ch)
      ensures Last(ch) != cy[k]
    {
      NoChainToCycle(LocKey(f), LocSet(f), cy, ch, k);
    }
    forall l | Reachable(f, l)
      ensures EqParent(f, e) == Some(cy[k]) ==> e !in EquipmentAt(f, l)
    {
      EquipmentPlacement(f, e, l);
    }
    EqNodesReachable(f, e);
  }

  /** A location whose first location group is itself is a one-element cycle. */
  lemma SelfLoopUnreachable(f: Flat, l: string)
    requires LocParent(f, l) == Some(l)
    ensures !Reachable(f, l)
  {
    assert IsCycleOf(LocKey(f), [l]);
    CycleUnreachable(f, [l], 0, l);
  }

  /**
   * Every edge of a rendered node is a placement edge: its locations are reachable,
   * each child location's first location group is this node, each equipment's first
   * location group is this node, and the point lists are the ones `pg` assigns.
   */
  ghost predicate SoundNode(f: Flat, pg: map<Placement, seq<string>>, n: LocationNode)
    decreases n
  {
    && Reachable(f, n.item)
    && NodeItems(n.childrenLocations) == Children(f, n.item)
    && EquipmentItems(n.equipment) == EquipmentAt(f, n.item)
    && (forall c :: c in n.childrenLocations ==> LocParent(f, c.item) == Some(n.item) && SoundNode(f, pg, c))
    && (forall q :: q in n.equipment ==>
          q.item in Keys(f.equipment) && EqParent(f, q.item) == Some(n.item)
          && q.points == Bucket(pg, OnEquipment(q.item)))
    && n.points == Bucket(pg, OnLocation(n.item))
  }

  /** The rendered subtree of a descent is sound. */
  lemma {:induction false} RenderSound(f: Flat, pg: map<Placement, seq<string>>, path: seq<string>)
    requires IsChain(f, path)
    ensures SoundNode(f, pg, Render(f, pg, path))
    decreases |LocSet(f)| - |path|, 1, 0
  {
    var l := Last(path);
    RenderAllSound(f, pg, path, Children(f, l));
    RenderAllItems(f, pg, path, Children(f, l));
    EquipmentNodesSound(f, pg, l);
    EquipmentNodesItems(pg, EquipmentAt(f, l));
    assert Reachable(f, l);
  }

  /** The rendered children of a descent are sound nodes whose first location group is its last location. */
  lemma {:induction false} RenderAllSound(f: Flat, pg: map<Placement, seq<string>>, path: seq<string>, cs: seq<string>)
    requires IsChain(f, path)
    requires forall c :: c in cs ==> c in Children(f, Last(path))
    ensures forall m :: m in RenderAll(f, pg, path, cs) ==> LocParent(f, m.item) == Some(Last(path)) && SoundNode(f, pg, m)
    decreases |LocSet(f)| - |path|, 0, |cs|
  {
    if |cs| > 0 {
      var c := cs[0];
      RenderAllCons(f, pg, path, cs);
      LocationPlacement(f, c, Last(path));
      RenderSound(f, pg, path + [c]);
      RenderAllSound(f, pg, path, cs[1..]);
    }
  }

  /** One step of rendering a list of children: the first child's node, then the rest. */
  lemma RenderAllCons(f: Flat, pg: map<Placement, seq<string>>, path: seq<string>, cs: seq<string>)
    requires IsChain(f, path) && |cs| > 0
    requires forall c :: c in cs ==> c in Children(f, Last(path))
    ensures IsChain(f, path + [cs[0]]) && |path| < |LocSet(f)|
    ensures Render(f, pg, path + [cs[0]]).item == cs[0]
    ensures RenderAll(f, pg, path, cs) == [Render(f, pg, path + [cs[0]])] + RenderAll(f, pg, path, cs[1..])
  {
    ChainExtend(f, path, cs[0]);
  }

  /** One equipment node per equipment item, in the same order. */
  lemma EquipmentNodesItems(pg: map<Placement, seq<string>>, es: seq<string>)
    ensures EquipmentItems(EquipmentNodes(pg, es)) == es
  {
  }

  /** The rendered children are the given child locations, one node each and in the same order. */
  lemma {:induction false} RenderAllItems(f: Flat, pg: map<Placement, seq<string>>, path: seq<string>, cs: seq<string>)
    requires IsChain(f, path)
    requires forall c :: c in cs ==> c in Children(f, Last(path))
    ensures NodeItems(RenderAll(f, pg, path, cs)) == cs
    decreases |cs|
  {
    if |cs| > 0 {
      RenderAllCons(f, pg, path, cs);
      RenderAllItems(f, pg, path, cs[1..]);
      NodeItemsCons(Render(f, pg, path + [cs[0]]), RenderAll(f, pg, path, cs[1..]), cs);
    }
  }

  /** The equipment nodes of a location are its equipment items, each with the points placed on it. */
  lemma EquipmentNodesSound(f: Flat, pg: map<Placement, seq<string>>, l: string)
    ensures forall q :: q in EquipmentNodes(pg, EquipmentAt(f, l)) ==>
      q.item in Keys(f.equipment) && EqParent(f, q.item) == Some(l) && q.points == Bucket(pg, OnEquipment(q.item))
  {
    var es := EquipmentAt(f, l);
    forall i | 0 <= i < |es|
      ensures es[i] in Keys(f.equipment) && EqParent(f, es[i]) == Some(l)
    {
      EquipmentPlacement(f, es[i], l);
    }
  }

  /** `semantic_tree["locations"]` holds only roots, and every node in it is sound. */
  lemma ForestSound(f: Flat, pg: map<Placement, seq<string>>)
    ensures forall r :: r in Forest(f, pg) ==> LocParent(f, r.item) == None && SoundNode(f, pg, r)
  {
    RootsSound(f, pg, Roots(f));
  }

  lemma {:induction false} RootsSound(f: Flat, pg: map<Placement, seq<string>>, rs: seq<string>)
    requires forall r :: r in rs ==> r in Roots(f)
    ensures forall r :: r in RenderRoots(f, pg, rs) ==> LocParent(f, r.item) == None && SoundNode(f, pg, r)
    decreases |rs|
  {
    if |rs| > 0 {
      RenderRootsCons(f, pg, rs);
      LocationPlacement(f, rs[0], rs[0]);
      RenderSound(f, pg, [rs[0]]);
      RootsSound(f, pg, rs[1..]);
    }
  }

  /** One step of rendering the roots: the first root's node, then the rest. */
  lemma RenderRootsCons(f: Flat, pg: map<Placement, seq<string>>, rs: seq<string>)
    requires |rs| > 0 && forall r :: r in rs ==> r in Roots(f)
    ensures IsChain(f, [rs[0]]) && Render(f, pg, [rs[0]]).item == rs[0]
    ensures RenderRoots(f, pg, rs) == [Render(f, pg, [rs[0]])] + RenderRoots(f, pg, rs[1..])
  {
    RootChain(f, rs[0]);
  }

  /** The rendered roots are the given roots, one node each and in the same order. */
  lemma {:induction false} RenderRootsItems(f: Flat, pg: map<Placement, seq<string>>, rs: seq<string>)
    requires forall r :: r in rs ==> r in Roots(f)
    ensures NodeItems(RenderRoots(f, pg, rs)) == rs
    decreases |rs|
  {
    if |rs| > 0 {
      RenderRootsCons(f, pg, rs);
      RenderRootsItems(f, pg, rs[1..]);
      NodeItemsCons(Render(f, pg, [rs[0]]), RenderRoots(f, pg, rs[1..]), rs);
    }
  }

  /** `semantic_tree["locations"]` holds one node per root location, in `locations` order. */
  lemma ForestItems(f: Flat, pg: map<Placement, seq<string>>)
    ensures NodeItems(Forest(f, pg)) == Roots(f)
    ensures NodeItems(Forest(f, pg)) == Select(LocNames(f), LocKey(f), None)
  {
    RenderRootsItems(f, pg, Roots(f));
    LocationPlacement(f, "", "");
  }

  /** `m` is one of the nodes of `ns`, or lies somewhere below one of them. */
  ghost predicate InTree(ns: seq<LocationNode>, m: LocationNode)
    decreases ns
  {
    exists i :: 0 <= i < |ns| && (ns[i] == m || InTree(ns[i].childrenLocations, m))
  }

  /** The nodes of a list are in the tree it spans. */
  lemma InTreeMember(ns: seq<LocationNode>, m: LocationNode)
    requires m in ns
    ensures InTree(ns, m)
  {
    var i :| 0 <= i < |ns| && ns[i] == m;
  }

  /** A child of a node in a tree is in the tree. */
  lemma {:induction false} InTreeChild(ns: seq<LocationNode>, m: LocationNode, c: LocationNode)
    requires InTree(ns, m) && c in m.childrenLocations
    ensures InTree(ns, c)
    decreases ns
  {
    var i :| 0 <= i < |ns| && (ns[i] == m || InTree(ns[i].childrenLocations, m));
    if ns[i] == m {
      var j :| 0 <= j < |m.childrenLocations| && m.childrenLocations[j] == c;
      assert InTree(ns[i].childrenLocations, c);
    } else {
      InTreeChild(ns[i].childrenLocations, m, c);
    }
  }

  /** Every node in a tree of sound nodes is sound. */
  lemma {:induction false} InTreeSound(f: Flat, pg: map<Placement, seq<string>>, ns: seq<LocationNode>, m: LocationNode)
    requires forall n :: n in ns ==> SoundNode(f, pg, n)
    requires InTree(ns, m)
    ensures SoundNode(f, pg, m)
    decreases ns
  {
    var i :| 0 <= i < |ns| && (ns[i] == m || InTree(ns[i].childrenLocations, m));
    if ns[i] != m {
      assert SoundNode(f, pg, ns[i]);
      InTreeSound(f, pg, ns[i].childrenLocations, m);
    }
  }

  /** The node of every listed child location is among the rendered children. */
  lemma {:induction false} RenderAllHas(f: Flat, pg: map<Placement, seq<string>>, path: seq<string>, cs: seq<string>, c: string)
    requires IsChain(f, path)
    requires forall c :: c in cs ==> c in Children(f, Last(path))
    requires c in cs
    ensures IsChain(f, path + [c])
    ensures Render(f, pg, path + [c]) in RenderAll(f, pg, path, cs)
    decreases |cs|
  {
    RenderAllCons(f, pg, path, cs);
    if cs[0] != c {
      RenderAllHas(f, pg, path, cs[1..], c);
    }
  }

  /** The node of every listed root is among the rendered roots. */
  lemma {:induction false} RenderRootsHas(f: Flat, pg: map<Placement, seq<string>>, rs: seq<string>, r: string)
    requires forall r :: r in rs ==> r in Roots(f)
    requires r in rs
    ensures IsChain(f, [r])
    ensures Render(f, pg, [r]) in RenderRoots(f, pg, rs)
    decreases |rs|
  {
    RenderRootsCons(f, pg, rs);
    if rs[0] != r {
      RenderRootsHas(f, pg, rs[1..], r);
    }
  }

  /** The node of every descent from a root is in the rendered forest. */
  lemma {:induction false} ForestHasDescent(f: Flat, pg: map<Placement, seq<string>>, ch: seq<string>)
    requires IsChain(f, ch)
    ensures InTree(Forest(f, pg), Render(f, pg, ch))
    decreases |ch|
  {
    if |ch| == 1 {
      ForestHasRoot(f, pg, ch);
    } else {
      var p := ch[..|ch| - 1];
      Prefix(LocKey(f), LocSet(f), ch, |ch| - 1);
      ChildStep(f, ch, p);
      ForestHasDescent(f, pg, p);
      TreeHasChild(f, pg, Forest(f, pg), p, Last(ch));
      DropLast(ch);
    }
  }

  /** The node of a root is in the rendered forest. */
  lemma ForestHasRoot(f: Flat, pg: map<Placement, seq<string>>, ch: seq<string>)
    requires IsChain(f, ch) && |ch| == 1
    ensures InTree(Forest(f, pg), Render(f, pg, ch))
  {
    ChainStart(f, ch);
    RenderRootsHas(f, pg, Roots(f), ch[0]);
    assert ch == [ch[0]];
    InTreeMember(Forest(f, pg), Render(f, pg, ch));
  }

  /** A tree holding the node of a descent also holds the node of each child of its end. */
  lemma TreeHasChild(f: Flat, pg: map<Placement, seq<string>>, tree: seq<LocationNode>, p: seq<string>, c: string)
    requires IsChain(f, p) && c in Children(f, Last(p))
    requires InTree(tree, Render(f, pg, p))
    ensures IsChain(f, p + [c])
    ensures InTree(tree, Render(f, pg, p + [c]))
  {
    RenderAllHas(f, pg, p, Children(f, Last(p)), c);
    RenderChildren(f, pg, p);
    InTreeChild(tree, Render(f, pg, p), Render(f, pg, p + [c]));
  }

  /** The child nodes of a descent's node are the rendered child locations of its end. */
  lemma RenderChildren(f: Flat, pg: map<Placement, seq<string>>, p: seq<string>)
    requires IsChain(f, p)
    ensures Render(f, pg, p).childrenLocations == RenderAll(f, pg, p, Children(f, Last(p)))
  {
  }

  /** The last step of a descent goes from a location to one of its children. */
  lemma ChildStep(f: Flat, ch: seq<string>, p: seq<string>)
    requires IsChain(f, ch) && |ch| > 1 && p == ch[..|ch| - 1]
    ensures |p| > 0 && Last(ch) in Children(f, Last(p))
  {
    assert LocKey(f)(ch[|ch| - 1]) == Some(ch[|ch| - 2]);
    LocationPlacement(f, Last(ch), Last(p));
  }

  /**
   * The forest shows exactly the reachable locations: a location has a node somewhere in
   * `semantic_tree["locations"]` iff some descent from a root ends at it, and every node
   * anywhere in the tree is sound.
   */
  lemma ForestExact(f: Flat, pg: map<Placement, seq<string>>, l: string)
    ensures Reachable(f, l) <==> exists m :: InTree(Forest(f, pg), m) && m.item == l
    ensures forall m :: InTree(Forest(f, pg), m) ==> SoundNode(f, pg, m)
  {
    ForestSound(f, pg);
    forall m | InTree(Forest(f, pg), m)
      ensures SoundNode(f, pg, m)
    {
      InTreeSound(f, pg, Forest(f, pg), m);
    }
    if Reachable(f, l) {
      var ch :| IsChain(f, ch) && Last(ch) == l;
      ForestHasDescent(f, pg, ch);
      RenderItem(f, pg, ch);
    }
  }

  lemma RenderItem(f: Flat, pg: map<Placement, seq<string>>, ch: seq<string>)
    requires IsChain(f, ch)
    ensures Render(f, pg, ch).item == Last(ch)
  {
  }
}
