# openHAB item index builder, modelled in Dafny

This project models the pure core of the openHAB crawler script
`scripts/openhab_crawler.py`. That core is `build_items_index`, which turns the flat
list of openHAB items into two results:

- `items_by_name`, a flat index keyed by item name;
- `semantic_tree`, a Location → Equipment → Point forest built from the items'
  `groupNames`.

The project also models endpoint resolution over the REST root document: the
`endpoint_map` loop and `find_link`.

Modules, leaf first:

- `Wrappers`: `Option` and `Result`.
- `Seqs`: distinctness, and `FirstIn`, the first element of a list that lies in a
  set. This is Python's `next((g for g in xs if g in s), None)`, and equally the
  `[0]` element of the filtered list.
- `AssocList`: Python's insertion-ordered `dict` as an association list. `Put`
  replaces the value of an existing key in place and appends a new key at the end.
  `Gather` is the loop "for each element, if it has a key, `d[key] = value`".
- `Grouping`: the loop "append each element to the list kept under its key", with
  every list proved equal to an ordered filter (`Select`).
- `Tags`: classification of a tag list by suffix, and the residual `propertyTags`.
- `FlatIndex`: raw item records and the first loop of the builder. It fills
  `items_by_name`, `locations` and `equipment`. Pass-through fields such as the label,
  type, category and metadata are an uninterpreted `Json` value.
- `Chains`: descents in a forest given by a parent function. A chain never repeats a
  node, so its length is bounded. No chain reaches a node on a parent cycle.
- `Hierarchy`: the Location → Equipment skeleton, covering three parts:
  - the location parent function: the first group name that is a location;
  - the ordered root, child and equipment lists;
  - the rendering of nested nodes, and `collect_equipment_nodes`.
- `IndexBuilder`: the point-placement loop and `build_items_index` as a whole.
- `Endpoints`: the `endpoint_map` loop, `find_link`, and the "no `items` link" guard
  of the item fetch.

Python's shared, mutable node dictionaries are not modelled as objects. Instead the
tree is a parent function on location names, plus child lists derived from it in
`locations` order. The nested nodes are rendered from those lists by descending from
the roots along chains. The termination measure is the number of locations minus the
length of the chain.

`equipment_nodes` is collected from the tree rendered before any point is placed,
just as the source walks the tree before the point loop. A location is unreachable
when it is on a `groupNames` cycle (a self-loop included) or below one: no descent from
a root arrives at it. The equipment of an unreachable location is therefore invisible
to the point lookup.

The point loop has three outcomes for a Point item:
- It goes under the first of its group names that is collected equipment.
- Failing that, it goes under the first of its group names that is a location. When
  that location is unreachable (on a `groupNames` cycle or below one), its node is not
  in the tree, so the point appears in no point list of the result.
- When no group name is a location, the point is omitted from the tree. It stays in
  `items_by_name`.

## Model

| member | source | states |
|---|---|---|
| Seqs.FirstIn | scripts/openhab_crawler.py:208 | the result is `None` iff no element lies in the set; otherwise it is a member of the set that occurs in the list with no earlier element in the set |
| Seqs.FirstInAt | scripts/openhab_crawler.py:177 | a first position in the set determines the result, which is the `parent_locations[0]` choice |
| Seqs.FirstInIsFirstMatch | scripts/openhab_crawler.py:214 | `FirstIn` returns `x` iff `x` is the first element of the list that lies in the set |
| AssocList.Get | scripts/openhab_crawler.py:86 | a lookup hits iff the key is present, and then returns a value stored under that key |
| AssocList.Put | scripts/openhab_crawler.py:134 | assignment keeps an existing key's position or appends a new key; afterwards the key maps to the new value and every other key is unchanged |
| AssocList.PutValid | scripts/openhab_crawler.py:134 | assignment never duplicates a key |
| AssocList.Gather | scripts/openhab_crawler.py:117-120 | the dictionary built by a keyed loop has distinct keys, which are exactly the keys of the elements that carry one |
| AssocList.GatherLastWins | scripts/openhab_crawler.py:134 | the value stored under a key comes from the last element carrying that key |
| AssocList.GatherGet | scripts/openhab_crawler.py:134 | every stored value was computed from some element carrying its key |
| AssocList.GatherKeyOrder | scripts/openhab_crawler.py:162 | keys are iterated in order of their first occurrence, so a later duplicate does not move its key |
| Grouping.Select | scripts/openhab_crawler.py:175-178 | the reference filter: exactly the elements with the given key, in input order; it preserves distinctness |
| Grouping.Group | scripts/openhab_crawler.py:171-178 | after appending every element to the list of its key, each list equals the ordered filter of the input by that key |
| Tags.EndsWith | scripts/openhab_crawler.py:127-129 | Python's `str.endswith`: the string is at least as long as the suffix and ends with it; `Tags.EndsWithIsSplit` characterises it |
| Tags.PropertyTags | scripts/openhab_crawler.py:132 | the tag filter that drops the three exact literals; `Tags.PropertyTagsContents` and `Tags.PropertyTagsConcat` state its contents and order |
| Tags.EndsWithIsSplit | scripts/openhab_crawler.py:127 | `endswith` holds iff the string is some prefix followed by the suffix |
| Tags.AnyTagMarks | scripts/openhab_crawler.py:127-129 | true iff some tag ends with the marker; the equality disjunct adds nothing |
| Tags.Classify | scripts/openhab_crawler.py:127-132 | each flag is set iff some tag ends with `Location`, `Equipment` or `Point`; the flags are independent; the property tags are exactly the tags other than the three literals |
| Tags.PropertyTagsContents | scripts/openhab_crawler.py:132 | the property tags are the non-marker tags, each with its original multiplicity |
| Tags.PropertyTagsConcat | scripts/openhab_crawler.py:132 | the filter commutes with concatenation, so the original tag order is kept |
| Tags.ClassifyEmpty | scripts/openhab_crawler.py:122 | missing or empty tags give all flags false and no property tags |
| Tags.SuffixedMarkerKept | scripts/openhab_crawler.py:127-132 | a suffixed tag such as `IndoorLocation` sets its flag and also stays among the property tags |
| FlatIndex.NameOf | scripts/openhab_crawler.py:118-120 | the name an item is indexed under, or nothing for a missing or empty name, which the loop skips |
| FlatIndex.TagsOf | scripts/openhab_crawler.py:122 | a missing or `null` tag list reads as empty |
| FlatIndex.GroupNamesOf | scripts/openhab_crawler.py:123 | a missing or `null` group list reads as empty |
| FlatIndex.MetadataOf | scripts/openhab_crawler.py:124 | falsy metadata reads as the empty object |
| FlatIndex.EntryOf | scripts/openhab_crawler.py:134-150 | the `items_by_name` entry of a record: its fields, its classification and its REST path; `FlatIndex.EntryWellFormed` states its properties |
| FlatIndex.BuildFlat | scripts/openhab_crawler.py:117-155 | the first loop, as three keyed folds over the records; `FlatIndex.Indexed`, `FlatIndex.LocationsRecorded` and `FlatIndex.EquipmentRecorded` state the keys of each; `FlatIndex.IndexHoldsLast`, `FlatIndex.LocationsHoldLast` and `FlatIndex.EquipmentHoldLast` state the values |
| FlatIndex.Indexed | scripts/openhab_crawler.py:117-120 | a name is a key of `items_by_name` iff it is non-empty and some record carries it; the keys are distinct |
| FlatIndex.IndexHoldsLast | scripts/openhab_crawler.py:134-150 | a name's entry is built from its last record: it carries the name, `/rest/items/<name>` and the classification of that record's tags |
| FlatIndex.EntryWellFormed | scripts/openhab_crawler.py:134-150 | every entry is stored under its own non-empty name, classifies its own tags, has the REST path of its name, and comes from some record with that name |
| FlatIndex.NoEmptyKeys | scripts/openhab_crawler.py:118-120 | the empty name is a key of none of the three dictionaries |
| FlatIndex.LocationsRecorded | scripts/openhab_crawler.py:152-153 | a name is in `locations` iff some named record of it had the location flag, even if a later record does not |
| FlatIndex.EquipmentRecorded | scripts/openhab_crawler.py:154-155 | a name is in `equipment` iff some named record of it had the equipment flag, even if a later record does not |
| FlatIndex.LocationsHoldLast | scripts/openhab_crawler.py:152-153 | a location's record holds the name, tags and group names of its last record with the location flag, which may differ from the record `items_by_name` keeps |
| FlatIndex.EquipmentHoldLast | scripts/openhab_crawler.py:154-155 | an equipment item's record holds the name, tags and group names of its last record with the equipment flag |
| FlatIndex.StructuralIndexed | scripts/openhab_crawler.py:152-155 | every `locations` or `equipment` name is a non-empty key of `items_by_name` |
| Hierarchy.LocParent | scripts/openhab_crawler.py:171-177 | a location's parent: its first group name that is a location, or none for a root |
| Hierarchy.LocationLists | scripts/openhab_crawler.py:170-178 | the root and child lists, filled by appending each location in `locations` order; `Hierarchy.LocationPlacement` states them |
| Hierarchy.EqParent | scripts/openhab_crawler.py:181-186 | an equipment item's location: its first group name that is a location, or none |
| Hierarchy.LocParentFromLast | scripts/openhab_crawler.py:171-177 | a location's parent is the first location among the group names of its last record with the location flag |
| Hierarchy.EqParentFromLast | scripts/openhab_crawler.py:181-186 | an equipment item's location is the first location among the group names of its last record with the equipment flag |
| Hierarchy.EquipmentLists | scripts/openhab_crawler.py:180-187 | the equipment lists, filled by appending each equipment item in `equipment` order; `Hierarchy.EquipmentPlacement` states them |
| Hierarchy.LocationPlacement | scripts/openhab_crawler.py:171-178 | a location is a root iff none of its group names is a location; otherwise it is a child of exactly its first location group; root and child lists follow `locations` order without repetition |
| Hierarchy.EquipmentPlacement | scripts/openhab_crawler.py:181-187 | an equipment is listed under `l` iff `l` is its first location group, at most once and in `equipment` order; with no location group it is under no location |
| Hierarchy.ChainExtend | scripts/openhab_crawler.py:194-195 | descending to a child extends a chain, and a chain that can still grow is shorter than the set of locations, which makes the recursion terminate |
| Chains.Extend | scripts/openhab_crawler.py:194-195 | appending a child of the last node keeps a chain of distinct nodes, which is shorter than the node set |
| Chains.NoChainToCycle | scripts/openhab_crawler.py:197-198 | no descent from a root ends on a parent cycle |
| Hierarchy.Render | scripts/openhab_crawler.py:161-178 | the node of the last location of a descent, with its rendered children, its equipment nodes and its points; `Hierarchy.RenderSound` states its properties |
| Hierarchy.RenderAll | scripts/openhab_crawler.py:176-178 | one node per listed child location, in order; `Hierarchy.RenderAllItems` states the order |
| Hierarchy.RenderRoots | scripts/openhab_crawler.py:171-175 | one node per listed root, in order; `Hierarchy.RenderRootsItems` states the order |
| Hierarchy.Forest | scripts/openhab_crawler.py:157-178 | `semantic_tree["locations"]`: the rendered roots; `Hierarchy.ForestItems` and `Hierarchy.ForestExact` state what it holds |
| Hierarchy.RenderAllItems | scripts/openhab_crawler.py:176-178 | the rendered children are exactly the given child locations, one node each, in the same order |
| Hierarchy.RenderRootsItems | scripts/openhab_crawler.py:171-175 | the rendered roots are exactly the given roots, one node each, in the same order |
| Hierarchy.ForestItems | scripts/openhab_crawler.py:171-175 | the top level of the tree is exactly the locations without a location group, in `locations` order |
| Hierarchy.EquipmentNodesItems | scripts/openhab_crawler.py:180-187 | a location node holds one equipment node per equipment item listed under it, in the same order |
| Hierarchy.CollectNode | scripts/openhab_crawler.py:191-195 | `collect_equipment_nodes` on one node: its equipment, then that of its children, depth first; `Hierarchy.CollectRenderSound` and `Hierarchy.CollectRenderComplete` state what it finds |
| Hierarchy.CollectAll | scripts/openhab_crawler.py:194-198 | the same walk over a list of nodes; `Hierarchy.CollectRenderAll` and `Hierarchy.CollectRoots` relate it to the individual nodes |
| Hierarchy.EqNodes | scripts/openhab_crawler.py:189-198 | the items of `equipment_nodes`, collected from the tree before any point is placed; `Hierarchy.EqNodesReachable` characterises them |
| Hierarchy.CollectRenderAll | scripts/openhab_crawler.py:194-195 | collecting over a list of child nodes collects exactly what the individual children collect |
| Hierarchy.CollectRenderSound | scripts/openhab_crawler.py:191-195 | everything collected below a node is equipment of a location further down the descent |
| Hierarchy.CollectRenderComplete | scripts/openhab_crawler.py:191-195 | the equipment of every location further down the descent is collected |
| Hierarchy.CollectRoots | scripts/openhab_crawler.py:197-198 | collecting over the roots collects exactly what the individual roots collect |
| Hierarchy.EqNodesSound | scripts/openhab_crawler.py:190-198 | every item in `equipment_nodes` is equipment of some location reachable from a root |
| Hierarchy.EqNodesComplete | scripts/openhab_crawler.py:190-198 | the equipment of the last location of any descent from a root is in `equipment_nodes` |
| Hierarchy.EqNodesReachable | scripts/openhab_crawler.py:190-198 | `equipment_nodes` holds an item iff it is equipment of a location reachable from a root |
| Hierarchy.CycleUnreachable | scripts/openhab_crawler.py:171-178 | a location on a `groupNames` cycle is not reachable, and equipment whose first location group lies on it is not in `equipment_nodes` |
| Hierarchy.SelfLoopUnreachable | scripts/openhab_crawler.py:177-178 | a location whose first location group is itself is not reachable |
| Hierarchy.RenderSound | scripts/openhab_crawler.py:161-187 | every rendered node is reachable; its child nodes are exactly its child locations in `locations` order, each having the node as first location group; its equipment nodes are exactly its equipment items in `equipment` order; the point lists are those built by the point loop |
| Hierarchy.RenderAllSound | scripts/openhab_crawler.py:170-178 | every rendered child node is sound and its first location group is the parent node |
| Hierarchy.EquipmentNodesSound | scripts/openhab_crawler.py:180-187 | every equipment node under a location is an equipment item whose first location group is that location, carrying the points placed on it |
| Hierarchy.RootsSound | scripts/openhab_crawler.py:171-175 | every rendered root node is a location without a location group, and is sound |
| Hierarchy.InTreeChild | scripts/openhab_crawler.py:176-178 | a child node of a node in the tree is in the tree |
| Hierarchy.InTreeSound | scripts/openhab_crawler.py:161-187 | every node anywhere below sound nodes is sound |
| Hierarchy.ForestHasDescent | scripts/openhab_crawler.py:171-178 | the node of every descent from a root appears somewhere in the tree |
| Hierarchy.ForestExact | scripts/openhab_crawler.py:157-178 | a location has a node somewhere in the tree iff it is reachable from a root, and every node anywhere in the tree is sound |
| Hierarchy.ForestSound | scripts/openhab_crawler.py:173-175 | the top level of the tree holds only locations without a location group, and every node in it is sound |
| IndexBuilder.PointPlace | scripts/openhab_crawler.py:201-219 | the decision of the point loop for one entry, with the truthiness tests on the found parent; `IndexBuilder.PointRules` states it |
| IndexBuilder.PointGroups | scripts/openhab_crawler.py:201-216 | the point lists, filled by appending each entry in `items_by_name` order; `IndexBuilder.PointLists` states them |
| IndexBuilder.BuildItemsIndex | scripts/openhab_crawler.py:107-224 | `build_items_index`: `items_by_name` and the rendered forest with the points placed; `IndexBuilder.IndexTree` states its properties |
| IndexBuilder.NoEmptyParent | scripts/openhab_crawler.py:209 | no key of `equipment_nodes` or `location_nodes` is empty, so the truthiness tests on a found parent never reject it |
| IndexBuilder.PointRules | scripts/openhab_crawler.py:201-219 | a non-point is never placed; a point goes to its first equipment group; failing that, to its first location group; otherwise it is omitted |
| IndexBuilder.PointPlacement | scripts/openhab_crawler.py:205-214 | in the built index the equipment candidates are exactly the equipment under reachable locations, and the location candidates are the `locations` names, neither holding the empty name |
| IndexBuilder.PointLists | scripts/openhab_crawler.py:201-216 | each point list holds exactly the entries placed there, in `items_by_name` order, without repetition |
| IndexBuilder.PointPlacedOnce | scripts/openhab_crawler.py:208-217 | no entry is in two point lists, so no point sits both under an equipment and under a location |
| IndexBuilder.PointOffTree | scripts/openhab_crawler.py:213-219 | a point that is omitted, or placed on a location no root reaches, is in no point list of any node of the returned tree, location or equipment |
| IndexBuilder.SelfLoopPointLost | scripts/openhab_crawler.py:213-217 | a point placed on a location that is its own first location group is in no location node's point list in the returned tree |
| IndexBuilder.SoundNamesIn | scripts/openhab_crawler.py:162-216 | every name in a sound subtree is a key of `items_by_name` |
| IndexBuilder.IndexTree | scripts/openhab_crawler.py:157-224 | the top level of the returned tree is exactly the root locations in `locations` order, every node is sound, and every name it mentions is a key of `items_by_name` |
| Endpoints.EndpointMap | scripts/openhab_crawler.py:53-58 | the `endpoint_map` loop as a keyed fold over the links; `Endpoints.EndpointMapKeys` and `Endpoints.EndpointMapLastWins` state what it holds |
| Endpoints.Enrich | scripts/openhab_crawler.py:59-69 | the enriched root keeps the original links beside the map built from them |
| Endpoints.ScanLinks | scripts/openhab_crawler.py:88-91 | the result is the url of the first link of the type, possibly missing, or `None` when no link has the type |
| Endpoints.FindLink | scripts/openhab_crawler.py:79-91 | a type present in `endpoint_map` resolves to its map entry; otherwise to the url of the first link of that type; otherwise to `None` |
| Endpoints.FindLinkByFirst | scripts/openhab_crawler.py:88-91 | without a map entry, a url that `find_link` returns is the url of the first link of the type |
| Endpoints.EndpointMapKeys | scripts/openhab_crawler.py:53-58 | the map keys are exactly the non-empty types that some link pairs with a non-empty url, each once |
| Endpoints.EndpointMapLastWins | scripts/openhab_crawler.py:53-58 | the url kept for a type is that of the last usable link of that type |
| Endpoints.FindLinkEnriched | scripts/openhab_crawler.py:79-86 | on an enriched root, a non-empty type with a usable link resolves to the url of the last usable link of that type |
| Endpoints.FindLinkEnrichedMissing | scripts/openhab_crawler.py:85-91 | on an enriched root, a non-empty type without a usable link resolves to a missing or empty url |
| Endpoints.ItemsUrl | scripts/openhab_crawler.py:95-97 | with an `items` entry in the map, the fetch proceeds iff that url is non-empty, and with that url; without one, iff the first link of type `items` has a non-empty url, and with that url; otherwise the error `No 'items' link found in /rest/ root` |
| Endpoints.ItemsUrlEnriched | scripts/openhab_crawler.py:95-97 | on an enriched root the item fetch proceeds iff some link of type `items` has a non-empty url |

## Left out

- HTTP requests, response decoding, and `raise_for_status` in `fetch_json`, `fetch_rest_root` and `fetch_items`: network I/O. The root document and the item list are inputs.
- `make_headers`, `.env` loading and the `OPENHAB_*` configuration, including the `OPENHAB_BASE_URL is not set` error: configuration plumbing.
- Writing `rest_root.json`, `items_raw.json` and the index file, creating the output directory, the progress messages, and `main`: persistence and the process boundary.
- The pass-through root fields (`version`, `locale`, `measurementSystem`, `timezone`, `runtimeInfo`): they are copied and never read, so `RestRoot` keeps only `endpoint_map` and `links`.
- Item `label`, `type`, `category` and `metadata` are opaque `Json` values. JSON numbers are integers only; floating point is not modelled.
- Fields of non-string JSON type where the source expects strings are not modelled. This covers a truthy `name` such as `5`, a `tags` entry that is not a string, and a link `type` or `url` that is a number. Such inputs make the source raise or compare unequal. The model reads a name, tag list, group list, type or url as either missing or a string (list).
- A missing `endpoint_map` or `links` in the root reads as empty, as the source's `get` defaults do. A present `endpoint_map` that is not a dictionary is not modelled.
- The item's `state` is not read, because the source deliberately drops it.
- Inputs on which the source raises are not modelled: a `null` entry in the item list or in `links`, and `"links": null`. The first two raise `AttributeError` on `.get`, and iterating `null` raises `TypeError`. The model's items and links are always records, and its link list is always a list.
- Python's recursion limit is not modelled. `collect_equipment_nodes` recurses once per nesting level, so a location chain deeper than the limit (1000 by default) raises `RecursionError` in the source. The model's traversal has no depth bound.
- IndexBuilder.PointLists: "each point appears in the tree at most once" is stated for the point lists, not by counting occurrences in the rendered tree. `IndexBuilder.IndexTree` and `Hierarchy.RenderSound` tie every rendered point list to exactly one such list.
