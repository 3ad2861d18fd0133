/**
 * The flat index: the raw item list becomes `items_by_name` plus the two auxiliary
 * maps `locations` and `equipment` that the hierarchy assembler consumes.
 */
module FlatIndex {
  import opened Wrappers
  import opened AssocList
  import opened Tags

  /** A JSON value copied through untouched (numbers restricted to integers). */
  datatype Json =
    | JNull
    | JBool(b: bool)
    | JNumber(n: int)
    | JString(s: string)
    | JArray(elems: seq<Json>)
    | JObject(members: seq<(string, Json)>)

  /** Python truthiness of a JSON value: `None`, `False`, `0`, `""`, `[]` and `{}` are false. */
  predicate Falsy(j: Json) {
    j == JNull || j == JBool(false) || j == JNumber(0) || j == JString("")
    || j == JArray([]) || j == JObject([])
  }

  /**
   * One raw item record as fetched. A missing key reads as `JNull` / `None`, as
   * `dict.get` does; fields other than these are ignored.
   */
  datatype RawItem = RawItem(
    name: Option<string>,
    itemLabel: Json,
    itemType: Json,
    category: Json,
    tags: Option<seq<string>>,
    groupNames: Option<seq<string>>,
    metadata: Json)

  /** One `items_by_name` entry; the item's state is deliberately not kept. */
  datatype Entry = Entry(
    name: string,
    itemLabel: Json,
    itemType: Json,
    category: Json,
    tags: seq<string>,
    groupNames: seq<string>,
    metadata: Json,
    semantic: Semantic,
    restUrl: string)

  /** The `{name, tags, groupNames}` record kept in `locations` and `equipment`. */
  datatype Structural = Structural(name: string, tags: seq<string>, groupNames: seq<string>)

  /** The three dictionaries the first loop of the index builder fills. */
  datatype Flat = Flat(
    itemsByName: Dict<string, Entry>,
    locations: Dict<string, Structural>,
    equipment: Dict<string, Structural>)

  const RestItemsPrefix: string := "/rest/items/"

  /** The item's name, or `None` when it is missing or empty (`if not name: continue`). */
  function NameOf(it: RawItem): Option<string> {
    if Truthy(it.name) then it.name else None
  }

  /** `it.get("tags") or []`. */
  function TagsOf(it: RawItem): seq<string> {
    if it.tags.Some? then it.tags.value else []
  }

  /** `it.get("groupNames") or []`. */
  function GroupNamesOf(it: RawItem): seq<string> {
    if it.groupNames.Some? then it.groupNames.value else []
  }

  /** `it.get("metadata") or {}`. */
  function MetadataOf(it: RawItem): Json {
    if Falsy(it.metadata) then JObject([]) else it.metadata
  }

  /** The entry stored for a named item (the name defaults to "" only for skipped items). */
  function EntryOf(it: RawItem): Entry {
    var name := if it.name.Some? then it.name.value else "";
    Entry(name, it.itemLabel, it.itemType, it.category, TagsOf(it), GroupNamesOf(it),
      MetadataOf(it), Classify(TagsOf(it)), RestItemsPrefix + name)
  }

  function StructuralOf(it: RawItem): Structural {
    Structural(if it.name.Some? then it.name.value else "", TagsOf(it), GroupNamesOf(it))
  }

  /** The key under which `locations` records the item: its name when it is a named location. */
  function LocationKey(it: RawItem): Option<string> {
    if Classify(TagsOf(it)).isLocation then NameOf(it) else None
  }

  /** The key under which `equipment` records the item. */
  function EquipmentKey(it: RawItem): Option<string> {
    if Classify(TagsOf(it)).isEquipment then NameOf(it) else None
  }

  /**
   * The first loop of the index builder. The three dictionaries are filled in one
   * pass in the source, but none of them reads another, so each is its own fold.
   */
  function BuildFlat(items: seq<RawItem>): Flat {
    Flat(
      Gather(items, NameOf, EntryOf),
      Gather(items, LocationKey, StructuralOf),
      Gather(items, EquipmentKey, StructuralOf))
  }

  /** Exactly the items with a non-empty name are indexed; unnamed records leave no trace. */
  lemma Indexed(items: seq<RawItem>, n: string)
    ensures n in Keys(BuildFlat(items).itemsByName) <==>
      n != "" && exists i :: 0 <= i < |items| && items[i].name == Some(n)
    ensures Valid(BuildFlat(items).itemsByName)
  {
    if n != "" && exists i :: 0 <= i < |items| && items[i].name == Some(n) {
      var i :| 0 <= i < |items| && items[i].name == Some(n);
      assert NameOf(items[i]) == Some(n);
    }
  }

  /**
   * Last seen wins: a name's entry is built from its last occurrence, carries that name
   * and the REST path of the item, and classifies that occurrence's tags.
   */
  lemma IndexHoldsLast(items: seq<RawItem>, i: int)
    requires 0 <= i < |items| && NameOf(items[i]).Some?
    requires forall j :: i < j < |items| ==> NameOf(items[j]) != NameOf(items[i])
    ensures var n := NameOf(items[i]).value;
      var e := EntryOf(items[i]);
      && Get(BuildFlat(items).itemsByName, n) == Some(e)
      && e.name == n
      && e.restUrl == "/rest/items/" + n
      && e.semantic == Classify(TagsOf(items[i]))
  {
    GatherLastWins(items, NameOf, EntryOf, i);
  }

  /**
   * A name is in `locations` iff some named occurrence of it was a location, even if a
   * later occurrence is not: the map is only ever added to.
   */
  lemma LocationsRecorded(items: seq<RawItem>, n: string)
    ensures n in Keys(BuildFlat(items).locations) <==>
      exists i :: 0 <= i < |items| && NameOf(items[i]) == Some(n) && Classify(TagsOf(items[i])).isLocation
  {
    forall i | 0 <= i < |items|
      ensures LocationKey(items[i]) == Some(n) <==> NameOf(items[i]) == Some(n) && Classify(TagsOf(items[i])).isLocation
    {
    }
  }

  /** Likewise a name is in `equipment` iff some named occurrence of it was equipment. */
  lemma EquipmentRecorded(items: seq<RawItem>, n: string)
    ensures n in Keys(BuildFlat(items).equipment) <==>
      exists i :: 0 <= i < |items| && NameOf(items[i]) == Some(n) && Classify(TagsOf(items[i])).isEquipment
  {
    forall i | 0 <= i < |items|
      ensures EquipmentKey(items[i]) == Some(n) <==> NameOf(items[i]) == Some(n) && Classify(TagsOf(items[i])).isEquipment
    {
    }
  }

  /**
   * Last seen wins in `locations` too: a location's record is the name, tags and group
   * names of its last occurrence flagged as a location, which may differ from the
   * occurrence `items_by_name` keeps.
   */
  lemma LocationsHoldLast(items: seq<RawItem>, i: int)
    requires 0 <= i < |items| && LocationKey(items[i]).Some?
    requires forall j :: i < j < |items| ==> LocationKey(items[j]) != LocationKey(items[i])
    ensures var n := LocationKey(items[i]).value;
      && Get(BuildFlat(items).locations, n) == Some(Structural(n, TagsOf(items[i]), GroupNamesOf(items[i])))
      && Classify(TagsOf(items[i])).isLocation
  {
    GatherLastWins(items, LocationKey, StructuralOf, i);
  }

  /** Likewise an equipment item's record is that of its last occurrence flagged as equipment. */
  lemma EquipmentHoldLast(items: seq<RawItem>, i: int)
    requires 0 <= i < |items| && EquipmentKey(items[i]).Some?
    requires forall j :: i < j < |items| ==> EquipmentKey(items[j]) != EquipmentKey(items[i])
    ensures var n := EquipmentKey(items[i]).value;
      && Get(BuildFlat(items).equipment, n) == Some(Structural(n, TagsOf(items[i]), GroupNamesOf(items[i])))
      && Classify(TagsOf(items[i])).isEquipment
  {
    GatherLastWins(items, EquipmentKey, StructuralOf, i);
  }

  /** Every location and equipment name is also an `items_by_name` key, and none is empty. */
  lemma StructuralIndexed(items: seq<RawItem>, n: string)
    requires n in Keys(BuildFlat(items).locations) || n in Keys(BuildFlat(items).equipment)
    ensures n in Keys(BuildFlat(items).itemsByName)
    ensures n != ""
  {
    var i :| 0 <= i < |items| && (LocationKey(items[i]) == Some(n) || EquipmentKey(items[i]) == Some(n));
    assert NameOf(items[i]) == Some(n);
  }

  /** No dictionary of the flat index has the empty name as a key. */
  lemma NoEmptyKeys(items: seq<RawItem>)
    ensures "" !in Keys(BuildFlat(items).itemsByName)
    ensures "" !in Keys(BuildFlat(items).locations)
    ensures "" !in Keys(BuildFlat(items).equipment)
  {
    forall i | 0 <= i < |items|
      ensures NameOf(items[i]) != Some("") && LocationKey(items[i]) != Some("") && EquipmentKey(items[i]) != Some("")
    {
    }
  }

  /**
   * Every entry of `items_by_name` is well formed: it is stored under its own non-empty
   * name, its `semantic` record classifies its own tags and its REST path is built
   * from its name.
   */
  lemma EntryWellFormed(items: seq<RawItem>, n: string, e: Entry)
    requires Get(BuildFlat(items).itemsByName, n) == Some(e)
    ensures e.name == n && n != ""
    ensures e.semantic == Classify(e.tags)
    ensures e.restUrl == "/rest/items/" + n
    ensures exists i :: 0 <= i < |items| && items[i].name == Some(n) && e == EntryOf(items[i])
  {
    GatherGet(items, NameOf, EntryOf, n, e);
  }
}
