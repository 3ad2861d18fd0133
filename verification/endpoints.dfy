/**
 * Endpoint resolution over the REST root document: the `endpoint_map` built from the
 * root's `links`, and `find_link`, which consults that map first and the raw links
 * second.
 */
module Endpoints {
  import opened Wrappers
  import opened AssocList

  /** One entry of the root's `links`; a missing or `null` field reads as `None`. */
  datatype Link = Link(linkType: Option<string>, url: Option<string>)

  /** The part of the root document endpoint resolution reads; a missing field is empty. */
  datatype RestRoot = RestRoot(endpointMap: Dict<string, string>, links: seq<Link>)

  /** The key a link contributes to `endpoint_map`: its type, when both type and url are truthy. */
  function EndpointKey(l: Link): Option<string> {
    if Truthy(l.linkType) && Truthy(l.url) then l.linkType else None
  }

  function EndpointUrl(l: Link): string {
    if l.url.Some? then l.url.value else ""
  }

  /** The endpoint-map loop of the root fetch. */
  function EndpointMap(links: seq<Link>): Dict<string, string> {
    Gather(links, EndpointKey, EndpointUrl)
  }

  /** The enriched root: the original links together with the map built from them. */
  function Enrich(links: seq<Link>): RestRoot {
    RestRoot(EndpointMap(links), links)
  }

  /** `i` is the first link whose type is exactly `t`. */
  ghost predicate FirstOfType(links: seq<Link>, t: string, i: int) {
    0 <= i < |links| && links[i].linkType == Some(t)
    && forall j :: 0 <= j < i ==> links[j].linkType != Some(t)
  }

  /** The fallback scan: the url of the first link of type `t`, which may itself be missing. */
  function ScanLinks(links: seq<Link>, t: string): (r: Option<string>)
    ensures (forall i :: 0 <= i < |links| ==> links[i].linkType != Some(t)) ==> r == None
    ensures forall i :: FirstOfType(links, t, i) ==> r == links[i].url
  {
    if |links| == 0 then None
    else if links[0].linkType == Some(t) then links[0].url
    else
      var r := ScanLinks(links[1..], t);
      assert forall i :: FirstOfType(links, t, i) ==> i > 0 && FirstOfType(links[1..], t, i - 1);
      r
  }

  /** `find_link`: the map entry if the type is a key of the map, otherwise the scan of the links. */
  function FindLink(root: RestRoot, t: string): (r: Option<string>)
    ensures t in Keys(root.endpointMap) ==> r.Some? && (t, r.value) in root.endpointMap
    ensures t !in Keys(root.endpointMap) && (forall i :: 0 <= i < |root.links| ==> root.links[i].linkType != Some(t))
      ==> r == None
    ensures forall i :: t !in Keys(root.endpointMap) && FirstOfType(root.links, t, i) ==> r == root.links[i].url
  {
    match Get(root.endpointMap, t)
    case Some(u) => Some(u)
    case None => ScanLinks(root.links, t)
  }

  /**
   * The map holds exactly the truthy types that come with a truthy url, each once;
   * in particular the empty type is never a key.
   */
  lemma EndpointMapKeys(links: seq<Link>, t: string)
    ensures Valid(EndpointMap(links))
    ensures t in Keys(EndpointMap(links)) <==>
      t != "" && exists i :: 0 <= i < |links| && links[i].linkType == Some(t) && Truthy(links[i].url)
  {
    if t != "" && exists i :: 0 <= i < |links| && links[i].linkType == Some(t) && Truthy(links[i].url) {
      var i :| 0 <= i < |links| && links[i].linkType == Some(t) && Truthy(links[i].url);
      assert EndpointKey(links[i]) == Some(t);
    }
  }

  /** Last duplicate wins: the url kept for a type is that of the last usable link of that type. */
  lemma EndpointMapLastWins(links: seq<Link>, i: int)
    requires 0 <= i < |links| && Truthy(links[i].linkType) && Truthy(links[i].url)
    requires forall j :: i < j < |links| ==> !(links[j].linkType == links[i].linkType && Truthy(links[j].url))
    ensures Get(EndpointMap(links), links[i].linkType.value) == Some(links[i].url.value)
  {
    forall j | i < j < |links|
      ensures EndpointKey(links[j]) != EndpointKey(links[i])
    {
    }
    GatherLastWins(links, EndpointKey, EndpointUrl, i);
  }

  /**
   * On an enriched root and a non-empty type, `find_link` yields a usable url iff some
   * link of that type has one, and then it is the url of the last such link: the
   * fallback scan can only produce a missing or empty url.
   */
  lemma FindLinkEnriched(links: seq<Link>, t: string, i: int)
    requires t != ""
    requires 0 <= i < |links| && links[i].linkType == Some(t) && Truthy(links[i].url)
    requires forall j :: i < j < |links| ==> !(links[j].linkType == Some(t) && Truthy(links[j].url))
    ensures FindLink(Enrich(links), t) == links[i].url
  {
    EndpointMapLastWins(links, i);
  }

  /** Without a usable link of type `t`, `find_link` on an enriched root yields no usable url. */
  lemma FindLinkEnrichedMissing(links: seq<Link>, t: string)
    requires t != ""
    requires forall j :: 0 <= j < |links| ==> !(links[j].linkType == Some(t) && Truthy(links[j].url))
    ensures !Truthy(FindLink(Enrich(links), t))
  {
    EndpointMapKeys(links, t);
    if exists k :: 0 <= k < |links| && links[k].linkType == Some(t) {
      var k :| 0 <= k < |links| && links[k].linkType == Some(t);
      var i := FirstOfTypeFrom(links, t, k);
      assert FindLink(Enrich(links), t) == links[i].url;
    }
  }

  /** Some link has type `t`, so there is a first one. */
  lemma FirstOfTypeFrom(links: seq<Link>, t: string, k: int) returns (i: int)
    requires 0 <= k < |links| && links[k].linkType == Some(t)
    ensures FirstOfType(links, t, i)
  {
    i := 0;
    while links[i].linkType != Some(t)
      invariant 0 <= i <= k
      invariant forall j :: 0 <= j < i ==> links[j].linkType != Some(t)
      decreases k - i
    {
      i := i + 1;
    }
  }

  /**
   * The guard of the item fetch: the `items` endpoint, or an error when it resolves to
   * nothing usable. A map entry decides on its own; without one, the first link of type
   * `items` decides, and an `items` link further on is never looked at.
   */
  function ItemsUrl(root: RestRoot): (r: Result<string>)
    ensures r.Ok? <==>
      match Get(root.endpointMap, "items")
      case Some(u) => u != ""
      case None => exists i :: FirstOfType(root.links, "items", i) && Truthy(root.links[i].url)
    ensures r.Ok? && "items" in Keys(root.endpointMap) ==> ("items", r.value) in root.endpointMap
    ensures forall i :: r.Ok? && "items" !in Keys(root.endpointMap) && FirstOfType(root.links, "items", i) ==>
      root.links[i].url == Some(r.value)
    ensures r.Err? ==> r.error == "No 'items' link found in /rest/ root"
  {
    FindLinkByFirst(root, "items");
    var u := FindLink(root, "items");
    if Truthy(u) then Ok(u.value) else Err("No 'items' link found in /rest/ root")
  }

  /** Without a map entry, a url found by `find_link` comes from the first link of the type. */
  lemma FindLinkByFirst(root: RestRoot, t: string)
    ensures t !in Keys(root.endpointMap) && FindLink(root, t).Some? ==>
      exists i :: FirstOfType(root.links, t, i) && root.links[i].url == FindLink(root, t)
  {
    if Get(root.endpointMap, t).None? && exists k :: 0 <= k < |root.links| && root.links[k].linkType == Some(t) {
      var k :| 0 <= k < |root.links| && root.links[k].linkType == Some(t);
      var i := FirstOfTypeFrom(root.links, t, k);
      assert FindLink(root, t) == root.links[i].url;
    }
  }

  /** On an enriched root the item fetch proceeds iff some link of type `items` has a usable url. */
  lemma ItemsUrlEnriched(links: seq<Link>)
    ensures ItemsUrl(Enrich(links)).Ok? <==>
      exists i :: 0 <= i < |links| && links[i].linkType == Some("items") && Truthy(links[i].url)
  {
    if exists i :: 0 <= i < |links| && links[i].linkType == Some("items") && Truthy(links[i].url) {
      var i := LastUsable(links, "items");
      FindLinkEnriched(links, "items", i);
    } else {
      FindLinkEnrichedMissing(links, "items");
    }
  }

  /** The position of the last usable link of type `t`, when there is one. */
  lemma LastUsable(links: seq<Link>, t: string) returns (i: int)
    requires exists i :: 0 <= i < |links| && links[i].linkType == Some(t) && Truthy(links[i].url)
    ensures 0 <= i < |links| && links[i].linkType == Some(t) && Truthy(links[i].url)
    ensures forall j :: i < j < |links| ==> !(links[j].linkType == Some(t) && Truthy(links[j].url))
  {
    var k :| 0 <= k < |links| && links[k].linkType == Some(t) && Truthy(links[k].url);
    i := |links| - 1;
    while !(links[i].linkType == Some(t) && Truthy(links[i].url))
      invariant k <= i < |links|
      invariant forall j :: i < j < |links| ==> !(links[j].linkType == Some(t) && Truthy(links[j].url))
      decreases i
    {
      i := i - 1;
    }
  }
}
