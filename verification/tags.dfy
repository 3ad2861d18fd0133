/**
 * The tag classifier: an item's semantic roles (Location, Equipment, Point) are read
 * off its tags by suffix, and the remaining "property" tags are what is left after
 * removing the three bare role markers.
 */
module Tags {

  const LocationMarker: string := "Location"
  const EquipmentMarker: string := "Equipment"
  const PointMarker: string := "Point"

  /** Python's `s.endswith(suffix)`. */
  predicate EndsWith(s: string, suffix: string) {
    |suffix| <= |s| && s[|s| - |suffix|..] == suffix
  }

  /** `endswith` means "is some string followed by the suffix". */
  lemma EndsWithIsSplit(s: string, suffix: string)
    ensures EndsWith(s, suffix) <==> exists p: string :: s == p + suffix
  {
    if EndsWith(s, suffix) {
      var p := s[..|s| - |suffix|];
      assert s == p + suffix;
    }
    if exists p: string :: s == p + suffix {
      var p: string :| s == p + suffix;
      assert s[|s| - |suffix|..] == suffix;
    }
  }

  /**
   * `any(t.endswith(marker) or t == marker for t in tags)`. The equality disjunct adds
   * nothing: a marker ends with itself, so the result is exactly "some tag ends with
   * the marker".
   */
  function AnyTagMarks(tags: seq<string>, marker: string): (b: bool)
    ensures b <==> exists i :: 0 <= i < |tags| && EndsWith(tags[i], marker)
  {
    if |tags| == 0 then false
    else
      assert EndsWith(marker, marker);
      assert forall i :: 0 < i < |tags| ==> tags[i] == tags[1..][i - 1];
      EndsWith(tags[0], marker) || tags[0] == marker || AnyTagMarks(tags[1..], marker)
  }

  /** One of the three bare role markers that `propertyTags` drops. */
  predicate IsMarker(t: string) {
    t == LocationMarker || t == EquipmentMarker || t == PointMarker
  }

  /**
   * `[t for t in tags if t not in ("Location", "Equipment", "Point")]`: order and
   * duplicates are kept, and only the three exact literals go; suffixed tags such as
   * "IndoorLocation" stay.
   */
  function PropertyTags(tags: seq<string>): seq<string> {
    if |tags| == 0 then []
    else (if IsMarker(tags[0]) then [] else [tags[0]]) + PropertyTags(tags[1..])
  }

  /** Property tags are the non-marker tags, each with its original multiplicity. */
  lemma {:induction false} PropertyTagsContents(tags: seq<string>)
    ensures forall t :: t in PropertyTags(tags) <==> t in tags && !IsMarker(t)
    ensures forall t :: multiset(PropertyTags(tags))[t] == if IsMarker(t) then 0 else multiset(tags)[t]
  {
    if |tags| > 0 {
      assert tags == [tags[0]] + tags[1..];
      PropertyTagsContents(tags[1..]);
    }
  }

  /** Filtering the tags commutes with concatenating tag lists, so the original order survives. */
  lemma {:induction false} PropertyTagsConcat(a: seq<string>, b: seq<string>)
    ensures PropertyTags(a + b) == PropertyTags(a) + PropertyTags(b)
  {
    if |a| > 0 {
      var head := if IsMarker(a[0]) then [] else [a[0]];
      assert (a + b)[0] == a[0];
      assert (a + b)[1..] == a[1..] + b;
      assert PropertyTags(a + b) == head + PropertyTags(a[1..] + b);
      PropertyTagsConcat(a[1..], b);
      assert PropertyTags(a) == head + PropertyTags(a[1..]);
    } else {
      assert a + b == b;
    }
  }

  /** The `semantic` record of one item. */
  datatype Semantic = Semantic(isLocation: bool, isEquipment: bool, isPoint: bool, propertyTags: seq<string>)

  /**
   * Classification of a tag list: each flag is set iff some tag ends with the role's
   * name; flags are independent, so one item may carry several roles.
   */
  function Classify(tags: seq<string>): (s: Semantic)
    ensures s.isLocation <==> exists i :: 0 <= i < |tags| && EndsWith(tags[i], LocationMarker)
    ensures s.isEquipment <==> exists i :: 0 <= i < |tags| && EndsWith(tags[i], EquipmentMarker)
    ensures s.isPoint <==> exists i :: 0 <= i < |tags| && EndsWith(tags[i], PointMarker)
    ensures forall t :: t in s.propertyTags <==> t in tags && !IsMarker(t)
  {
    PropertyTagsContents(tags);
    Semantic(
      AnyTagMarks(tags, LocationMarker),
      AnyTagMarks(tags, EquipmentMarker),
      AnyTagMarks(tags, PointMarker),
      PropertyTags(tags))
  }

  /** Absent or empty tags: no role and no property tags. */
  lemma ClassifyEmpty()
    ensures Classify([]) == Semantic(false, false, false, [])
  {
  }

  /** A suffixed role tag both sets its flag and stays among the property tags. */
  lemma SuffixedMarkerKept(tags: seq<string>, i: int)
    requires 0 <= i < |tags| && EndsWith(tags[i], LocationMarker) && tags[i] != LocationMarker
    ensures Classify(tags).isLocation
    ensures tags[i] in Classify(tags).propertyTags
  {
    assert !IsMarker(tags[i]) by {
      if tags[i] == EquipmentMarker || tags[i] == PointMarker {
        assert tags[i][|tags[i]| - 8..] == LocationMarker;
      }
    }
  }
}
