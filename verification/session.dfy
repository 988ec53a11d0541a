/** A session's metadata check, its marker list and its lap cache
    (`Session`, `Metadata`, `SubElementFromDict` and
    `SubElementFromDictConditional` in `openmotorsport/openmotorsport.py`). */
module Sessions {
  import opened Wrappers
  import opened Laps
  import opened Arith

  // ---------------------------------------------------------------------
  // Metadata
  // ---------------------------------------------------------------------

  /** A metadata dictionary: each key maps to a text value or to None. */
  type Dict = map<string, Option<string>>

  /** One text element of `meta.xml`: its tag and its text. */
  datatype Element = Element(tag: string, text: string)

  /** The parts of `Metadata` the mandatory-field check reads. */
  datatype Metadata = Metadata(venue: Dict, vehicle: Dict)

  /** A fresh `Metadata()`: every venue and vehicle entry is None. */
  function DefaultMetadata(): (m: Metadata)
    ensures m.venue.Keys == {"name", "configuration"}
    ensures m.vehicle.Keys == {"name", "year", "comments", "category"}
    ensures forall key :: key in m.venue ==> m.venue[key].None?
    ensures forall key :: key in m.vehicle ==> m.vehicle[key].None?
  {
    Metadata(map["name" := None, "configuration" := None],
             map["name" := None, "year" := None, "comments" := None, "category" := None])
  }

  /** `SubElementFromDict`: the element for a mandatory entry. Reading an
      absent key raises `KeyError`; a None value raises the "Missing value"
      exception. */
  function SubElementFromDict(dict: Dict, key: string): (r: Result<Element>)
    ensures r.Success? <==> key in dict && dict[key].Some?
    ensures r.Success? ==> r.value.tag == key && dict[key] == Some(r.value.text)
    ensures key !in dict ==> r == Failure(KeyError)
    ensures key in dict && dict[key].None? ==> r == Failure(MissingValue(key))
  {
    if key !in dict then Failure(KeyError)
    else match dict[key]
      case None => Failure(MissingValue(key))
      case Some(text) => Success(Element(key, text))
  }

  /** `SubElementFromDictConditional`: the element for an optional entry,
      or nothing when the key is absent or its value is None. */
  function SubElementFromDictConditional(dict: Dict, key: string): (r: seq<Element>)
    ensures |r| <= 1
    ensures |r| == 1 <==> key in dict && dict[key].Some?
    ensures |r| == 1 ==> r[0].tag == key && dict[key] == Some(r[0].text)
  {
    if key in dict && dict[key].Some? then [Element(key, dict[key].value)] else []
  }

  /** Every element was copied from the dictionary entry its tag names. */
  ghost predicate FromDict(dict: Dict, elements: seq<Element>) {
    forall e :: e in elements ==> e.tag in dict && dict[e.tag] == Some(e.text)
  }

  /** The `venue` children of `meta.xml`: the mandatory name, then the
      configuration when it is set. */
  function VenueElements(venue: Dict): (r: Result<seq<Element>>)
    ensures r.Success? <==> "name" in venue && venue["name"].Some?
    ensures r.Success? ==> |r.value| > 0 && r.value[0].tag == "name" && FromDict(venue, r.value)
  {
    var name :- SubElementFromDict(venue, "name");
    Success([name] + SubElementFromDictConditional(venue, "configuration"))
  }

  /** The `vehicle` children of `meta.xml`: the mandatory name, then the
      year, category and comments that are set. */
  function VehicleElements(vehicle: Dict): (r: Result<seq<Element>>)
    ensures r.Success? <==> "name" in vehicle && vehicle["name"].Some?
    ensures r.Success? ==> |r.value| > 0 && r.value[0].tag == "name" && FromDict(vehicle, r.value)
  {
    var name :- SubElementFromDict(vehicle, "name");
    Success([name]
      + SubElementFromDictConditional(vehicle, "year")
      + SubElementFromDictConditional(vehicle, "category")
      + SubElementFromDictConditional(vehicle, "comments"))
  }

  /** The mandatory-field part of `_write_meta`: the venue is written
      before the vehicle, so a missing venue name is the error reported. */
  function WriteMeta(meta: Metadata): (r: Result<(seq<Element>, seq<Element>)>)
    ensures r.Failure? ==> r.error == KeyError || r.error == MissingValue("name")
    ensures VenueElements(meta.venue).Failure? ==> r == Failure(VenueElements(meta.venue).error)
    ensures r.Success? ==>
      |r.value.0| > 0 && r.value.0[0].tag == "name" && FromDict(meta.venue, r.value.0) &&
      |r.value.1| > 0 && r.value.1[0].tag == "name" && FromDict(meta.vehicle, r.value.1)
  {
    var venue :- VenueElements(meta.venue);
    var vehicle :- VehicleElements(meta.vehicle);
    Success((venue, vehicle))
  }

  /** Writing succeeds exactly when both the venue name and the vehicle name
      are set; otherwise the first missing one is reported. */
  lemma WriteMetaMandatory(meta: Metadata)
    ensures WriteMeta(meta).Success? <==>
      "name" in meta.venue && meta.venue["name"].Some? &&
      "name" in meta.vehicle && meta.vehicle["name"].Some?
    ensures "name" in meta.venue && meta.venue["name"].None? ==>
      WriteMeta(meta) == Failure(MissingValue("name"))
    ensures "name" in meta.venue && meta.venue["name"].Some? &&
            "name" in meta.vehicle && meta.vehicle["name"].None? ==>
      WriteMeta(meta) == Failure(MissingValue("name"))
  {
  }

  /** Optional entries never decide the outcome: a written venue holds its
      configuration exactly when that is set. */
  lemma VenueOptional(venue: Dict)
    requires "name" in venue && venue["name"].Some?
    ensures VenueElements(venue).Success?
    ensures (exists e :: e in VenueElements(venue).value && e.tag == "configuration")
        <==> "configuration" in venue && venue["configuration"].Some?
  {
    var es := VenueElements(venue).value;
    var opt := SubElementFromDictConditional(venue, "configuration");
    assert es == [Element("name", venue["name"].value)] + opt;
    if "configuration" in venue && venue["configuration"].Some? {
      assert es[1] in es;
    }
  }

  /** A fresh session's metadata cannot be written. */
  lemma DefaultMetadataFails()
    ensures WriteMeta(DefaultMetadata()) == Failure(MissingValue("name"))
  {
    WriteMetaMandatory(DefaultMetadata());
  }

  /** With both names set the metadata is written, optional entries
      included. */
  lemma NamedMetadataWrites()
    ensures WriteMeta(Metadata(map["name" := Some("Silverstone"), "configuration" := None],
                               map["name" := Some("RF92"), "year" := Some("1992")]))
         == Success(([Element("name", "Silverstone")],
                     [Element("name", "RF92"), Element("year", "1992")]))
  {
    var venue := map["name" := Some("Silverstone"), "configuration" := None];
    var vehicle := map["name" := Some("RF92"), "year" := Some("1992")];
    assert "category" !in vehicle && "comments" !in vehicle;
    assert SubElementFromDictConditional(venue, "configuration") == [];
    assert SubElementFromDictConditional(vehicle, "year") == [Element("year", "1992")];
    assert SubElementFromDictConditional(vehicle, "category") == [];
    assert SubElementFromDictConditional(vehicle, "comments") == [];
    assert SubElementFromDict(venue, "name") == Success(Element("name", "Silverstone"));
    assert SubElementFromDict(vehicle, "name") == Success(Element("name", "RF92"));
    assert [Element("name", "Silverstone")] + [] == [Element("name", "Silverstone")];
    assert VenueElements(venue) == Success([Element("name", "Silverstone")]);
    assert [Element("name", "RF92")] + [Element("year", "1992")] + [] + []
        == [Element("name", "RF92"), Element("year", "1992")];
    assert VehicleElements(vehicle) == Success([Element("name", "RF92"), Element("year", "1992")]);
  }

  // ---------------------------------------------------------------------
  // Markers and the lap cache
  // ---------------------------------------------------------------------

  /** The lap-related state of a `Session`: its markers, the number of
      sectors per lap (None until set) and the cached lap list. */
  datatype Session = Session(markers: seq<int>, numSectors: Option<nat>, cache: seq<Lap>)

  /** A fresh session: no markers, no sector count, nothing cached. */
  function NewSession(): (s: Session)
    ensures CacheValid(s) && s.markers == [] && s.numSectors.None?
  {
    Session([], None, [])
  }

  /** The cache is empty or holds the laps of the current markers. */
  ghost predicate CacheValid(s: Session) {
    s.cache == [] || s.cache == DeriveLaps(s.markers, s.numSectors)
  }

  /** The `laps` property: an empty cache is recomputed on every read, a
      non-empty one is returned as it is. Returns the laps and the session
      with its cache filled. */
  function LapsOf(s: Session): (r: (seq<Lap>, Session))
    ensures r.1.markers == s.markers && r.1.numSectors == s.numSectors
    ensures r.1.cache == r.0
    ensures CacheValid(s) ==> r.0 == DeriveLaps(s.markers, s.numSectors) && CacheValid(r.1)
  {
    if s.cache == [] then
      var laps := DeriveLaps(s.markers, s.numSectors);
      (laps, s.(cache := laps))
    else (s.cache, s)
  }

  /** `add_markers` with the cache cleared, so the next read of `laps`
      sees the new markers. */
  function AddMarkers(s: Session, markers: seq<int>): (r: Session)
    ensures r.markers == s.markers + markers && r.numSectors == s.numSectors
    ensures CacheValid(r)
  {
    s.(markers := s.markers + markers, cache := [])
  }

  /** Setting `num_sectors`, with the cache cleared. */
  function SetNumSectors(s: Session, numSectors: Option<nat>): (r: Session)
    ensures r.markers == s.markers && r.numSectors == numSectors
    ensures CacheValid(r)
  {
    s.(numSectors := numSectors, cache := [])
  }

  /** Markers added to a fresh session give no laps: its sector count is
      unset until it is assigned. */
  lemma FreshSessionNoLaps(markers: seq<int>)
    ensures LapsOf(AddMarkers(NewSession(), markers)).0 == []
    ensures LapsOf(AddMarkers(NewSession(), markers)).1.markers == markers
  {
  }

  /** Once the sector count of a fresh session is set to 0, before or after
      its markers are added, every marker closes a lap of its own: lap `i`
      runs from the previous marker (0 for the first) to marker `i`, has no
      sectors, and the laps' marks are the markers. */
  lemma ZeroSectorSessionLaps(markers: seq<int>, i: nat)
    requires i < |markers|
    ensures var before := AddMarkers(SetNumSectors(NewSession(), Some(0)), markers);
      var after := SetNumSectors(AddMarkers(NewSession(), markers), Some(0));
      LapsOf(before).0 == LapsOf(after).0
    ensures var laps := LapsOf(SetNumSectors(AddMarkers(NewSession(), markers), Some(0))).0;
      |laps| == |markers| && Markers(laps) == markers &&
      laps[i] == Lap(Some(markers[i] - (if i == 0 then 0 else markers[i - 1])),
                     if i == 0 then 0 else markers[i - 1], [])
  {
    assert [] + markers == markers;
    assert CeilDiv(|markers|, 1) == |markers|;
    MarkersRoundTrip(markers, 0);
    NoSectorLaps(markers, i);
  }

  /** Adding markers in two calls is adding them in one. */
  lemma AddMarkersTwice(s: Session, a: seq<int>, b: seq<int>)
    ensures AddMarkers(AddMarkers(s, a), b) == AddMarkers(s, a + b)
  {
    assert s.markers + a + b == s.markers + (a + b);
  }

  /** Reading `laps` never changes what a later read returns. */
  lemma LapsStable(s: Session)
    requires CacheValid(s)
    ensures LapsOf(LapsOf(s).1).0 == LapsOf(s).0
  {
  }

  /** After markers are added, every lap that was complete before reads the
      same, and the laps cover all markers, old and new. */
  lemma AddMarkersKeepsLaps(s: Session, markers: seq<int>, k: nat, i: nat)
    requires CacheValid(s) && s.numSectors == Some(k)
    requires i < |LapsOf(s).0| && LapsOf(s).0[i].length.Some?
    ensures i < |LapsOf(AddMarkers(s, markers)).0|
    ensures LapsOf(AddMarkers(s, markers)).0[i] == LapsOf(s).0[i]
    ensures Markers(LapsOf(AddMarkers(s, markers)).0) == s.markers + markers
  {
    ExtendKeepsCompleteLap(s.markers, markers, k, i);
    MarkersRoundTrip(s.markers + markers, k);
  }

  // ---------------------------------------------------------------------
  // The cache as the code keeps it
  // ---------------------------------------------------------------------

  /** `add_markers` as written: the markers grow, the cached laps stay. */
  function AddMarkersAsWritten(s: Session, markers: seq<int>): (r: Session)
    ensures r.markers == s.markers + markers && r.numSectors == s.numSectors
    ensures r.cache == s.cache
  {
    s.(markers := s.markers + markers)
  }

  /** Once a non-empty lap list is cached, adding markers as written leaves
      the `laps` property out of date. Without sectors every marker closes a
      lap, so after markers [10] are read as one lap and [20] is added, the
      property still returns one lap where the markers give two. */
  lemma StaleLapCache(s: Session, extra: seq<int>)
    requires CacheValid(s) && s.numSectors == Some(0)
    requires |s.markers| > 0 && |extra| > 0
    ensures var read := LapsOf(s).1;
      |LapsOf(AddMarkersAsWritten(read, extra)).0| == |s.markers| &&
      |DeriveLaps(s.markers + extra, Some(0))| == |s.markers| + |extra| &&
      LapsOf(AddMarkers(read, extra)).0 == DeriveLaps(s.markers + extra, Some(0))
  {
    assert CeilDiv(|s.markers|, 1) == |s.markers|;
    assert CeilDiv(|s.markers + extra|, 1) == |s.markers + extra|;
  }

  /** The session of the example above: markers [10] read without sectors. */
  lemma StaleLapCacheExample(s: Session)
    requires s == Session([10], Some(0), [])
    ensures |LapsOf(AddMarkersAsWritten(LapsOf(s).1, [20])).0| == 1
    ensures |LapsOf(AddMarkers(LapsOf(s).1, [20])).0| == 2
  {
    StaleLapCache(s, [20]);
  }

  /** Assigning `num_sectors` as written: a plain attribute write that keeps
      the cached laps. */
  function SetNumSectorsAsWritten(s: Session, numSectors: Option<nat>): (r: Session)
    ensures r.markers == s.markers && r.numSectors == numSectors
    ensures r.cache == s.cache
  {
    Session(s.markers, numSectors, s.cache)
  }

  /** Once laps are cached, changing the sector count as written leaves them
      in place: two markers read without sectors are two laps, and after one
      sector per lap is set the property still returns two laps where the
      markers make one. */
  lemma StaleSectorCount(s: Session)
    requires CacheValid(s) && s.numSectors == Some(0) && |s.markers| == 2
    ensures var read := LapsOf(s).1;
      |LapsOf(SetNumSectorsAsWritten(read, Some(1))).0| == 2 &&
      |DeriveLaps(s.markers, Some(1))| == 1 &&
      LapsOf(SetNumSectors(read, Some(1))).0 == DeriveLaps(s.markers, Some(1))
  {
    var read := LapsOf(s).1;
    var laps := DeriveLaps(s.markers, Some(0));
    assert |laps| == 2 by {
      assert CeilDiv(2, 1) == 2;
    }
    assert read.cache == laps;
    assert |DeriveLaps(s.markers, Some(1))| == 1 by {
      assert CeilDiv(2, 2) == 1;
    }
    assert CacheValid(SetNumSectors(read, Some(1)));
  }
}
