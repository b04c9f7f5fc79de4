/**
 * The static landmark catalogue and its two lookups, `find_landmark_by_coords`
 * and `find_landmark_by_name`. The catalogue is a value handed to each lookup;
 * nothing here changes it.
 */
module Landmarks {
  import opened Wrappers
  import opened Text
  import opened Scan
  import opened Gps

  datatype Landmark = Landmark(name: string, latitude: real, longitude: real)

  /** The default half-width of the coordinate box, in degrees (about 50 m). */
  const DefaultThreshold: real := 0.0005

  function Abs(x: real): real {
    if x < 0.0 then -x else x
  }

  /** Both axes are strictly closer than `threshold` to the entry. */
  predicate InBox(l: Landmark, coords: Coords, threshold: real) {
    Abs(coords.0 - l.latitude) < threshold && Abs(coords.1 - l.longitude) < threshold
  }

  /** The first catalogue entry whose coordinate box contains `coords`. */
  function FindByCoords(catalog: seq<Landmark>, coords: Coords, threshold: real): (r: Option<Landmark>)
    ensures r.None? <==> forall i :: 0 <= i < |catalog| ==> !InBox(catalog[i], coords, threshold)
    ensures r.Some? ==> r.value in catalog && InBox(r.value, coords, threshold)
  {
    match First(catalog, l => InBox(l, coords, threshold))
    case Some(i) => Some(catalog[i])
    case None => None
  }

  /**
   * The lookup returns entry `i` whenever `i` is the least index in the box;
   * and whatever it returns is such an entry.
   */
  lemma FindByCoordsFirstMatch(catalog: seq<Landmark>, coords: Coords, threshold: real, i: nat)
    requires i < |catalog|
    requires InBox(catalog[i], coords, threshold)
    requires forall j :: 0 <= j < i ==> !InBox(catalog[j], coords, threshold)
    ensures FindByCoords(catalog, coords, threshold) == Some(catalog[i])
  {
  }

  lemma {:induction false} FindByCoordsIndex(catalog: seq<Landmark>, coords: Coords, threshold: real)
    returns (i: nat)
    requires FindByCoords(catalog, coords, threshold).Some?
    ensures i < |catalog| && FindByCoords(catalog, coords, threshold) == Some(catalog[i])
    ensures InBox(catalog[i], coords, threshold)
    ensures forall j :: 0 <= j < i ==> !InBox(catalog[j], coords, threshold)
  {
    i := First(catalog, l => InBox(l, coords, threshold)).value;
  }

  /**
   * Catalogue order decides: once an entry qualifies, nothing appended after
   * it, however close, changes the answer.
   */
  lemma {:induction false} FindByCoordsIgnoresLaterEntries(catalog: seq<Landmark>, later: seq<Landmark>, coords: Coords, threshold: real)
    requires FindByCoords(catalog, coords, threshold).Some?
    ensures FindByCoords(catalog + later, coords, threshold) == FindByCoords(catalog, coords, threshold)
  {
    var p := l => InBox(l, coords, threshold);
    FirstIgnoresSuffix(catalog, later, p);
  }

  /** An entry exactly at the coordinates does not beat an earlier entry that is merely in the box. */
  lemma CloserLaterEntryLoses(first: Landmark, exact: Landmark, threshold: real)
    requires InBox(first, (exact.latitude, exact.longitude), threshold)
    ensures FindByCoords([first, exact], (exact.latitude, exact.longitude), threshold) == Some(first)
  {
  }

  /** The box is open: an entry exactly `threshold` away on either axis is not matched. */
  lemma BoxIsStrict(l: Landmark, coords: Coords, threshold: real)
    requires Abs(coords.0 - l.latitude) == threshold || Abs(coords.1 - l.longitude) == threshold
    ensures FindByCoords([l], coords, threshold) == None
  {
  }

  /** Names are compared after lower-casing both sides. */
  predicate NameMatches(l: Landmark, name: string) {
    Lower(l.name) == Lower(name)
  }

  /** The first catalogue entry whose name equals `name` up to case. */
  function FindByName(catalog: seq<Landmark>, name: string): (r: Option<Landmark>)
    ensures r.None? <==> forall i :: 0 <= i < |catalog| ==> !NameMatches(catalog[i], name)
    ensures r.Some? ==> r.value in catalog && NameMatches(r.value, name)
  {
    match First(catalog, l => NameMatches(l, name))
    case Some(i) => Some(catalog[i])
    case None => None
  }

  /** The name lookup returns entry `i` whenever `i` is the least index whose name matches. */
  lemma FindByNameFirstMatch(catalog: seq<Landmark>, name: string, i: nat)
    requires i < |catalog|
    requires NameMatches(catalog[i], name)
    requires forall j :: 0 <= j < i ==> !NameMatches(catalog[j], name)
    ensures FindByName(catalog, name) == Some(catalog[i])
  {
  }

  /** Case variants of a name resolve to the same entry (or all to none). */
  lemma FindByNameIgnoresCase(catalog: seq<Landmark>, name: string, variant: string)
    requires Lower(name) == Lower(variant)
    ensures FindByName(catalog, name) == FindByName(catalog, variant)
  {
  }

  /** Matching is exact: a hint of another length than a name, such as a proper substring of it, never matches it. */
  lemma OtherLengthNeverMatches(l: Landmark, hint: string)
    requires |hint| != |l.name|
    ensures !NameMatches(l, hint)
  {
  }

  /** A hint whose length differs from every catalogued name finds nothing. */
  lemma FindByNameNeedsWholeName(catalog: seq<Landmark>, name: string)
    requires forall i :: 0 <= i < |catalog| ==> |catalog[i].name| != |name|
    ensures FindByName(catalog, name) == None
  {
  }

  /** "Eiffelturm", "eiffelturm" and "EIFFELTURM" lower-case alike. */
  lemma EiffelturmVariants()
    ensures Lower("Eiffelturm") == Lower("eiffelturm") == Lower("EIFFELTURM")
  {
  }

  /**
   * With "Eiffelturm" in the catalogue, every case variant of it finds that
   * entry, and the substring "Eiffel" finds nothing.
   */
  lemma EiffelturmExample(catalog: seq<Landmark>)
    requires |catalog| == 1 && catalog[0].name == "Eiffelturm"
    ensures FindByName(catalog, "eiffelturm") == Some(catalog[0])
    ensures FindByName(catalog, "EIFFELTURM") == Some(catalog[0])
    ensures FindByName(catalog, "Eiffel") == None
  {
  }
}
