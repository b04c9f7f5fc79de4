/**
 * The decisions of the `/upload` handler: reject a request without a usable
 * image, otherwise resolve the landmark from the photo's GPS position, then
 * from the manual hint, and escalate to label detection when both fail.
 * Reading the EXIF block, saving the file, the encyclopedia summary and the
 * label-detection call are outside; their results enter as parameters or
 * leave as the response's tag.
 */
module Resolver {
  import opened Wrappers
  import opened Gps
  import opened Landmarks
  import opened Upload

  datatype Resolution = Found(landmark: Landmark) | NeedVision

  /** The GPS position matches a catalogue entry. */
  predicate CoordsHit(catalog: seq<Landmark>, gps: Option<Coords>) {
    gps.Some? && FindByCoords(catalog, gps.value, DefaultThreshold).Some?
  }

  /** A hint that Python treats as true: present and not the empty string. */
  predicate HintGiven(hint: Option<string>) {
    hint.Some? && hint.value != ""
  }

  /** The hint names a catalogue entry. */
  predicate NameHit(catalog: seq<Landmark>, hint: Option<string>) {
    HintGiven(hint) && FindByName(catalog, hint.value).Some?
  }

  /**
   * Coordinates first, then the name, then label detection. A coordinate
   * match wins whatever the hint says; the name is looked up only when the
   * coordinates found nothing and the hint is non-empty; label detection is
   * needed exactly when both fail. A resolved landmark is a catalogue entry.
   */
  function Resolve(catalog: seq<Landmark>, gps: Option<Coords>, hint: Option<string>): (r: Resolution)
    ensures CoordsHit(catalog, gps) ==> r == Found(FindByCoords(catalog, gps.value, DefaultThreshold).value)
    ensures !CoordsHit(catalog, gps) && NameHit(catalog, hint) ==> r == Found(FindByName(catalog, hint.value).value)
    ensures r == NeedVision <==> !CoordsHit(catalog, gps) && !NameHit(catalog, hint)
    ensures r.Found? ==> r.landmark in catalog
  {
    var byCoords := if gps.Some? then FindByCoords(catalog, gps.value, DefaultThreshold) else None;
    var landmark := if byCoords.None? && HintGiven(hint) then FindByName(catalog, hint.value) else byCoords;
    if landmark.Some? then Found(landmark.value) else NeedVision
  }

  /** What the handler answers with. */
  datatype Response =
    | NoImage                           // no `image` part in the upload
    | EmptyFilename                     // the file was sent without a name
    | InvalidType                       // `allowed_file` refused the name
    | Summary(title: string)            // the encyclopedia summary for this landmark name
    | VisionLabels(labels: seq<string>) // no landmark: the page listing the detected labels
    | LabelsUnavailable                 // no landmark and no label list: joining `None` raises `TypeError`

  /** The upload's file name passed the empty-name and extension checks. */
  predicate Accepted(filename: Option<string>) {
    filename.Some? && filename.value != "" && AllowedFile(filename.value)
  }

  /**
   * The `/upload` handler. `filename` is the name of the uploaded `image`
   * part (`None` when there is none); `gps` is what EXIF extraction yields
   * for the saved file; `hint` is the `manual_landmark` form field; `labels`
   * is what label detection returns for the file: `None` when no API key is
   * configured, a (possibly empty) list otherwise.
   */
  function HandleUpload(catalog: seq<Landmark>, filename: Option<string>, gps: Option<Coords>,
                        hint: Option<string>, labels: Option<seq<string>>): (r: Response)
    ensures r == NoImage <==> filename.None?
    ensures r == EmptyFilename <==> filename == Some("")
    ensures r == InvalidType <==> filename.Some? && filename.value != "" && !AllowedFile(filename.value)
    ensures Accepted(filename) ==> (r.Summary? <==> Resolve(catalog, gps, hint).Found?)
    ensures r.Summary? ==> Resolve(catalog, gps, hint).Found? && r.title == Resolve(catalog, gps, hint).landmark.name
    ensures r.Summary? ==> exists l :: l in catalog && r.title == l.name
    ensures Accepted(filename) && Resolve(catalog, gps, hint) == NeedVision ==>
              r == (if labels.Some? then VisionLabels(labels.value) else LabelsUnavailable)
  {
    if filename.None? then NoImage
    else if filename.value == "" then EmptyFilename
    else if AllowedFile(filename.value) then
      match Resolve(catalog, gps, hint)
      case Found(l) => Summary(l.name)
      case NeedVision => if labels.Some? then VisionLabels(labels.value) else LabelsUnavailable
    else InvalidType
  }

  /**
   * A disallowed extension is refused before the photo is looked at: the
   * answer depends on neither its GPS position, the hint nor label detection.
   */
  lemma RejectedBeforeProcessing(catalog: seq<Landmark>, filename: string, gps: Option<Coords>,
                                 hint: Option<string>, labels: Option<seq<string>>)
    requires filename != "" && !AllowedFile(filename)
    ensures HandleUpload(catalog, Some(filename), gps, hint, labels) == InvalidType
  {
  }

  /** Once a landmark is resolved, label detection has no say in the answer. */
  lemma ResolvedIgnoresLabels(catalog: seq<Landmark>, filename: Option<string>, gps: Option<Coords>,
                              hint: Option<string>, labels: Option<seq<string>>, other: Option<seq<string>>)
    requires Resolve(catalog, gps, hint).Found?
    ensures HandleUpload(catalog, filename, gps, hint, labels) == HandleUpload(catalog, filename, gps, hint, other)
  {
  }

  /**
   * GPS tags that give no position (a tag missing or a zero denominator)
   * leave the request exactly as if the photo had no EXIF data.
   */
  lemma UnusableGpsInfoActsAsAbsent(catalog: seq<Landmark>, filename: Option<string>, gpsInfo: map<string, Dms>,
                                    hint: Option<string>, labels: Option<seq<string>>)
    requires !("GPSLatitude" in gpsInfo && "GPSLongitude" in gpsInfo)
             || !Divisible(gpsInfo["GPSLatitude"]) || !Divisible(gpsInfo["GPSLongitude"])
    ensures HandleUpload(catalog, filename, CoordsFromGpsInfo(gpsInfo), hint, labels)
            == HandleUpload(catalog, filename, None, hint, labels)
  {
  }

  /**
   * A photo whose GPS tags convert to a position inside the box of entry `i`,
   * and of no earlier entry, gets that entry's summary whatever the hint and
   * whatever label detection would say.
   */
  lemma {:induction false} GpsMatchSkipsVision(catalog: seq<Landmark>, filename: string, gpsInfo: map<string, Dms>,
                                               hint: Option<string>, labels: Option<seq<string>>, i: nat)
    requires AllowedFile(filename)
    requires "GPSLatitude" in gpsInfo && "GPSLongitude" in gpsInfo
    requires ConvertToDegrees(gpsInfo["GPSLatitude"]).Some? && ConvertToDegrees(gpsInfo["GPSLongitude"]).Some?
    requires i < |catalog|
    requires InBox(catalog[i], (ConvertToDegrees(gpsInfo["GPSLatitude"]).value,
                                ConvertToDegrees(gpsInfo["GPSLongitude"]).value), DefaultThreshold)
    requires forall j :: 0 <= j < i ==>
               !InBox(catalog[j], (ConvertToDegrees(gpsInfo["GPSLatitude"]).value,
                                   ConvertToDegrees(gpsInfo["GPSLongitude"]).value), DefaultThreshold)
    ensures HandleUpload(catalog, Some(filename), CoordsFromGpsInfo(gpsInfo), hint, labels) == Summary(catalog[i].name)
  {
    var coords := CoordsFromGpsInfo(gpsInfo).value;
    FindByCoordsFirstMatch(catalog, coords, DefaultThreshold, i);
  }

  /**
   * A photo without GPS data and without a hint goes to label detection: its
   * labels are listed, or the request fails when no label list comes back.
   */
  lemma NoMetadataNoHintFallsBack(catalog: seq<Landmark>, filename: string, hint: Option<string>, labels: Option<seq<string>>)
    requires AllowedFile(filename)
    requires !HintGiven(hint)
    ensures HandleUpload(catalog, Some(filename), None, hint, labels)
            == if labels.Some? then VisionLabels(labels.value) else LabelsUnavailable
  {
  }
}
