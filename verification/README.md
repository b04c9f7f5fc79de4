# Landmark resolution of the photo landmark recognizer

The application accepts an uploaded photo and works out which landmark it
shows. First it checks the file's extension. Then it reads the photo's EXIF
GPS position and converts the degree/minute/second rationals to decimal
degrees. It looks up a static catalogue of landmarks by coordinate box. If
that finds nothing, it looks the catalogue up by a manually entered name. If
both fail, it falls back to an external label-detection service. This project
models that pipeline in Dafny with exact (`real`) arithmetic and proves its
first-match, strictness, case and ordering properties.

Modules (one file each):

- `Wrappers` (`wrappers.dfy`): the `Option` type.
- `Text` (`text.dfy`): ASCII lower-casing and the last occurrence of a character (what `rsplit(".", 1)` cuts at).
- `Scan` (`scan.dfy`): the first-match scan shared by both catalogue lookups.
- `Upload` (`upload.dfy`): `allowed_file`.
- `Gps` (`gps.dfy`): `convert_to_degrees` and the choice of latitude/longitude from the decoded GPS tags.
- `Landmarks` (`landmarks.dfy`): the catalogue entry, `find_landmark_by_coords` and `find_landmark_by_name`.
- `Resolver` (`resolver.dfy`): the resolution order and the decisions of the `/upload` handler.

The catalogue, which the application loads once from `landmarks.json`, is a
`seq<Landmark>` passed to every lookup. The lookups are functions, so they
cannot change it. The conversion applies no hemisphere sign, because the code
never reads the GPS reference tags: southern and western positions come out
positive. `ConvertNonNegative` states this as written.

## Model

| member | source | states |
|---|---|---|
| `Text.LowerChar` | app.py:28 | lower-casing leaves no ASCII capital; a character is unchanged exactly when it is not a capital, and a capital moves down by 32 |
| `Text.LastIndexOf` | app.py:28 | `None` exactly when the character does not occur; otherwise an index holding it with no occurrence after it |
| `Text.LastIndexOfSplit` | app.py:28 | in `prefix + "." + suffix` with a dot-free suffix, the split point is the dot between them |
| `Scan.FirstFrom` | app.py:56-69 | the scan finds nothing exactly when no element passes; otherwise it returns a passing index with no passing index before it |
| `Scan.FirstIsLeast` | app.py:58-62 | the scan returns `i` if and only if `i` is the least passing index |
| `Scan.FirstIgnoresSuffix` | app.py:58-62 | once an element passes, appending elements never changes the result |
| `Upload.AllowedFile` | app.py:27-28 | an accepted name always contains a dot |
| `Upload.NoDotRejected` | app.py:28 | a name without a dot is rejected |
| `Upload.AllowedFileByExtension` | app.py:27-28 | `stem + "." + ext` with a dot-free `ext` is accepted if and only if lower-cased `ext` is one of `jpg`, `jpeg`, `png`, `heic`; only the last extension counts |
| `Upload.AllowedFileIgnoresCase` | app.py:28 | two names that are equal after lower-casing are both accepted or both rejected |
| `Upload.UpperCaseExtensionAccepted` | app.py:28 | every `stem + ".JPG"` (e.g. `"A.JPG"`) is accepted |
| `Upload.InnerExtensionIgnored` | app.py:28 | every `stem + ".jpg.exe"` (e.g. `"x.jpg.exe"`) is rejected |
| `Gps.ConvertToDegrees` | app.py:52-54 | the conversion yields a value exactly when all three denominators are nonzero (a zero raises `ZeroDivisionError`) |
| `Gps.ConvertNonNegative` | app.py:52-54 | non-negative numerators over positive denominators give a non-negative result; no sign is applied |
| `Gps.ConvertRecoversDms` | app.py:52-54 | for whole degrees and minutes (minutes < 60) and seconds in [0, 60), the whole part of the result is the degrees, the next 60ths are the minutes and the rest is the seconds |
| `Gps.ConvertExample` | app.py:52-54 | `((48,1),(51,1),(29,1))` gives 48 + 51/60 + 29/3600 = 175889/3600, between 48.858 and 48.8581 |
| `Gps.CoordsFromGpsInfo` | app.py:43-50 | coordinates come out exactly when both `GPSLatitude` and `GPSLongitude` are present and convertible; then they are the converted latitude and longitude, and otherwise the failure becomes `None` |
| `Landmarks.FindByCoords` | app.py:56-63 | `None` exactly when no entry is strictly within `threshold` on both axes; any result is a catalogue entry inside the box |
| `Landmarks.FindByCoordsFirstMatch` | app.py:58-62 | the least index whose entry is in the box is the entry returned |
| `Landmarks.FindByCoordsIndex` | app.py:58-62 | a returned entry sits at an index in the box, and no earlier index is in the box |
| `Landmarks.FindByCoordsIgnoresLaterEntries` | app.py:58-62 | after a qualifying entry, no appended entry, however close, changes the answer |
| `Landmarks.CloserLaterEntryLoses` | app.py:61-62 | an entry exactly at the position loses to an earlier entry that is only inside the box |
| `Landmarks.BoxIsStrict` | app.py:61 | an entry exactly `threshold` away on either axis is not matched |
| `Landmarks.FindByName` | app.py:65-69 | `None` exactly when no name equals the hint after lower-casing both; any result is a catalogue entry with such a name |
| `Landmarks.FindByNameFirstMatch` | app.py:66-68 | the first entry whose name matches is the one returned |
| `Landmarks.FindByNameIgnoresCase` | app.py:67 | hints equal up to case resolve to the same entry, or all to none |
| `Landmarks.OtherLengthNeverMatches` | app.py:67 | a hint of another length than an entry's name, such as a proper substring of it, never matches that entry |
| `Landmarks.FindByNameNeedsWholeName` | app.py:65-69 | a hint whose length differs from every catalogued name finds nothing |
| `Landmarks.EiffelturmVariants` | app.py:67 | `"Eiffelturm"`, `"eiffelturm"` and `"EIFFELTURM"` are equal after lower-casing |
| `Landmarks.EiffelturmExample` | app.py:65-69 | with `"Eiffelturm"` catalogued, `"eiffelturm"` and `"EIFFELTURM"` find it and `"Eiffel"` finds nothing |
| `Resolver.Resolve` | app.py:127-138 | a coordinate match wins whatever the hint; otherwise a non-empty hint that names an entry resolves to it; label detection is needed exactly when both fail; a resolved landmark is a catalogue entry |
| `Resolver.HandleUpload` | app.py:114-142 | a missing image, an empty file name and a disallowed extension each get their own answer, exactly in those cases; an accepted upload gets a summary exactly when the resolution finds a landmark, titled with that landmark's name; otherwise it lists the detected labels, or fails when label detection returned no list |
| `Resolver.RejectedBeforeProcessing` | app.py:122-142 | a non-empty name with a disallowed extension is refused whatever the GPS position, hint and label detection |
| `Resolver.ResolvedIgnoresLabels` | app.py:134-137 | once a landmark is resolved, the answer does not depend on label detection |
| `Resolver.UnusableGpsInfoActsAsAbsent` | app.py:43-50 | GPS tags with a tag missing or a zero denominator leave the request exactly as a photo without GPS data |
| `Resolver.GpsMatchSkipsVision` | app.py:127-135 | a photo whose GPS tags convert to a position in the box of an entry, and of no earlier one, gets that entry's summary whatever the hint and label detection |
| `Resolver.NoMetadataNoHintFallsBack` | app.py:127-138 | a photo without GPS data and without a non-empty hint lists the detected labels, or fails when there is no label list |

## Left out

- Text.LowerChar: covers ASCII capitals only. Python's `str.lower()` also lower-cases non-ASCII letters (`Ä`, `Ö`, `É`, …); the model leaves those unchanged.
- Landmarks.FindByName: because of the ASCII-only lower-casing, hints that differ from a name only in the case of non-ASCII letters do not match. The catalogue is German (summaries are fetched in German, app.py:73), so `"KÖLNER DOM"` finds `"Kölner Dom"` in the application but not in the model.
- Floating point: coordinates, thresholds and the DMS conversion use exact reals, not IEEE doubles, so rounding in `abs(lat - latitude) < threshold` and in `d + m/60 + s/3600` is not modelled.
- Reading EXIF data with PIL (`Image.open`, `_getexif`, the `TAGS`/`GPSTAGS` decoding, app.py:30-42): foreign library code. The model starts from the decoded GPS tags as a map (`Gps.CoordsFromGpsInfo`); a GPS value that is not a triple of pairs, which makes the unpacking raise, cannot be expressed in the `Dms` type.
- The catalogue file `landmarks.json` and its loading (app.py:22-23): file I/O. The catalogue is an input sequence.
- `secure_filename`, the upload folder and `file.save` (app.py:5, 15-19, 123-125): library calls and filesystem writes. They do not affect any decision.
- `get_structured_summary` (app.py:71-77): calls the external encyclopedia client and formats HTML. The model answers `Summary(name)` with the name it would be called with.
- `analyze_with_vision_api` (app.py:79-105): an HTTP call to the label-detection service with base64 encoding. Its result is the `labels` parameter of `Resolver.HandleUpload`: `None` when the API key is unset (app.py:84-86), a list otherwise (empty after a failed call). With `None`, app.py:138 joins `None` and raises `TypeError`, so the request fails; the model answers `LabelsUnavailable` there. The HTML of the label page is not modelled.
- Flask routing, templates and the `/` page (app.py:1-12, 107-111, 140, 144-145): web-framework glue.
- test_credentials.py: a start-up script that decodes a credential bundle from the environment and writes it to a file; no logic to model.
