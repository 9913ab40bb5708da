# apple-screenverter: device matching, result records and upload names

This project is a Dafny model of the core of a small web service. The service
takes a screenshot, picks the App Store Connect device size it is closest to,
and crops and resizes the image to that size. The model covers four parts:

- **The catalog** (`AppleSpecs`, `apple_specs.dfy`). It is an ordered table of
  twelve devices. Each entry has a key, a display name, a portrait pair and a
  landscape pair. Both pairs are stored, and neither is derived from the other.
- **The matcher** (`ImageProcessor.FindClosestSpec`, `image_processor.dfy`).
  An input is portrait exactly when its height exceeds its width, so a square
  is landscape. The matcher scores each entry's pair for that orientation as
  `2·|w/h − tw/th| + 0.5·|w·h − tw·th| / (tw·th)`. It scans the entries in
  catalog order and keeps the first one with the strictly lowest score. Scores
  are exact `real` rationals. The catalog is a parameter, and `FindClosest`
  applies the matcher to the static catalog. `FindClosestSpecLoop` is the
  same scan written as the loop of `find_closest_spec`. Its running best score starts at
  infinity, modelled as `None`.
- **The result assembly** of `process_screenshot`
  (`ImageProcessor.ProcessScreenshot`). Image decoding, resizing and saving
  are parameters. The decoder supplies either a size or an error text. The
  resizer and the saver each supply either nothing or an error text. Every
  failure becomes the failure record, carrying the text of the exception.
- **The upload names** (`App`, `app.dfy`). This part covers the
  `allowed_file` extension check, the stored input name
  `<id>.<lower-cased extension>` and the output name `<id>_resized.png`.

An empty catalog makes the matcher return `None`, and `process_screenshot`
then reports "Could not find suitable Apple specification".

Proved properties:

- The match is the first minimum of the scores. It is unique, and a later
  entry with the same pair as an earlier one is never returned. For the
  static catalog, this means only five of the twelve keys can ever be
  reported.
- A score is zero exactly when the input has the target's dimensions.
- The match's orientation and the shape of its pair agree with the input.
- The success record copies its fields from the match.
- The upload check is decided by the last dot only and ignores letter case.
- The output name is always a PNG that the upload check itself accepts.

## Model

| member | source | states |
|---|---|---|
| AppleSpecs.Catalog | utils/apple_specs.py:2-63 | the table has 12 entries and starts with `iphone_16_pro_max`; every component is positive; portrait pairs are tall and landscape pairs wide; each landscape pair is its portrait pair swapped; entries 0/4, 1/2/3, 6/7/8/10 and 9/11 share their dimensions, so ties are reachable |
| AppleSpecs.CatalogKeysDistinct | utils/apple_specs.py:3-58 | no two entries share a key |
| ImageProcessor.Score | utils/image_processor.py:25-32 | a score is never negative |
| ImageProcessor.ScoreZeroIff | utils/image_processor.py:25-32 | for positive sizes, the score is 0 exactly when the input equals the target pair (equal ratio and equal area force equal dimensions) |
| ImageProcessor.BestIndex | utils/image_processor.py:15-41 | after n entries the scan holds nothing exactly when n = 0; otherwise it holds an entry that scores at most every visited entry and strictly less than every entry before it |
| ImageProcessor.FindClosestSpec | utils/image_processor.py:11-43 | None exactly for an empty catalog; otherwise the key, name, pair for the input's orientation and orientation tag of the first minimum entry, whose score is at most every entry's score |
| ImageProcessor.FindClosestSpecLoop | utils/image_processor.py:11-43 | the loop with an infinite starting best score and a strict `<` update returns None exactly for an empty catalog, and returns the same match as the first-minimum definition |
| ImageProcessor.FindClosest | utils/image_processor.py:8-9 | over the static catalog, every input with a non-zero height gets a match |
| ImageProcessor.FirstMinUnique | utils/image_processor.py:34-41 | two first-minimum positions are the same position, so the match is determined by the scores and the catalog order alone |
| ImageProcessor.LaterDuplicateNeverChosen | utils/image_processor.py:34 | if two entries offer the same pair for the input's orientation, the later one's key is never returned (ties go to the earlier entry) |
| ImageProcessor.ExactMatchWins | utils/image_processor.py:19-41 | an input equal to some entry's pair is matched to the first entry with that pair |
| ImageProcessor.MatchOrientationConsistent | utils/image_processor.py:13-22 | `OrientationOf` (line 13) makes an input portrait iff height > width, so a square is landscape, and `Target` (lines 19-22) picks the entry's pair for that orientation; on a catalog of tall portrait and wide landscape pairs, the orientation tag is "portrait" iff height > width, and the returned pair is taller than wide iff the input is |
| ImageProcessor.CatalogMatchOrientation | utils/image_processor.py:13-22 | over the static catalog, the match carries the input's orientation and a pair of the input's shape |
| ImageProcessor.ExactPortraitPicksFirstEntry | utils/image_processor.py:34-41 | 1290x2796 yields `iphone_16_pro_max` with pair (1290, 2796), not `iphone_14_pro_max` |
| ImageProcessor.LandscapeScores3000x2000 | utils/image_processor.py:25-32 | for a 3000x2000 input, the 2868x1320 pair scores below 1.64 and the other four landscape pairs score above 1.66 |
| ImageProcessor.LandscapeExample | utils/image_processor.py:11-43 | 3000x2000 yields `iphone_16_plus` with landscape pair (2868, 1320) |
| ImageProcessor.ShadowedEntriesNeverChosen | utils/image_processor.py:34-41 | over the static catalog the returned key is always one of `iphone_16_pro_max`, `iphone_16_plus`, `iphone_14_plus`, `iphone_13_pro_max`, `iphone_11` |
| ImageProcessor.ProcessScreenshot | utils/image_processor.py:70-102 | a decode error is returned as its text; an empty catalog gives "Could not find suitable Apple specification"; a zero height gives "division by zero"; a resize error gives "Error resizing image: " plus its cause (`ResizeError`, line 68); a save error gives its text; success happens exactly when no step fails, and it carries the input size, the output path, and the match's pair, name and orientation |
| ImageProcessor.ProcessedOrientationConsistent | utils/image_processor.py:89-96 | a success over the static catalog reports the orientation of the original size, and a target that is taller than wide exactly when the original is |
| App.LastIndexOf | app.py:23 | the position of the last occurrence of a character: none exactly when it is absent, otherwise that character with no occurrence after it |
| App.Extension | app.py:23 | `rsplit('.', 1)[1]`: absent exactly when there is no dot; otherwise a dot-free suffix, with the name equal to the rest, a dot and that suffix |
| App.AllowedFile | app.py:22-23 | an accepted name contains a dot and does not end in one |
| App.AllowedFileIff | app.py:19-23 | a name is accepted exactly when some dot has no dot after it and the lower-cased text after it is `png`, `jpg` or `jpeg` |
| App.AllowedFileCaseInsensitive | app.py:23 | `Lower` models `.lower()` on ASCII letters; lower-casing a name does not change whether it is accepted |
| App.InnerExtensionIgnored | app.py:23 | "a.png.exe" is refused |
| App.OuterExtensionDecides | app.py:23 | "a.exe.png" is accepted |
| App.UpperCaseAccepted | app.py:23 | "X.PNG" and "y.JpEg" are accepted |
| App.OtherNamesRejected | app.py:19-23 | a name without a dot, a name ending in a dot and a `.gif` name are refused |
| App.InputFilename | app.py:60-62 | a sanitised name without a dot raises "list index out of range"; otherwise the stored name is exactly the id, a dot and its own extension, and that extension is the lower-cased extension of the sanitised name; the stored name passes the upload check exactly when the sanitised name does |
| App.OutputFilename | app.py:63 | the output name is exactly the id followed by `_resized.png`, so its extension is `png` whatever was uploaded, and it passes the upload check |

## Left out

- Pixel work in `resize_image` (utils/image_processor.py:45-68) is left out: alpha compositing onto white, palette conversion, LANCZOS resampling and centred cropping. These are calls into the imaging library. The model takes the resizer's outcome as a parameter (`resize`), and only its error wrapping is modelled.
- Image decoding and PNG saving (utils/image_processor.py:74-75, 87) are codec I/O. They enter `ProcessScreenshot` as the `decoded` and `saveError` parameters.
- ImageProcessor.Score: uses exact rationals, not IEEE-754 doubles. Inputs whose scores tie, or nearly tie, could be ranked differently by CPython's rounded floats. Very large integers that overflow a double are not modelled either.
- ImageProcessor.FindClosestSpec: requires every catalog component to be positive. Otherwise a zero target height or area would raise a division error that is not modelled. The static catalog meets this requirement (`AppleSpecs.Catalog`). The zero input height, which is the only input the source cannot score, is modelled: the matcher requires a non-zero height only when the catalog is non-empty, and `ProcessScreenshot` returns the "division by zero" failure.
- App.AllowedFile: lower-casing is modelled for ASCII letters only. Python's `str.lower` is full Unicode, but no non-ASCII character lower-cases to a letter of `png`, `jpg` or `jpeg`, so the accept/refuse decision is the same.
- App.InputFilename: takes the output of `secure_filename` (a Werkzeug call) as a parameter. The unique id from `uuid4` is also a parameter. Because of this, the model does not connect the uploaded name to the sanitised one.
- Everything else in app.py is left out: Flask routing, HTML responses, `send_file`, directory creation, `file.save`, `os.remove` and the download lookup. These are web and file-system I/O.
