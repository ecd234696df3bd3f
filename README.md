# Field extraction and box normalisation of the ID-card text scraper

This project models, in Dafny, the deterministic core of a scraper that reads
two Indian ID-card templates (Driving Licence and Voter ID). A text detector
(CTPN) finds text-line quadrilaterals. Tesseract reads the text of each box.
Then keyword heuristics pick out the fields. The model covers two parts.

* **Box normalisation** (`ctpn/ctpn_boxes.py`), module `CtpnBoxes`:
  * the resize factor of `resize_im`;
  * `get_boxes`, which filters the detector's flat 8-coordinate rows and turns
    each kept row into the axis-aligned bounding box of its descaled corners;
  * the stable sort of the boxes by `y_min` that ends `ctpn_boxes`.
* **Field extraction** (`ctpn/framework.py`), module `Framework`: the
  accessors `get_name`, `get_father_name`, `get_id_num`, `get_dob`, `get_bg`
  and `get_age`, the lookup and classification of `get_gender`, the anchor
  lookup and box synthesis of `get_address`, and the `'Transport'` test of
  `get_doc_type`.

It is built on module `PyStr`, which models the Python primitives these
heuristics use: substring `in`, `str.split(sep)` (with its `join` round trip),
`split(sep)[1]`, `lstrip`, `upper`, `replace('\n', ' ')`, `list.index`, the
comprehension `[x for x in lines if k in x]`, and the filter of
`strip_special_chars`. Module `Wrappers` holds `Option` and `Result`. Module
`Scenarios` works through concrete examples.

Python's exceptions become `Err` values of `Framework.Error`:
* `NoLineContains` is the `IndexError` of `[...][0]` on an empty comprehension.
* `NoSecondPiece` is the `IndexError` of `split(sep)[1]`.
* `NotInList` is the `ValueError` of `list.index`.
* `IndexOutOfRange` is the `IndexError` of `lines[i]` or `boxes[i]`.

Each accessor's contract lists which of these it raises, and exactly when;
for `get_address` two lemmas beside it, `Framework.AddressBoxNoIssueLine` and
`Framework.AddressBoxIndexErrors`, complete the list.
Two ghost predicates state what a same-line field and a next-line field are,
in terms of first occurrences, independently of how they are computed:
`Framework.SameLineSpec` and `Framework.NextLineSpec`.

Several behaviours of the code are easy to misread. The model follows the code
in each case:
* The gender label for an unreadable glyph is spelled `'Not Recongized'`.
* `split(sep)[1]` is the text between the first and the second occurrence of
  `sep`, not everything after the first one.
* The size filter of `get_boxes` indexes a flat row. It therefore tests
  `|x0 - y0|` and `|y1 - x0|`, not the distances between corners 0–1 and 3–0.
* An emitted box can have `min_x == max_x`. The code guarantees
  `min_x <= max_x` and `min_y <= max_y`, not strict inequality.
* In `resize_im` both constraints can hold at once: the short side equals
  `scale` and the long side equals `max_scale` when the uncapped factor lands
  exactly on the cap. So it is not true that exactly one of the two
  constraints binds; `CtpnBoxes.ResizeFactor` states which branch is taken,
  and when.

The OCR engine is a parameter `ocr: Box -> string`. It gives the text that
Tesseract reads from the crop of one box, and the crop is represented only by
its box. The descaling `int(c / scale)` is a parameter `descale: real -> int`.

## Model

| member | source | states |
|---|---|---|
| `PyStr.Find` | ctpn/framework.py:112 | the result is the leftmost position where the needle occurs, or None when it occurs nowhere (the substring test `k in x`) |
| `PyStr.Contains` | ctpn/framework.py:112 | the substring test `k in x` is true exactly when the needle occurs at some position |
| `PyStr.ContainsTransitive` | ctpn/framework.py:162-163 | a substring of a substring is a substring |
| `PyStr.ContainsChar` | ctpn/framework.py:238-240 | for a one-character needle, `in` is character membership |
| `PyStr.Split` | ctpn/framework.py:113 | `str.split(sep)` returns at least one piece |
| `PyStr.JoinSplit` | ctpn/framework.py:113 | joining the pieces of `split(sep)` with `sep` gives back the string |
| `PyStr.SplitPiecesFree` | ctpn/framework.py:113 | no piece of `split(sep)` contains `sep` |
| `PyStr.SplitPiecesLeading` | ctpn/framework.py:113 | every piece of `split(sep)` runs from its start up to the next `sep`, or to the end of the string, with no `sep` before that |
| `PyStr.SplitHasSecond` | ctpn/framework.py:113 | `split(sep)` has a second piece exactly when `sep` occurs |
| `PyStr.SecondPiece` | ctpn/framework.py:113 | `split(sep)[1]` exists exactly when `sep` occurs, and it runs from the end of the first occurrence up to the next occurrence or the end |
| `PyStr.SecondPieceFree` | ctpn/framework.py:181 | the piece `split(sep)[1]` contains no `sep` |
| `PyStr.SecondPieceOfOnly` | ctpn/framework.py:197 | when the separator occurs exactly once, `split(sep)[1]` is everything after that occurrence |
| `PyStr.SecondPieceOfSingle` | ctpn/framework.py:197 | when the separator's first character occurs nowhere in the string outside one occurrence of the separator, `split(sep)[1]` is everything after that occurrence |
| `PyStr.LStrip` | ctpn/framework.py:91 | `lstrip` returns a suffix; the removed prefix is all whitespace, and the result is empty or starts with a non-space |
| `PyStr.Upper` | ctpn/framework.py:167 | `upper` keeps the length, leaves no lower-case letter, maps each lower-case letter to its capital and changes nothing else |
| `PyStr.UpperIdempotent` | ctpn/framework.py:167 | upper-casing twice equals upper-casing once |
| `PyStr.ReplaceNewlines` | ctpn/framework.py:283 | `replace('\n', ' ')` keeps the length, leaves no newline, and turns each newline into a space and nothing else |
| `PyStr.ReplaceNewlinesFixed` | ctpn/framework.py:283 | the replacement changes a string exactly when it contains a newline |
| `PyStr.KeepAlnumSpace` | ctpn/framework.py:90 | the generator join keeps only alphanumerics and spaces and never lengthens the text |
| `PyStr.KeepAppend` | ctpn/framework.py:90 | the filter distributes over concatenation |
| `PyStr.KeepChar` | ctpn/framework.py:90 | a single character is kept exactly when it is alphanumeric or a space |
| `PyStr.KeepAllKept` | ctpn/framework.py:90 | text made only of kept characters passes the filter unchanged |
| `PyStr.KeepSubsequence` | ctpn/framework.py:90 | the filtered text is a subsequence of the input |
| `PyStr.StripSpecialChars` | ctpn/framework.py:88-92 | every character is alphanumeric or a space, the first is not a space, and the result is the filtered text less its leading spaces |
| `PyStr.StripSpecialCharsSubsequence` | ctpn/framework.py:88-92 | the result is a subsequence of the input |
| `PyStr.StripSpecialCharsIdempotent` | ctpn/framework.py:88-92 | applying `strip_special_chars` twice equals applying it once |
| `PyStr.LinesContaining` | ctpn/framework.py:112 | the comprehension keeps lines containing the keyword; it is empty exactly when no line does, and otherwise starts with the first line that does |
| `PyStr.FirstLineContaining` | ctpn/framework.py:112 | `[...][0]` fails exactly when no line contains the keyword, and otherwise is the first line that does |
| `PyStr.IndexOf` | ctpn/framework.py:115 | `list.index` gives the first index of an equal element, and fails exactly when there is none |
| `PyStr.IndexOfFirstContaining` | ctpn/framework.py:263-264 | looking up the first matching line by value finds its own index |
| `Framework.SameLineField` | ctpn/framework.py:112-113 | meets `SameLineSpec`: first line with the anchor, its second `sep` piece, and the two failure cases in both directions |
| `Framework.NextLineField` | ctpn/framework.py:115 | meets `NextLineSpec`: the element after the first exact match, failing when there is no match or the match is last |
| `Framework.CorrectBloodGroup` | ctpn/framework.py:198-199 | `"0"` becomes `"O"`, every other value is kept, and the result is never `"0"` |
| `Framework.GetName` | ctpn/framework.py:109-117 | Voter ID: same-line field on `"Elector's Name"`/`": "`; licence: next-line field after `"Name"`; then `strip_special_chars`, so only alphanumerics and spaces with no leading space |
| `Framework.GetFatherName` | ctpn/framework.py:134-142 | Voter ID: same-line field on `"Husband's Name"`/`": "`; licence: next-line field after `"S/W/D"`; same cleaning |
| `Framework.GetIdNum` | ctpn/framework.py:159-167 | same-line field on `"IDENTITY CARD"`/`"CARD"` or `"Licence No"`/`": "`; always upper-cased; the Voter-ID number has no leading whitespace and fails only when no line contains `"IDENTITY CARD"` |
| `Framework.VoterIdNumber` | ctpn/framework.py:163-167 | the Voter-ID number after `lstrip().upper()` has no lower-case letter, does not start with whitespace, and is no longer than the text after `"CARD"` |
| `Framework.VoterIdAnchorHasSeparator` | ctpn/framework.py:162-163 | a line containing `"IDENTITY CARD"` contains `"CARD"` |
| `Framework.GetDob` | ctpn/framework.py:179-182 | same-line field on `"DOB"`/`" "`; the result contains no space |
| `Framework.GetBg` | ctpn/framework.py:195-200 | same-line field on `"BG"`/`"BG: "` with `"0"` read as `"O"`; the result is never `"0"` |
| `Framework.GetAge` | ctpn/framework.py:212-215 | same-line field on `"Age"`/`": "` |
| `Framework.GetDocType` | ctpn/framework.py:78-81 | fails exactly when there is no box; otherwise a driving licence exactly when the first box's text contains `"Transport"` |
| `Framework.ClassifyGender` | ctpn/framework.py:238-243 | `"Male"` exactly when the text has an `M`; `"Female"` exactly when it has an `F` and no `M`; `"Not Recongized"` exactly when it has neither |
| `Framework.GenderBox` | ctpn/framework.py:233-234 | the box at the first exact `"Sex"` index plus one; fails with ValueError when `"Sex"` is absent, and with IndexError when that index is not a box index |
| `Framework.GetGender` | ctpn/framework.py:232-244 | fails exactly as the box lookup does; otherwise the classification of the re-read text of that box |
| `Framework.AnchorIndex` | ctpn/framework.py:263-267 | `lines.index([...][0])` is the index of the first line containing the anchor, and fails only when none does |
| `Framework.RelookupFindsFirst` | ctpn/framework.py:264 | the `.index` re-lookup of a matched line never fails and finds the first match |
| `Framework.AddressBox` | ctpn/framework.py:263-279 | succeeds exactly when both anchors occur at box indices; the box is `[bg.x_min, bg.y_max, doi.x_max, doi.y_min]` of the first `"BG"` and first `"Date of Issue"` lines; the only failures are the two missing-anchor errors (the `"BG"` one exactly when no line has `"BG"`) and an index past the end of `boxes`, never a ValueError |
| `Framework.AddressBoxNoIssueLine` | ctpn/framework.py:263-266 | the lookup fails on `"Date of Issue"` exactly when some line has `"BG"` and none has `"Date of Issue"` |
| `Framework.AddressBoxIndexErrors` | ctpn/framework.py:274-277 | with both anchors found, an out-of-range `bg_idx` is reported first, and an out-of-range `doi_idx` only when `bg_idx` is in range |
| `Framework.AddressCrop` | ctpn/framework.py:274-279 | the crop exists exactly when both indices are box indices; it takes x_min and y_max of the `"BG"` box and x_max and y_min of the `"Date of Issue"` box |
| `Framework.GetAddress` | ctpn/framework.py:262-284 | fails exactly when the box lookup does, with the same error; otherwise the re-read text of that box, of the same length, with every newline turned into a space and every other character kept |
| `CtpnBoxes.ResizeFactor` | ctpn/ctpn_boxes.py:30-33 | without a cap the short side scales to `scale`; with a cap the long side never exceeds it, and exactly the capped branch (long side equal to the cap, short side below `scale`) is taken when `scale * long > cap * short` |
| `CtpnBoxes.Dropped` | ctpn/ctpn_boxes.py:47 | a row is dropped exactly when `x0 - y0` or `y1 - x0` lies strictly between -5 and 5 |
| `CtpnBoxes.Min4` | ctpn/ctpn_boxes.py:49 | the minimum is below every argument and equals one of them |
| `CtpnBoxes.Max4` | ctpn/ctpn_boxes.py:50 | the maximum is above every argument and equals one of them |
| `CtpnBoxes.BoundingBox` | ctpn/ctpn_boxes.py:49-54 | the box is well formed, every descaled corner lies inside it, and each bound is attained by some corner |
| `CtpnBoxes.DetectedBoxes` | ctpn/ctpn_boxes.py:44-56 | the output is no longer than the input and every emitted box is well formed |
| `CtpnBoxes.KeptIndices` | ctpn/ctpn_boxes.py:46-48 | the kept indices are increasing and are exactly the rows the filter does not drop |
| `CtpnBoxes.DetectedBoxesAreKeptQuads` | ctpn/ctpn_boxes.py:45-56 | one box per kept row, in input order: the j-th box is the bounding box of the j-th kept row |
| `CtpnBoxes.DroppedQuadsEmitNothing` | ctpn/ctpn_boxes.py:47-48 | an input whose rows are all dropped yields no box, whatever the descaling |
| `CtpnBoxes.GetBoxes` | ctpn/ctpn_boxes.py:44-56 | the loop's output is `DetectedBoxes` of its input |
| `CtpnBoxes.InsertionPoint` | ctpn/ctpn_boxes.py:99 | the insertion point is past every box with a smaller `y_min` and at a box whose `y_min` is not smaller, or at the end |
| `CtpnBoxes.InsertAtPoint` | ctpn/ctpn_boxes.py:99 | inserting a box puts it at its insertion point and leaves the other boxes in their order |
| `CtpnBoxes.SortByYMin` | ctpn/ctpn_boxes.py:99 | the sorted list has non-decreasing `y_min` and is a permutation of its input |
| `CtpnBoxes.SortStable` | ctpn/ctpn_boxes.py:99 | for every `y_min` value, the boxes with that value appear in the same order as in the input |
| `CtpnBoxes.StableSortUnique` | ctpn/ctpn_boxes.py:99 | two lists that are sorted by `y_min` and agree on the order of each key's boxes are equal, so the stable sort's result is determined |
| `CtpnBoxes.WithYMinMembers` | ctpn/ctpn_boxes.py:99 | the boxes of one key are exactly the input's boxes with that `y_min` |
| `CtpnBoxes.OrderedBoxes` | ctpn/ctpn_boxes.py:97-101 | the returned boxes are sorted by `y_min`, a stable permutation of the `get_boxes` output, and all well formed |
| `Scenarios.LicenceName` | ctpn/framework.py:115-116 | on a licence with lines `GOVERNMENT, Name, JOHN DOE, …` the name is `JOHN DOE` |
| `Scenarios.LicenceFatherName` | ctpn/framework.py:140-141 | in the same lines the father's name is `RICHARD DOE` |
| `Scenarios.LicenceWithoutNameAnchor` | ctpn/framework.py:115 | without an element equal to `Name` the licence name fails with ValueError |
| `Scenarios.VoterName` | ctpn/framework.py:112-113 | `Elector's Name: JANE SMITH` gives the name `JANE SMITH` |
| `Scenarios.BloodGroupZero` | ctpn/framework.py:196-199 | `BG: 0` gives the blood group `O` |
| `Scenarios.BloodGroupBPositive` | ctpn/framework.py:196-200 | `BG: B+` gives the blood group `B+`, although `B` recurs after the separator |
| `Scenarios.GenderAfterSex` | ctpn/framework.py:233-243 | with `Sex` at index 3, a re-read `F` gives `Female` and `X` gives `Not Recongized` |

## Left out

- Loading and running the CTPN network (`ctpn_boxes`, ctpn/ctpn_boxes.py:65-96): TensorFlow, `_get_blobs`, `proposal_layer` and `TextDetector.detect` are an opaque neural network. The model starts from the detector's rows (`Quad`).
- The pixel work of `cv2.resize` (ctpn/ctpn_boxes.py:34) and the image slicing of `get_crop_img` (ctpn/framework.py:17-23): raster manipulation. A crop is represented by its box, and the factor of `resize_im` is modelled without the image.
- `get_tesseract_output`, `get_output_text` and the OCR calls inside `get_doc_type`, `get_gender` and `get_address`: an external engine plus a temporary file. Their results are inputs (`lines`) or the parameter `ocr`, which is assumed to return the same text for the same box (it does not model the page-segmentation mode).
- The command line, `cv2.imread`, the assembly of the JSON record and the file write in `__main__` (ctpn/framework.py:286-350): input/output and serialisation.
- Floating point: coordinates and the factor are reals; `np.linalg.norm` of a scalar is its absolute value; `int(c / scale)` is the parameter `descale`, so truncation toward zero is not modelled.
- The algorithm of Python's `list.sort`: only its result is modelled, as the stable insertion sort `CtpnBoxes.SortByYMin`. The list is created inside `ctpn_boxes` and sorted before it is returned, so the model reassigns a sequence instead of updating it in place; no alias of it exists in the source.
- `PyStr.Upper`: ASCII only; Python's `upper` also maps non-ASCII letters and can lengthen a string (`'ß'` becomes `'SS'`).
- `PyStr.IsAlnum` and `PyStr.IsSpace`: ASCII classes only, not Python's Unicode `isalnum`/`isspace`.
- `PyStr.Split`: requires a non-empty separator; Python raises `ValueError` for an empty one, which no caller passes.
