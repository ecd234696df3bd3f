/**
 * The field-extraction heuristics of ctpn/framework.py. They work on the OCR
 * text of every detected box (`lines`, one string per box, in the order of
 * `boxes`). Python's exceptions become `Err` values: `IndexError` from `[0]` on
 * an empty comprehension, from `split(sep)[1]` and from indexing a list, and
 * `ValueError` from `list.index`. Calls to the OCR engine are the parameter
 * `ocr`, which gives the text read from the crop of one box.
 */
module Framework {
  import opened Wrappers
  import opened PyStr
  import opened CtpnBoxes

  /** The document templates; `get_doc_type` returns True for a driving licence. */
  datatype DocType = VoterId | DrivingLicence

  datatype Error =
    | NoLineContains(anchor: string)  // `[x for x in lines if anchor in x][0]` on an empty list
    | NoSecondPiece(sep: string)      // `block.split(sep)[1]` when `sep` does not occur
    | NotInList(token: string)        // `lines.index(token)` when `token` is no element
    | IndexOutOfRange(index: int)     // `lines[index]` or `boxes[index]` past the end

  type Fallible<T> = Result<T, Error>

  // ---------------------------------------------------------------------------
  // The two text lookups
  // ---------------------------------------------------------------------------

  /**
   * What a same-line field is: the first line that contains `anchor` is split
   * on `sep`, and the field is `post` of the second piece. It fails when no
   * line contains the anchor, or when that first line does not contain `sep`.
   */
  ghost predicate SameLineSpec(lines: seq<string>, anchor: string, sep: string, post: string -> string, r: Fallible<string>)
    requires |sep| > 0
  {
    && (r.Ok? || r == Err(NoLineContains(anchor)) || r == Err(NoSecondPiece(sep)))
    && (r == Err(NoLineContains(anchor)) <==> forall j :: 0 <= j < |lines| ==> !Contains(lines[j], anchor))
    && (r == Err(NoSecondPiece(sep)) <==> exists i :: IsFirstContaining(lines, anchor, i) && !Contains(lines[i], sep))
    && (r.Ok? ==> exists i :: IsFirstContaining(lines, anchor, i) && Contains(lines[i], sep)
                   && exists v :: IsSecondPiece(lines[i], sep, v) && r.value == post(v))
  }

  /** `post(block.split(sep)[1])` for `block = [x for x in lines if anchor in x][0]`. */
  function SameLineField(lines: seq<string>, anchor: string, sep: string, post: string -> string): (r: Fallible<string>)
    requires |sep| > 0
    ensures SameLineSpec(lines, anchor, sep, post, r)
  {
    match FirstLineContaining(lines, anchor)
    case None => Err(NoLineContains(anchor))
    case Some(block) =>
      match SecondPiece(block, sep)
      case None => Err(NoSecondPiece(sep))
      case Some(v) => Ok(post(v))
  }

  /**
   * What a next-line field is: `post` of the element right after the first
   * element exactly equal to `token`. It fails when no element equals the
   * token, or when that element is the last one.
   */
  ghost predicate NextLineSpec(lines: seq<string>, token: string, post: string -> string, r: Fallible<string>) {
    && (r.Ok? || r == Err(NotInList(token)) || r == Err(IndexOutOfRange(|lines|)))
    && (r == Err(NotInList(token)) <==> token !in lines)
    && (r == Err(IndexOutOfRange(|lines|)) <==> IsFirstEqual(lines, token, |lines| - 1))
    && (r.Ok? ==> exists i :: IsFirstEqual(lines, token, i) && i + 1 < |lines| && r.value == post(lines[i + 1]))
  }

  /** `post(lines[lines.index(token) + 1])`. */
  function NextLineField(lines: seq<string>, token: string, post: string -> string): (r: Fallible<string>)
    ensures NextLineSpec(lines, token, post, r)
  {
    match IndexOf(lines, token)
    case None => Err(NotInList(token))
    case Some(i) =>
      if i + 1 < |lines| then Ok(post(lines[i + 1])) else Err(IndexOutOfRange(i + 1))
  }

  // ---------------------------------------------------------------------------
  // Post-processing
  // ---------------------------------------------------------------------------

  function Unchanged(s: string): string { s }

  /** The Voter-ID number: `split("CARD")[1].lstrip().upper()`. */
  function VoterIdNumber(s: string): (r: string)
    ensures IsUpperCased(r)
    ensures r == [] || !IsSpace(r[0])
    ensures |r| <= |s|
  {
    Upper(LStrip(s))
  }

  /** Tesseract may read the blood group `O` as the digit `0`; exactly that value is corrected. */
  function CorrectBloodGroup(bg: string): (r: string)
    ensures r != "0"
    ensures r != bg <==> bg == "0"
    ensures bg == "0" ==> r == "O"
  {
    if bg == "0" then "O" else bg
  }

  // ---------------------------------------------------------------------------
  // The field accessors
  // ---------------------------------------------------------------------------

  /** `get_name`: after `"Elector's Name"` and `": "` on a Voter ID, on the line after `"Name"` on a licence; then `strip_special_chars`. */
  function GetName(doc: DocType, lines: seq<string>): (r: Fallible<string>)
    ensures doc == VoterId ==> SameLineSpec(lines, "Elector's Name", ": ", StripSpecialChars, r)
    ensures doc == DrivingLicence ==> NextLineSpec(lines, "Name", StripSpecialChars, r)
    ensures r.Ok? ==> (forall i :: 0 <= i < |r.value| ==> IsKept(r.value[i])) && (r.value == [] || r.value[0] != ' ')
  {
    match doc
    case VoterId => SameLineField(lines, "Elector's Name", ": ", StripSpecialChars)
    case DrivingLicence => NextLineField(lines, "Name", StripSpecialChars)
  }

  /** `get_father_name`: after `"Husband's Name"` and `": "` on a Voter ID, on the line after `"S/W/D"` on a licence; then `strip_special_chars`. */
  function GetFatherName(doc: DocType, lines: seq<string>): (r: Fallible<string>)
    ensures doc == VoterId ==> SameLineSpec(lines, "Husband's Name", ": ", StripSpecialChars, r)
    ensures doc == DrivingLicence ==> NextLineSpec(lines, "S/W/D", StripSpecialChars, r)
    ensures r.Ok? ==> (forall i :: 0 <= i < |r.value| ==> IsKept(r.value[i])) && (r.value == [] || r.value[0] != ' ')
  {
    match doc
    case VoterId => SameLineField(lines, "Husband's Name", ": ", StripSpecialChars)
    case DrivingLicence => NextLineField(lines, "S/W/D", StripSpecialChars)
  }

  /**
   * `get_id_num`: the text after `"CARD"` on the first `"IDENTITY CARD"` line,
   * without leading whitespace, on a Voter ID; the text after `": "` on the
   * first `"Licence No"` line on a licence; upper-cased in both cases.
   */
  function GetIdNum(doc: DocType, lines: seq<string>): (r: Fallible<string>)
    ensures doc == VoterId ==> SameLineSpec(lines, "IDENTITY CARD", "CARD", VoterIdNumber, r)
    ensures doc == DrivingLicence ==> SameLineSpec(lines, "Licence No", ": ", Upper, r)
    ensures r.Ok? ==> IsUpperCased(r.value)
    ensures doc == VoterId && r.Ok? ==> r.value == [] || !IsSpace(r.value[0])
    ensures doc == VoterId ==> (r.Ok? <==> exists i :: 0 <= i < |lines| && Contains(lines[i], "IDENTITY CARD"))
  {
    match doc
    case VoterId =>
      var r := SameLineField(lines, "IDENTITY CARD", "CARD", VoterIdNumber);
      VoterIdAnchorHasSeparator(lines);
      r
    case DrivingLicence => SameLineField(lines, "Licence No", ": ", Upper)
  }

  /** `"IDENTITY CARD"` contains `"CARD"`, so the Voter-ID number never lacks its separator. */
  lemma VoterIdAnchorHasSeparator(lines: seq<string>)
    ensures forall i :: 0 <= i < |lines| && Contains(lines[i], "IDENTITY CARD") ==> Contains(lines[i], "CARD")
  {
    assert OccursAt("IDENTITY CARD", "CARD", 9);
    forall i | 0 <= i < |lines| && Contains(lines[i], "IDENTITY CARD") ensures Contains(lines[i], "CARD") {
      ContainsTransitive(lines[i], "IDENTITY CARD", "CARD");
    }
  }

  /** `get_dob`: the second `" "`-separated piece of the first line that contains `"DOB"`. */
  function GetDob(lines: seq<string>): (r: Fallible<string>)
    ensures SameLineSpec(lines, "DOB", " ", Unchanged, r)
    ensures r.Ok? ==> !Contains(r.value, " ")
  {
    var r := SameLineField(lines, "DOB", " ", Unchanged);
    assert forall line, v :: IsSecondPiece(line, " ", v) ==> !Contains(v, " ") by {
      forall line, v | IsSecondPiece(line, " ", v) ensures !Contains(v, " ") {
        SecondPieceFree(line, " ", v);
      }
    }
    r
  }

  /** `get_bg`: the second `"BG: "` piece of the first line that contains `"BG"`, with `'0'` read as `'O'`. */
  function GetBg(lines: seq<string>): (r: Fallible<string>)
    ensures SameLineSpec(lines, "BG", "BG: ", CorrectBloodGroup, r)
    ensures r.Ok? ==> r.value != "0"
  {
    SameLineField(lines, "BG", "BG: ", CorrectBloodGroup)
  }

  /** `get_age`: the second `": "` piece of the first line that contains `"Age"`. */
  function GetAge(lines: seq<string>): (r: Fallible<string>)
    ensures SameLineSpec(lines, "Age", ": ", Unchanged, r)
  {
    SameLineField(lines, "Age", ": ", Unchanged)
  }

  // ---------------------------------------------------------------------------
  // Document type
  // ---------------------------------------------------------------------------

  /** `get_doc_type`: a driving licence exactly when the text of the first box contains `"Transport"`. */
  function GetDocType(boxes: seq<Box>, ocr: Box -> string): (r: Fallible<DocType>)
    ensures r.Err? <==> boxes == []
    ensures r.Err? ==> r.error == IndexOutOfRange(0)
    ensures r.Ok? ==> (r.value == DrivingLicence <==> exists p: nat :: OccursAt(ocr(boxes[0]), "Transport", p))
  {
    if boxes == [] then Err(IndexOutOfRange(0))
    else
      var text := ocr(boxes[0]);
      if Contains(text, "Transport") then
        Ok(DrivingLicence)
      else
        Ok(VoterId)
  }

  // ---------------------------------------------------------------------------
  // Gender
  // ---------------------------------------------------------------------------

  /** The gender read from a single-glyph OCR string; `'M'` is tested before `'F'`. The label keeps the source's spelling. */
  function ClassifyGender(text: string): (g: string)
    ensures g == "Male" <==> 'M' in text
    ensures g == "Female" <==> 'M' !in text && 'F' in text
    ensures g == "Not Recongized" <==> 'M' !in text && 'F' !in text
  {
    ContainsChar(text, 'M');
    ContainsChar(text, 'F');
    if Contains(text, "M") then "Male"
    else if Contains(text, "F") then "Female"
    else "Not Recongized"
  }

  /** The box that `get_gender` crops: the one at the index after the first element equal to `"Sex"`. */
  function GenderBox(lines: seq<string>, boxes: seq<Box>): (r: Fallible<Box>)
    ensures r.Ok? || r == Err(NotInList("Sex")) || exists i :: IsFirstEqual(lines, "Sex", i) && r == Err(IndexOutOfRange(i + 1))
    ensures r == Err(NotInList("Sex")) <==> "Sex" !in lines
    ensures r.Err? && r.error.IndexOutOfRange? ==> r.error.index >= |boxes|
    ensures r.Ok? <==> exists i :: IsFirstEqual(lines, "Sex", i) && i + 1 < |boxes|
    ensures r.Ok? ==> exists i :: IsFirstEqual(lines, "Sex", i) && i + 1 < |boxes| && r.value == boxes[i + 1]
  {
    match IndexOf(lines, "Sex")
    case None => Err(NotInList("Sex"))
    case Some(i) => if i + 1 < |boxes| then Ok(boxes[i + 1]) else Err(IndexOutOfRange(i + 1))
  }

  /** `get_gender`: the re-read text of the box after `"Sex"`, classified. */
  function GetGender(lines: seq<string>, boxes: seq<Box>, ocr: Box -> string): (r: Fallible<string>)
    ensures r.Err? <==> GenderBox(lines, boxes).Err?
    ensures r.Err? ==> r.error == GenderBox(lines, boxes).error
    ensures r.Ok? ==> r.value in {"Male", "Female", "Not Recongized"}
    ensures r.Ok? ==> exists i :: IsFirstEqual(lines, "Sex", i) && i + 1 < |boxes|
                       && r.value == ClassifyGender(ocr(boxes[i + 1]))
  {
    match GenderBox(lines, boxes)
    case Err(e) => Err(e)
    case Ok(b) => Ok(ClassifyGender(ocr(b)))
  }

  // ---------------------------------------------------------------------------
  // Address
  // ---------------------------------------------------------------------------

  /** `lines.index([x for x in lines if anchor in x][0])`. */
  function AnchorIndex(lines: seq<string>, anchor: string): (r: Fallible<nat>)
    ensures r.Ok? || r == Err(NoLineContains(anchor))
    ensures r.Ok? ==> IsFirstContaining(lines, anchor, r.value)
    ensures r.Err? <==> forall j :: 0 <= j < |lines| ==> !Contains(lines[j], anchor)
  {
    match FirstLineContaining(lines, anchor)
    case None => Err(NoLineContains(anchor))
    case Some(block) =>
      RelookupFindsFirst(lines, anchor, block);
      match IndexOf(lines, block)
      case None => Err(NotInList(block))
      case Some(i) => Ok(i)
  }

  /** Looking the matched line up again by value finds its own index, so the `.index` call never fails. */
  lemma RelookupFindsFirst(lines: seq<string>, anchor: string, block: string)
    requires FirstLineContaining(lines, anchor) == Some(block)
    ensures IndexOf(lines, block).Some? && IsFirstContaining(lines, anchor, IndexOf(lines, block).value)
  {
    var i :| IsFirstContaining(lines, anchor, i) && block == lines[i];
    IndexOfFirstContaining(lines, anchor, i);
  }

  /**
   * The crop of `get_address`: from the left and bottom edge of the box of the
   * first `"BG"` line to the right and top edge of the box of the first
   * `"Date of Issue"` line.
   */
  function AddressBox(lines: seq<string>, boxes: seq<Box>): (r: Fallible<Box>)
    ensures r.Ok? <==>
      && (exists i :: IsFirstContaining(lines, "BG", i) && i < |boxes|)
      && (exists j :: IsFirstContaining(lines, "Date of Issue", j) && j < |boxes|)
    ensures r.Ok? ==> exists i, j ::
      && IsFirstContaining(lines, "BG", i) && IsFirstContaining(lines, "Date of Issue", j)
      && i < |boxes| && j < |boxes|
      && r.value == Box(boxes[i].xMin, boxes[i].yMax, boxes[j].xMax, boxes[j].yMin)
    ensures r.Ok? || r == Err(NoLineContains("BG")) || r == Err(NoLineContains("Date of Issue"))
            || (r.Err? && r.error.IndexOutOfRange? && r.error.index >= |boxes|)
    ensures r == Err(NoLineContains("BG")) <==> forall k :: 0 <= k < |lines| ==> !Contains(lines[k], "BG")
  {
    match AnchorIndex(lines, "BG")
    case Err(e) => Err(e)
    case Ok(bgIdx) =>
      match AnchorIndex(lines, "Date of Issue")
      case Err(e) =>
        assert Contains(lines[bgIdx], "BG");
        Err(e)
      case Ok(doiIdx) =>
        AddressCrop(boxes, bgIdx, doiIdx)
  }

  /** Once a `"BG"` line exists, `get_address` fails on the `"Date of Issue"` lookup exactly when no line has that anchor. */
  lemma AddressBoxNoIssueLine(lines: seq<string>, boxes: seq<Box>)
    ensures AddressBox(lines, boxes) == Err(NoLineContains("Date of Issue")) <==>
      && (exists k :: 0 <= k < |lines| && Contains(lines[k], "BG"))
      && (forall k :: 0 <= k < |lines| ==> !Contains(lines[k], "Date of Issue"))
  {
    var bg := AnchorIndex(lines, "BG");
    if bg.Ok? {
      assert Contains(lines[bg.value], "BG");
    } else {
      assert "BG" != "Date of Issue" by { assert |"BG"| != |"Date of Issue"|; }
    }
  }

  /** With both anchors present, `get_address` raises `IndexError` for `bg_idx` first, then for `doi_idx`. */
  lemma AddressBoxIndexErrors(lines: seq<string>, boxes: seq<Box>, i: int, j: int)
    requires IsFirstContaining(lines, "BG", i) && IsFirstContaining(lines, "Date of Issue", j)
    ensures i >= |boxes| ==> AddressBox(lines, boxes) == Err(IndexOutOfRange(i))
    ensures i < |boxes| <= j ==> AddressBox(lines, boxes) == Err(IndexOutOfRange(j))
  {
    var bg, doi := AnchorIndex(lines, "BG"), AnchorIndex(lines, "Date of Issue");
    FirstContainingUnique(lines, "BG", i, bg.value);
    FirstContainingUnique(lines, "Date of Issue", j, doi.value);
  }

  /** `[xmin, ymin, xmax, ymax]` of `get_address` from the two anchor indices; `boxes[bgIdx]` is indexed first. */
  function AddressCrop(boxes: seq<Box>, bgIdx: nat, doiIdx: nat): (r: Fallible<Box>)
    ensures r.Ok? <==> bgIdx < |boxes| && doiIdx < |boxes|
    ensures bgIdx >= |boxes| ==> r == Err(IndexOutOfRange(bgIdx))
    ensures bgIdx < |boxes| <= doiIdx ==> r == Err(IndexOutOfRange(doiIdx))
    ensures r.Ok? ==> r.value.xMin == boxes[bgIdx].xMin && r.value.yMin == boxes[bgIdx].yMax
    ensures r.Ok? ==> r.value.xMax == boxes[doiIdx].xMax && r.value.yMax == boxes[doiIdx].yMin
  {
    if bgIdx >= |boxes| then Err(IndexOutOfRange(bgIdx))
    else if doiIdx >= |boxes| then Err(IndexOutOfRange(doiIdx))
    else
      var bg, doi := boxes[bgIdx], boxes[doiIdx];
      Ok(Box(bg.xMin, bg.yMax, doi.xMax, doi.yMin))
  }

  /** `get_address`: the text read from the address crop, with every newline replaced by a space. */
  function GetAddress(lines: seq<string>, boxes: seq<Box>, ocr: Box -> string): (r: Fallible<string>)
    ensures r.Err? <==> AddressBox(lines, boxes).Err?
    ensures r.Err? ==> r.error == AddressBox(lines, boxes).error
    ensures r.Ok? ==> '\n' !in r.value
    ensures r.Ok? ==> |r.value| == |ocr(AddressBox(lines, boxes).value)|
    ensures r.Ok? ==> forall k :: 0 <= k < |r.value| && ocr(AddressBox(lines, boxes).value)[k] != '\n' ==>
                        r.value[k] == ocr(AddressBox(lines, boxes).value)[k]
    ensures r.Ok? ==> forall k :: 0 <= k < |r.value| && ocr(AddressBox(lines, boxes).value)[k] == '\n' ==>
                        r.value[k] == ' '
  {
    match AddressBox(lines, boxes)
    case Err(e) => Err(e)
    case Ok(b) => Ok(ReplaceNewlines(ocr(b)))
  }
}
