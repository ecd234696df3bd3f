/** Worked examples of the field heuristics on concrete OCR output. */
module Scenarios {
  import opened Wrappers
  import opened PyStr
  import opened CtpnBoxes
  import opened Framework

  /** A name made of capitals and spaces, starting with a capital, is left as it is by `strip_special_chars`. */
  lemma CleanName(s: string)
    requires s != [] && 'A' <= s[0] <= 'Z'
    requires forall i :: 0 <= i < |s| ==> ('A' <= s[i] <= 'Z' || s[i] == ' ')
    ensures StripSpecialChars(s) == s
  {
    KeepAllKept(s);
  }

  const LicenceLines: seq<string> := ["GOVERNMENT", "Name", "JOHN DOE", "S/W/D", "RICHARD DOE"]

  /** On a licence the name is the line right after `"Name"`. */
  lemma LicenceName()
    ensures GetName(DrivingLicence, LicenceLines) == Ok("JOHN DOE")
  {
    assert IndexOf(LicenceLines, "Name") == Some(1);
    CleanName("JOHN DOE");
  }

  /** On a licence the father's or husband's name is the line right after `"S/W/D"`. */
  lemma LicenceFatherName()
    ensures GetFatherName(DrivingLicence, LicenceLines) == Ok("RICHARD DOE")
  {
    assert IndexOf(LicenceLines, "S/W/D") == Some(3);
    CleanName("RICHARD DOE");
  }

  /** Without an element equal to `"Name"` a licence has no name. */
  lemma LicenceWithoutNameAnchor()
    ensures GetName(DrivingLicence, ["GOVERNMENT", "Names", "JOHN DOE"]) == Err(NotInList("Name"))
  {
  }

  const VoterLine: string := "Elector's Name: JANE SMITH"

  /** On a Voter ID the name follows `": "` on the `"Elector's Name"` line. */
  lemma VoterName()
    ensures GetName(VoterId, [VoterLine]) == Ok("JANE SMITH")
  {
    assert OccursAt(VoterLine, "Elector's Name", 0);
    assert OccursAt(VoterLine, ": ", 14);
    SecondPieceOfSingle(VoterLine, ": ", 14);
    assert VoterLine[16..] == "JANE SMITH";
    VoterNameClean();
  }

  lemma VoterNameClean()
    ensures StripSpecialChars("JANE SMITH") == "JANE SMITH"
  {
    CleanName("JANE SMITH");
  }

  /** The blood group `0` is corrected to `O`. */
  lemma BloodGroupZero()
    ensures GetBg(["BG: 0"]) == Ok("O")
  {
    var line := "BG: 0";
    assert OccursAt(line, "BG", 0);
    assert OccursAt(line, "BG: ", 0);
    SecondPieceOfSingle(line, "BG: ", 0);
  }

  /** A blood group that repeats the first letter of the separator is still everything after `"BG: "`. */
  lemma BloodGroupBPositive()
    ensures GetBg(["BG: B+"]) == Ok("B+")
  {
    var line := "BG: B+";
    assert OccursAt(line, "BG", 0);
    assert OccursAt(line, "BG: ", 0);
    forall j: nat | j != 0 ensures !OccursAt(line, "BG: ", j) {
      if j <= 2 {
        assert line[j] != "BG: "[0];
      }
    }
    SecondPieceOfOnly(line, "BG: ", 0);
  }

  /** The box after `"Sex"` is re-read; `"F"` gives Female and `"X"` is not recognised. */
  lemma GenderAfterSex(boxes: seq<Box>, ocr: Box -> string)
    requires |boxes| == 5
    ensures ocr(boxes[4]) == "F" ==> GetGender(["a", "b", "c", "Sex", "d"], boxes, ocr) == Ok("Female")
    ensures ocr(boxes[4]) == "X" ==> GetGender(["a", "b", "c", "Sex", "d"], boxes, ocr) == Ok("Not Recongized")
  {
  }
}
