/** What the program writes into the output directory, and the names it
    writes them under.  File contents that come from image encoders or from
    JSONEncoder are not modelled: a crop is named by the rectangle it was cut
    from, and the detection manifest by the records it serializes. */
module Artifacts {
  import opened Geometry

  /** One element of the object-detection manifest (YOLOClassificationResult). */
  datatype DetectionRecord = DetectionRecord(
    objectNumber: nat,
    className: string,
    confidence: real,
    boundingBox: seq<real>,
    imageFileName: string)

  /** One file the program writes. */
  datatype Artifact =
    | OriginalCopy(fileName: string)
    | TextFile(fileName: string, content: string)
    | CroppedImage(fileName: string, rect: Rect)
    | Manifest(fileName: string, records: seq<DetectionRecord>)

  const OcrFileName: string := "OCR_RecognizedText.txt"
  const ResnetFileName: string := "RESNET_ObjectClassificationResults.txt"
  const YoloFileName: string := "YOLO_ObjectClassificationResults.json"

  function DigitChar(d: nat): (c: char)
    requires d < 10
    ensures '0' <= c <= '9'
  {
    (48 + d) as char
  }

  /** Swift's string interpolation of a non-negative Int: its decimal digits,
      most significant first, without leading zeros. */
  function Decimal(n: nat): string
    decreases n
  {
    if n < 10 then [DigitChar(n)] else Decimal(n / 10) + [DigitChar(n % 10)]
  }

  /** The decimal form is a non-empty string of digits, one digit long
      exactly for the numbers below ten and without a leading zero. */
  lemma {:induction false} DecimalShape(n: nat)
    ensures |Decimal(n)| >= 1
    ensures n < 10 <==> |Decimal(n)| == 1
    ensures forall i :: 0 <= i < |Decimal(n)| ==> '0' <= Decimal(n)[i] <= '9'
    ensures n >= 10 ==> Decimal(n)[0] != '0'
    decreases n
  {
    if n >= 10 {
      DecimalShape(n / 10);
    }
  }

  /** Different numbers have different decimal forms. */
  lemma {:induction false} DecimalInjective(a: nat, b: nat)
    requires Decimal(a) == Decimal(b)
    ensures a == b
    decreases a
  {
    DecimalShape(a);
    DecimalShape(b);
    if a < 10 || b < 10 {
      assert |Decimal(a)| == 1 && |Decimal(b)| == 1;
      assert DigitChar(a) == Decimal(a)[0] == Decimal(b)[0] == DigitChar(b);
    } else {
      var s := Decimal(a);
      assert s == Decimal(a / 10) + [DigitChar(a % 10)];
      assert s == Decimal(b / 10) + [DigitChar(b % 10)];
      assert Decimal(a / 10) == s[..|s| - 1] == Decimal(b / 10);
      assert DigitChar(a % 10) == s[|s| - 1] == DigitChar(b % 10);
      DecimalInjective(a / 10, b / 10);
    }
  }

  /** The number a string of decimal digits denotes, most significant first. */
  function DigitsValue(s: string): nat
  {
    if |s| == 0 then 0
    else
      var d := s[|s| - 1] as int - '0' as int;
      DigitsValue(s[..|s| - 1]) * 10 + (if 0 <= d then d else 0)
  }

  /** Reading the decimal form back gives the number. */
  lemma {:induction false} DecimalValue(n: nat)
    ensures DigitsValue(Decimal(n)) == n
    decreases n
  {
    if n >= 10 {
      var s := Decimal(n);
      assert s[..|s| - 1] == Decimal(n / 10);
      DecimalValue(n / 10);
    }
  }

  /** The file name of the n-th face crop (saveCroppedFace). */
  function FaceName(n: nat): (name: string)
    ensures |name| >= 9 && name[..4] == "Face" && name[|name| - 4..] == ".png"
    ensures forall i :: 4 <= i < |name| - 4 ==> '0' <= name[i] <= '9'
  {
    DecimalShape(n);
    "Face" + Decimal(n) + ".png"
  }

  /** The file name of the n-th object crop (saveYOLOObjectScreenshot). */
  function ObjectName(n: nat): (name: string)
    ensures |name| >= 11 && name[..6] == "Object" && name[|name| - 4..] == ".png"
    ensures forall i :: 6 <= i < |name| - 4 ==> '0' <= name[i] <= '9'
  {
    DecimalShape(n);
    "Object" + Decimal(n) + ".png"
  }

  lemma FaceNameInjective(a: nat, b: nat)
    requires FaceName(a) == FaceName(b)
    ensures a == b
  {
    var s := FaceName(a);
    assert Decimal(a) == s[4..|s| - 4] == Decimal(b);
    DecimalInjective(a, b);
  }

  lemma ObjectNameInjective(a: nat, b: nat)
    requires ObjectName(a) == ObjectName(b)
    ensures a == b
  {
    var s := ObjectName(a);
    assert Decimal(a) == s[6..|s| - 4] == Decimal(b);
    DecimalInjective(a, b);
  }
}
