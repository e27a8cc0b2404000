/** The two text reports: recognized text (performOCR) and the whole-image
    classification list (performRESNETObjectClassification).  Each handler
    grows a string over the observations in the order Vision returns them
    and writes it only when it is not empty. */
module TextReports {
  import opened Artifacts

  /** A recognized text region: its candidate strings, best first
      (VNRecognizedTextObservation.topCandidates). */
  datatype TextObservation = TextObservation(candidates: seq<string>)

  /** A whole-image label (VNClassificationObservation); confidence in [0,1]. */
  datatype Classification = Classification(identifier: string, confidence: real)

  /** What one region adds to the recognized text: its top candidate and a
      newline, or nothing when it has no candidate. */
  function OcrLine(o: TextObservation): string
  {
    if |o.candidates| > 0 then o.candidates[0] + "\n" else ""
  }

  /** No region has a candidate. */
  predicate NothingRecognized(obs: seq<TextObservation>)
  {
    forall i :: 0 <= i < |obs| ==> obs[i].candidates == []
  }

  /** The recognized text of a list of regions, built left to right; it is
      made of whole lines. */
  function OcrText(obs: seq<TextObservation>): (text: string)
    ensures |text| == 0 <==> NothingRecognized(obs)
    ensures |text| > 0 ==> text[|text| - 1] == '\n'
  {
    if |obs| == 0 then "" else OcrText(obs[..|obs| - 1]) + OcrLine(obs[|obs| - 1])
  }

  /** The report line of one label; the number-to-text conversion of the
      percentage is the parameter `format`. */
  function ResnetLine(c: Classification, format: real -> string): string
  {
    "Class: " + c.identifier + ", Confidence: " + format(c.confidence * 100.0) + "%\n"
  }

  /** The classification report: one line per label, in order; every line
      holds at least its 23 fixed characters. */
  function ResnetText(cls: seq<Classification>, format: real -> string): (report: string)
    ensures |report| >= 23 * |cls|
    ensures |report| > 0 ==> report[|report| - 1] == '\n'
  {
    if |cls| == 0 then "" else ResnetText(cls[..|cls| - 1], format) + ResnetLine(cls[|cls| - 1], format)
  }

  /** A report is written only when its text is not empty. */
  function ReportFile(fileName: string, text: string): seq<Artifact>
  {
    if text == "" then [] else [TextFile(fileName, text)]
  }

  /** The files the OCR stage writes. */
  function OcrArtifacts(obs: seq<TextObservation>): seq<Artifact>
  {
    ReportFile(OcrFileName, OcrText(obs))
  }

  /** The files the whole-image classification stage writes. */
  function ResnetArtifacts(cls: seq<Classification>, format: real -> string): seq<Artifact>
  {
    ReportFile(ResnetFileName, ResnetText(cls, format))
  }

  /** The OCR completion handler: one pass over the regions, then the write. */
  method PerformOcr(obs: seq<TextObservation>) returns (written: seq<Artifact>)
    ensures written == OcrArtifacts(obs)
    ensures |written| <= 1
    ensures written != [] ==> written[0].TextFile? && written[0].fileName == OcrFileName
  {
    var recognizedText := "";
    for i := 0 to |obs|
      invariant recognizedText == OcrText(obs[..i])
    {
      assert obs[..i + 1][..i] == obs[..i];
      var observation := obs[i];
      if |observation.candidates| > 0 {
        var topCandidate := observation.candidates[0];
        recognizedText := recognizedText + topCandidate + "\n";
      }
    }
    assert obs[..|obs|] == obs;
    written := [];
    if recognizedText != "" {
      written := [TextFile(OcrFileName, recognizedText)];
    }
  }

  /** The classification completion handler. */
  method PerformResnetClassification(cls: seq<Classification>, format: real -> string)
    returns (written: seq<Artifact>)
    ensures written == ResnetArtifacts(cls, format)
    ensures |written| <= 1
    ensures written != [] ==> written[0].TextFile? && written[0].fileName == ResnetFileName
  {
    var classificationResults := "";
    for i := 0 to |cls|
      invariant classificationResults == ResnetText(cls[..i], format)
    {
      assert cls[..i + 1][..i] == cls[..i];
      var classification := cls[i];
      classificationResults := classificationResults + "Class: " + classification.identifier
        + ", Confidence: " + format(classification.confidence * 100.0) + "%\n";
    }
    assert cls[..|cls|] == cls;
    written := [];
    if classificationResults != "" {
      written := [TextFile(ResnetFileName, classificationResults)];
    }
  }

  /** The recognized text of two runs of regions is the concatenation of
      theirs: the handler's `+=` is a fold of OcrLine. */
  lemma {:induction false} OcrTextAppend(a: seq<TextObservation>, b: seq<TextObservation>)
    ensures OcrText(a + b) == OcrText(a) + OcrText(b)
    decreases |b|
  {
    if |b| == 0 {
      assert a + b == a;
    } else {
      var init, last := b[..|b| - 1], b[|b| - 1];
      OcrTextAppend(a, init);
      SplitLast(a, b);
      OcrTextLast(a + b, a + init, last);
      OcrTextLast(b, init, last);
      ConcatAssoc(OcrText(a), OcrText(init), OcrLine(last));
    }
  }

  lemma SplitLast<T>(a: seq<T>, b: seq<T>)
    requires |b| > 0
    ensures b == b[..|b| - 1] + [b[|b| - 1]]
    ensures a + b == (a + b[..|b| - 1]) + [b[|b| - 1]]
  {
    assert b == b[..|b| - 1] + [b[|b| - 1]];
  }

  lemma ConcatAssoc(x: string, y: string, z: string)
    ensures (x + y) + z == x + (y + z)
  {
  }

  /** Unfolding one step of OcrText at a split the caller names. */
  lemma OcrTextLast(s: seq<TextObservation>, init: seq<TextObservation>, last: TextObservation)
    requires s == init + [last]
    ensures OcrText(s) == OcrText(init) + OcrLine(last)
  {
    assert s[..|s| - 1] == init;
  }

  /** The text of one region is its top candidate on a line of its own. */
  lemma OcrTextSingle(o: TextObservation)
    ensures OcrText([o]) == if o.candidates == [] then "" else o.candidates[0] + "\n"
  {
    assert [o][..0] == [];
  }

  /** The classification report is empty exactly when there is no label, so
      the file is written exactly when Vision returns a label. */
  lemma {:induction false} ResnetTextEmpty(cls: seq<Classification>, format: real -> string)
    ensures ResnetText(cls, format) == "" <==> cls == []
  {
    if cls != [] {
      var line := ResnetLine(cls[|cls| - 1], format);
      assert line[0] == 'C';
    }
  }

  /** The report of two runs of labels is the concatenation of theirs. */
  lemma {:induction false} ResnetTextAppend(a: seq<Classification>, b: seq<Classification>,
                                             format: real -> string)
    ensures ResnetText(a + b, format) == ResnetText(a, format) + ResnetText(b, format)
    decreases |b|
  {
    if |b| == 0 {
      assert a + b == a;
    } else {
      var init, last := b[..|b| - 1], b[|b| - 1];
      ResnetTextAppend(a, init, format);
      SplitLast(a, b);
      ResnetTextLast(a + b, a + init, last, format);
      ResnetTextLast(b, init, last, format);
      ConcatAssoc(ResnetText(a, format), ResnetText(init, format), ResnetLine(last, format));
    }
  }

  /** Unfolding one step of ResnetText at a split the caller names. */
  lemma ResnetTextLast(s: seq<Classification>, init: seq<Classification>, last: Classification,
                       format: real -> string)
    requires s == init + [last]
    ensures ResnetText(s, format) == ResnetText(init, format) + ResnetLine(last, format)
  {
    assert s[..|s| - 1] == init;
  }

  /** Every line of the classification report has the form
      "Class: <identifier>, Confidence: <percentage>%" and ends in a newline. */
  lemma ResnetTextSingle(c: Classification, format: real -> string)
    ensures ResnetText([c], format)
            == "Class: " + c.identifier + ", Confidence: " + format(c.confidence * 100.0) + "%\n"
  {
    assert [c][..0] == [];
  }
}
