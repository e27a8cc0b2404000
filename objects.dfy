/** The object-detection stage (performYOLOObjectClassification,
    saveYOLOObjectScreenshot and the YOLOClassificationResult record).

    For every observation that has a label, a record is appended that
    carries the current objectCount as its number and Object<objectCount>.png
    as its image file; then the unclamped pixel rectangle of the box is
    cropped, and only a crop that succeeds is saved and advances objectCount.
    After a failed crop the next record therefore reuses the same number.
    The manifest is written after the loop, when there is at least one
    record. */
module Objects {
  import opened Wrappers
  import opened Geometry
  import opened Artifacts
  import opened Cropping

  /** A label of a recognized object (VNClassificationObservation). */
  datatype ObjectLabel = ObjectLabel(identifier: string, confidence: real)

  /** A recognized object (VNRecognizedObjectObservation): its labels, best
      first, and its normalized box. */
  datatype ObjectObservation = ObjectObservation(labels: seq<ObjectLabel>, boundingBox: NormBox)

  /** The record of a labelled observation under a given object number: the
      top label and its confidence as a percentage, the box as origin and
      standardized size, and the file name the crop is saved under when it
      succeeds. */
  function RecordOf(o: ObjectObservation, number: nat): (r: DetectionRecord)
    requires |o.labels| > 0
    ensures r.objectNumber == number && r.imageFileName == ObjectName(number)
    ensures r.className == o.labels[0].identifier
    ensures r.confidence == o.labels[0].confidence * 100.0
    ensures r.boundingBox == [o.boundingBox.x, o.boundingBox.y, Abs(o.boundingBox.width), Abs(o.boundingBox.height)]
    ensures |r.boundingBox| == 4 && r.boundingBox[2] >= 0.0 && r.boundingBox[3] >= 0.0
  {
    var top := o.labels[0];
    var b := o.boundingBox;
    DetectionRecord(number, top.identifier, top.confidence * 100.0,
                    [b.x, b.y, Abs(b.width), Abs(b.height)], ObjectName(number))
  }

  /** The box a record carries flips to the rectangle its observation asks
      to crop. */
  lemma RecordBoxIsCropRect(o: ObjectObservation, number: nat, width: nat, height: nat)
    requires |o.labels| > 0
    ensures var bb := RecordOf(o, number).boundingBox;
            PixelRect(NormBox(bb[0], bb[1], bb[2], bb[3]), width, height) == ObjectCropRect(o.boundingBox, width, height)
  {
  }

  /** The observations that have a label, in the order Vision returns them. */
  function Labeled(obs: seq<ObjectObservation>): (ls: seq<ObjectObservation>)
    ensures |ls| <= |obs|
    ensures forall j :: 0 <= j < |ls| ==> |ls[j].labels| > 0
  {
    if |obs| == 0 then []
    else
      var prev := Labeled(obs[..|obs| - 1]);
      var last := obs[|obs| - 1];
      if |last.labels| > 0 then prev + [last] else prev
  }

  /** The rectangle each labelled observation asks to crop. */
  function ObjectCandidates(ls: seq<ObjectObservation>, width: nat, height: nat): (cs: seq<Option<Rect>>)
    ensures |cs| == |ls|
    ensures forall i :: 0 <= i < |cs| ==> cs[i].Some?
  {
    seq(|ls|, i requires 0 <= i < |ls| => Some(ObjectCropRect(ls[i].boundingBox, width, height)))
  }

  /** The handler's local state: detectionResults, the crops saved, objectCount. */
  datatype YoloState = YoloState(records: seq<DetectionRecord>, crops: seq<Artifact>, objectCount: nat)

  /** One turn of the handler's loop: a labelled observation adds its record
      under the current number, then its crop when the crop succeeds, which
      advances the number; an observation without a label changes nothing. */
  function YoloStep(st: YoloState, o: ObjectObservation, width: nat, height: nat, canCrop: Rect -> bool): YoloState
  {
    if |o.labels| == 0 then st
    else
      var records := st.records + [RecordOf(o, st.objectCount)];
      var rect := ObjectCropRect(o.boundingBox, width, height);
      if canCrop(rect)
      then YoloState(records, st.crops + [CroppedImage(ObjectName(st.objectCount), rect)], st.objectCount + 1)
      else YoloState(records, st.crops, st.objectCount)
  }

  /** A turn only appends: one record exactly for a labelled observation,
      one crop exactly when its crop also succeeds, and objectCount moves
      with the crops. */
  lemma YoloStepExtends(st: YoloState, o: ObjectObservation, width: nat, height: nat, canCrop: Rect -> bool)
    ensures var next := YoloStep(st, o, width, height, canCrop);
            && |next.records| == |st.records| + (if |o.labels| > 0 then 1 else 0)
            && |next.crops| == |st.crops| + (if |o.labels| > 0 && canCrop(ObjectCropRect(o.boundingBox, width, height)) then 1 else 0)
            && next.records[..|st.records|] == st.records && next.crops[..|st.crops|] == st.crops
            && next.objectCount - st.objectCount == |next.crops| - |st.crops|
  {
  }

  /** The handler's state after a run of observations, step by step. */
  function YoloFold(obs: seq<ObjectObservation>, width: nat, height: nat, canCrop: Rect -> bool): (st: YoloState)
    ensures |st.records| == |Labeled(obs)|
    ensures st.objectCount == |st.crops|
    ensures forall k :: 0 <= k < |st.crops| ==> st.crops[k].CroppedImage? && st.crops[k].fileName == ObjectName(k)
  {
    if |obs| == 0 then YoloState([], [], 0)
    else YoloStep(YoloFold(obs[..|obs| - 1], width, height, canCrop), obs[|obs| - 1], width, height, canCrop)
  }

  /** The files the stage writes: the crops, then the manifest if any record. */
  function YoloArtifacts(obs: seq<ObjectObservation>, width: nat, height: nat, canCrop: Rect -> bool): seq<Artifact>
  {
    var st := YoloFold(obs, width, height, canCrop);
    st.crops + (if |st.records| > 0 then [Manifest(YoloFileName, st.records)] else [])
  }

  /** saveYOLOObjectScreenshot: write Object<objectCount>.png and advance the
      counter that the caller passes inout. */
  method SaveYoloObjectScreenshot(rect: Rect, objectCount: nat) returns (saved: Artifact, newCount: nat)
    ensures saved == CroppedImage(ObjectName(objectCount), rect)
    ensures newCount == objectCount + 1
  {
    saved := CroppedImage(ObjectName(objectCount), rect);
    newCount := objectCount + 1;
  }

  /** The object-detection completion handler. */
  method PerformYoloObjectClassification(obs: seq<ObjectObservation>, width: nat, height: nat,
                                         canCrop: Rect -> bool)
    returns (written: seq<Artifact>)
    ensures written == YoloArtifacts(obs, width, height, canCrop)
  {
    var detectionResults: seq<DetectionRecord> := [];
    var crops: seq<Artifact> := [];
    var objectCount: nat := 0;
    for i := 0 to |obs|
      invariant YoloState(detectionResults, crops, objectCount) == YoloFold(obs[..i], width, height, canCrop)
    {
      ghost var before := YoloState(detectionResults, crops, objectCount);
      assert obs[..i + 1][..i] == obs[..i];
      var observation := obs[i];
      if |observation.labels| > 0 {
        var result := RecordOf(observation, objectCount);
        detectionResults := detectionResults + [result];
        var rect := ObjectCropRect(observation.boundingBox, width, height);
        if canCrop(rect) {
          var saved;
          saved, objectCount := SaveYoloObjectScreenshot(rect, objectCount);
          crops := crops + [saved];
        }
      }
      assert YoloState(detectionResults, crops, objectCount) == YoloStep(before, observation, width, height, canCrop);
    }
    assert obs[..|obs|] == obs;
    written := crops;
    if |detectionResults| > 0 {
      written := written + [Manifest(YoloFileName, detectionResults)];
    }
  }

  lemma ObjectCandidatesSnoc(ls: seq<ObjectObservation>, o: ObjectObservation, width: nat, height: nat)
    ensures ObjectCandidates(ls + [o], width, height)
            == ObjectCandidates(ls, width, height) + [Some(ObjectCropRect(o.boundingBox, width, height))]
  {
  }

  lemma ObjectCandidatesSucceed(ls: seq<ObjectObservation>, width: nat, height: nat, canCrop: Rect -> bool)
    requires forall j :: 0 <= j < |ls| ==> canCrop(ObjectCropRect(ls[j].boundingBox, width, height))
    ensures var cs := ObjectCandidates(ls, width, height);
            forall i :: 0 <= i < |cs| ==> cs[i].Some? && canCrop(cs[i].value)
  {
  }

  /** The crops in closed form: with cs the crop rectangles of the labelled
      observations, the crops saved are those taken from cs, the k-th saved
      as Object<k>.png, and objectCount is their number. */
  lemma {:induction false} YoloCropsSpec(obs: seq<ObjectObservation>, width: nat, height: nat, canCrop: Rect -> bool)
    ensures var st := YoloFold(obs, width, height, canCrop);
            var taken := CropsTaken(ObjectCandidates(Labeled(obs), width, height), canCrop);
            && |st.crops| == |taken| == st.objectCount
            && (forall k :: 0 <= k < |st.crops| ==> st.crops[k] == CroppedImage(ObjectName(k), taken[k]))
  {
    if |obs| > 0 {
      var init, o := obs[..|obs| - 1], obs[|obs| - 1];
      YoloCropsSpec(init, width, height, canCrop);
      if |o.labels| > 0 {
        var ls0 := Labeled(init);
        var rect := ObjectCropRect(o.boundingBox, width, height);
        ObjectCandidatesSnoc(ls0, o, width, height);
        CropsTakenAppend(ObjectCandidates(ls0, width, height), [Some(rect)], canCrop);
        CropsTakenSingle(Some(rect), canCrop);
      }
    }
  }

  /** The records in closed form: one per labelled observation, in order,
      the j-th numbered by the count of successful crops among the labelled
      observations before it. */
  lemma {:induction false} YoloRecordsSpec(obs: seq<ObjectObservation>, width: nat, height: nat, canCrop: Rect -> bool)
    ensures var st, ls := YoloFold(obs, width, height, canCrop), Labeled(obs);
            var cs := ObjectCandidates(ls, width, height);
            && |st.records| == |ls|
            && (forall j :: 0 <= j < |ls| ==>
                  st.records[j] == RecordOf(ls[j], |CropsTaken(cs[..j], canCrop)|))
  {
    if |obs| > 0 {
      var init, o := obs[..|obs| - 1], obs[|obs| - 1];
      YoloRecordsSpec(init, width, height, canCrop);
      if |o.labels| > 0 {
        YoloCropsSpec(init, width, height, canCrop);
        var ls0 := Labeled(init);
        var cs0 := ObjectCandidates(ls0, width, height);
        var cs := ObjectCandidates(ls0 + [o], width, height);
        ObjectCandidatesSnoc(ls0, o, width, height);
        assert Labeled(obs) == ls0 + [o];
        assert cs[..|ls0|] == cs0;
        forall j | 0 <= j < |ls0|
          ensures cs[..j] == cs0[..j]
        {
          assert cs0[..j] == cs[..|ls0|][..j];
        }
        var st0 := YoloFold(init, width, height, canCrop);
        assert YoloFold(obs, width, height, canCrop).records == st0.records + [RecordOf(o, st0.objectCount)];
      }
    }
  }

  /** Numbering of the records: the first is 0, and each next record's number
      is the previous one plus one when the previous labelled observation's
      crop succeeded, and the same number when it failed. */
  lemma YoloNumberingStep(obs: seq<ObjectObservation>, width: nat, height: nat, canCrop: Rect -> bool)
    ensures var rs, ls := YoloFold(obs, width, height, canCrop).records, Labeled(obs);
            && (|rs| > 0 ==> rs[0].objectNumber == 0)
            && forall j :: 0 <= j < |rs| - 1 ==>
                 rs[j + 1].objectNumber
                 == rs[j].objectNumber + (if canCrop(ObjectCropRect(ls[j].boundingBox, width, height)) then 1 else 0)
  {
    YoloRecordsSpec(obs, width, height, canCrop);
    var ls := Labeled(obs);
    var cs := ObjectCandidates(ls, width, height);
    assert cs[..0] == [];
    forall j | 0 <= j < |ls| - 1
      ensures |CropsTaken(cs[..j + 1], canCrop)|
              == |CropsTaken(cs[..j], canCrop)| + (if canCrop(ObjectCropRect(ls[j].boundingBox, width, height)) then 1 else 0)
    {
      CropsTakenStep(cs, j, canCrop);
    }
  }

  /** Record numbers never decrease, and none exceeds the final objectCount. */
  lemma YoloNumbersMonotone(obs: seq<ObjectObservation>, width: nat, height: nat, canCrop: Rect -> bool)
    ensures var st := YoloFold(obs, width, height, canCrop);
            && (forall i, j :: 0 <= i <= j < |st.records| ==> st.records[i].objectNumber <= st.records[j].objectNumber)
            && (forall j :: 0 <= j < |st.records| ==> st.records[j].objectNumber <= st.objectCount)
  {
    YoloRecordsSpec(obs, width, height, canCrop);
    YoloCropsSpec(obs, width, height, canCrop);
    var cs := ObjectCandidates(Labeled(obs), width, height);
    forall i, j | 0 <= i <= j <= |cs|
      ensures |CropsTaken(cs[..i], canCrop)| <= |CropsTaken(cs[..j], canCrop)|
    {
      CropsTakenMonotone(cs, i, j, canCrop);
    }
    assert cs[..|cs|] == cs;
  }

  /** A record whose crop succeeded names the file that holds that crop:
      Object<objectNumber>.png is the crop of its observation's rectangle. */
  lemma YoloSavedCropNamed(obs: seq<ObjectObservation>, width: nat, height: nat, canCrop: Rect -> bool, j: nat)
    requires j < |Labeled(obs)|
    requires canCrop(ObjectCropRect(Labeled(obs)[j].boundingBox, width, height))
    ensures var st := YoloFold(obs, width, height, canCrop);
            && st.records[j].objectNumber < |st.crops|
            && st.crops[st.records[j].objectNumber]
               == CroppedImage(st.records[j].imageFileName, ObjectCropRect(Labeled(obs)[j].boundingBox, width, height))
  {
    YoloRecordsSpec(obs, width, height, canCrop);
    YoloCropsSpec(obs, width, height, canCrop);
    CropsTakenAt(ObjectCandidates(Labeled(obs), width, height), j, canCrop);
  }

  /** As written, a record whose crop failed names a file that is never
      written for it: the next record carries the same number and file name,
      so Object<n>.png holds the crop of the later observation. */
  lemma YoloFailedCropSharesFileName(obs: seq<ObjectObservation>, width: nat, height: nat, canCrop: Rect -> bool, j: nat)
    requires j + 1 < |Labeled(obs)|
    requires !canCrop(ObjectCropRect(Labeled(obs)[j].boundingBox, width, height))
    ensures var rs := YoloFold(obs, width, height, canCrop).records;
            && rs[j + 1].objectNumber == rs[j].objectNumber
            && rs[j + 1].imageFileName == rs[j].imageFileName
  {
    YoloRecordsSpec(obs, width, height, canCrop);
    YoloNumberingStep(obs, width, height, canCrop);
  }

  /** When every crop succeeds, the numbers are the positions of the records
      among the labelled observations and there is one crop per record. */
  lemma YoloAllCropsSucceed(obs: seq<ObjectObservation>, width: nat, height: nat, canCrop: Rect -> bool)
    requires var ls := Labeled(obs);
             forall j :: 0 <= j < |ls| ==> canCrop(ObjectCropRect(ls[j].boundingBox, width, height))
    ensures var st := YoloFold(obs, width, height, canCrop);
            && |st.crops| == |st.records|
            && forall j :: 0 <= j < |st.records| ==> st.records[j].objectNumber == j
  {
    YoloRecordsSpec(obs, width, height, canCrop);
    YoloCropsSpec(obs, width, height, canCrop);
    var ls := Labeled(obs);
    var cs := ObjectCandidates(ls, width, height);
    ObjectCandidatesSucceed(ls, width, height, canCrop);
    CropsTakenCountAllSucceed(cs, canCrop);
    assert cs[..|cs|] == cs;
  }

  /** Filtering two runs of observations is filtering each: the kept
      observations stay in the order Vision returns them. */
  lemma {:induction false} LabeledAppend(a: seq<ObjectObservation>, b: seq<ObjectObservation>)
    ensures Labeled(a + b) == Labeled(a) + Labeled(b)
    decreases |b|
  {
    if |b| == 0 {
      assert a + b == a;
    } else {
      var ab, init := a + b, b[..|b| - 1];
      assert ab[..|ab| - 1] == a + init && ab[|ab| - 1] == b[|b| - 1];
      LabeledAppend(a, init);
    }
  }

  /** One observation is kept, once, exactly when it has a label. */
  lemma LabeledSingle(o: ObjectObservation)
    ensures Labeled([o]) == if |o.labels| > 0 then [o] else []
  {
    assert [o][..0] == [];
  }

  /** Every labelled observation is one of the observations, and every
      observation with a label is among them. */
  lemma {:induction false} LabeledMembers(obs: seq<ObjectObservation>)
    ensures forall o :: o in Labeled(obs) <==> o in obs && o.labels != []
  {
    if |obs| > 0 {
      LabeledMembers(obs[..|obs| - 1]);
      assert obs == obs[..|obs| - 1] + [obs[|obs| - 1]];
    }
  }

  /** No observation is labelled exactly when no observation has a label. */
  lemma {:induction false} LabeledEmpty(obs: seq<ObjectObservation>)
    ensures Labeled(obs) == [] <==> forall i :: 0 <= i < |obs| ==> obs[i].labels == []
  {
    if |obs| > 0 {
      var init := obs[..|obs| - 1];
      LabeledEmpty(init);
      assert forall i :: 0 <= i < |init| ==> init[i] == obs[i];
    }
  }

  /** The stage writes its crops and then the manifest of all records, and it
      writes the manifest exactly when some observation has a label. */
  lemma YoloManifestWritten(obs: seq<ObjectObservation>, width: nat, height: nat, canCrop: Rect -> bool)
    ensures var st := YoloFold(obs, width, height, canCrop);
            YoloArtifacts(obs, width, height, canCrop)
            == if exists i :: 0 <= i < |obs| && obs[i].labels != []
               then st.crops + [Manifest(YoloFileName, st.records)]
               else st.crops
  {
    YoloRecordsSpec(obs, width, height, canCrop);
    LabeledEmpty(obs);
  }

  /** The crops are saved under pairwise different names. */
  lemma YoloCropNamesDistinct(obs: seq<ObjectObservation>, width: nat, height: nat, canCrop: Rect -> bool)
    ensures var cr := YoloFold(obs, width, height, canCrop).crops;
            forall i, j :: 0 <= i < j < |cr| ==> cr[i].fileName != cr[j].fileName
  {
    var cr := YoloFold(obs, width, height, canCrop).crops;
    forall i, j | 0 <= i < j < |cr|
      ensures cr[i].fileName != cr[j].fileName
    {
      if cr[i].fileName == cr[j].fileName {
        ObjectNameInjective(i, j);
      }
    }
  }
}
