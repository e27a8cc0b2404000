/** The face stage (performFaceDetection and saveCroppedFace).

    Each face box is flipped to pixels, enlarged by 25% about its centre and
    cut to the image; when the crop succeeds the crop is saved as
    Face<faceCount>.png and faceCount goes up by one.  Whether
    CGImage.cropping(to:) succeeds for a rectangle is the parameter
    `canCrop`; a null rectangle never yields a crop. */
module Faces {
  import opened Wrappers
  import opened Geometry
  import opened Artifacts
  import opened Cropping

  /** The rectangle each observation asks to crop (None: the null rectangle). */
  function FaceCandidates(boxes: seq<NormBox>, width: nat, height: nat): (cs: seq<Option<Rect>>)
    ensures |cs| == |boxes|
    ensures forall i :: 0 <= i < |cs| ==> cs[i] == FaceCropRect(boxes[i], width, height)
    ensures forall i :: 0 <= i < |cs| && cs[i].Some? ==> Contains(ImageRect(width, height), cs[i].value)
  {
    seq(|boxes|, i requires 0 <= i < |boxes| => FaceCropRect(boxes[i], width, height))
  }

  /** The face crops taken from a list of observations, in observation order. */
  function FaceCrops(boxes: seq<NormBox>, width: nat, height: nat, canCrop: Rect -> bool): (rs: seq<Rect>)
    ensures |rs| <= |boxes|
    ensures forall j :: 0 <= j < |rs| ==> Contains(ImageRect(width, height), rs[j]) && canCrop(rs[j])
  {
    CropsTaken(FaceCandidates(boxes, width, height), canCrop)
  }

  /** The files the face stage writes: Face<j>.png holding the j-th crop. */
  function FaceArtifacts(boxes: seq<NormBox>, width: nat, height: nat, canCrop: Rect -> bool): (arts: seq<Artifact>)
    ensures |arts| == |FaceCrops(boxes, width, height, canCrop)|
  {
    var rs := FaceCrops(boxes, width, height, canCrop);
    seq(|rs|, j requires 0 <= j < |rs| => CroppedImage(FaceName(j), rs[j]))
  }

  /** saveCroppedFace: write Face<count>.png and advance the counter that the
      caller passes inout. */
  method SaveCroppedFace(rect: Rect, count: nat) returns (saved: Artifact, newCount: nat)
    ensures saved == CroppedImage(FaceName(count), rect)
    ensures newCount == count + 1
  {
    saved := CroppedImage(FaceName(count), rect);
    newCount := count + 1;
  }

  /** The loop of the face detection handler over the crop rectangles of the
      observations: a crop that succeeds is saved under the current count,
      which then advances. */
  method SaveFaceCrops(candidates: seq<Option<Rect>>, canCrop: Rect -> bool)
    returns (written: seq<Artifact>)
    ensures |written| == |CropsTaken(candidates, canCrop)|
    ensures forall j :: 0 <= j < |written| ==>
              written[j] == CroppedImage(FaceName(j), CropsTaken(candidates, canCrop)[j])
    ensures forall i, j :: 0 <= i < j < |written| ==> written[i].fileName != written[j].fileName
  {
    written := [];
    var faceCount: nat := 0;
    for i := 0 to |candidates|
      invariant faceCount == |written| == |CropsTaken(candidates[..i], canCrop)|
      invariant forall j :: 0 <= j < |written| ==>
                  written[j] == CroppedImage(FaceName(j), CropsTaken(candidates[..i], canCrop)[j])
    {
      ghost var taken := CropsTaken(candidates[..i], canCrop);
      assert candidates[..i + 1] == candidates[..i] + [candidates[i]];
      CropsTakenAppend(candidates[..i], [candidates[i]], canCrop);
      CropsTakenSingle(candidates[i], canCrop);
      var safeExpandedRect := candidates[i];
      if safeExpandedRect.Some? && canCrop(safeExpandedRect.value) {
        var saved;
        saved, faceCount := SaveCroppedFace(safeExpandedRect.value, faceCount);
        written := written + [saved];
      }
    }
    assert candidates[..|candidates|] == candidates;
    forall i, j | 0 <= i < j < |written|
      ensures written[i].fileName != written[j].fileName
    {
      if written[i].fileName == written[j].fileName {
        FaceNameInjective(i, j);
      }
    }
  }

  /** The face detection handler: the files it writes, in order, are
      Face0.png .. Face(k-1).png for the k crops taken, each holding the crop
      of the corresponding successful observation, each under its own name. */
  method PerformFaceDetection(boxes: seq<NormBox>, width: nat, height: nat, canCrop: Rect -> bool)
    returns (written: seq<Artifact>)
    ensures forall i, j :: 0 <= i < j < |written| ==> written[i].fileName != written[j].fileName
    ensures written == FaceArtifacts(boxes, width, height, canCrop)
  {
    written := SaveFaceCrops(FaceCandidates(boxes, width, height), canCrop);
  }

  /** When every crop succeeds, Face<j>.png is the crop of the j-th face. */
  lemma FaceCropsAllSucceed(boxes: seq<NormBox>, width: nat, height: nat, canCrop: Rect -> bool)
    requires forall i :: 0 <= i < |boxes| ==>
               FaceCropRect(boxes[i], width, height).Some? && canCrop(FaceCropRect(boxes[i], width, height).value)
    ensures |FaceCrops(boxes, width, height, canCrop)| == |boxes|
    ensures forall j :: 0 <= j < |boxes| ==>
              Some(FaceCrops(boxes, width, height, canCrop)[j]) == FaceCropRect(boxes[j], width, height)
  {
    CropsTakenAllSucceed(FaceCandidates(boxes, width, height), canCrop);
  }
}
