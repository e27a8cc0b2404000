/** The run of the tool on one image (main and processImageAndSaveResults).

    main checks the argument count and the extension, creates the output
    directory named after the image, and then processes the image: the
    image is copied under its own name, and the four stages run one after
    the other, OCR, faces, objects, whole-image classification.  The run is
    described by the trace of the files written, each tagged with the stage
    that wrote it.

    What the detectors return is an input.  A stage whose request fails
    (an error in the completion handler, results of an unexpected type, or
    a model that cannot be created) is `None` and writes nothing. */
module Pipeline {
  import opened Wrappers
  import opened Geometry
  import opened Artifacts
  import opened TextReports
  import opened Faces
  import opened Objects
  import opened Paths

  datatype Stage = Original | TextRecognition | FaceDetection | ObjectDetection | ImageClassification

  /** The position of a stage in the run. */
  function Rank(s: Stage): nat
  {
    match s
    case Original => 0
    case TextRecognition => 1
    case FaceDetection => 2
    case ObjectDetection => 3
    case ImageClassification => 4
  }

  /** A file written, and the stage that wrote it. */
  datatype Event = Event(stage: Stage, artifact: Artifact)

  /** The decoded image: its size in pixels. */
  datatype ImageSize = ImageSize(width: nat, height: nat)

  /** What each request returns; None when the request fails. */
  datatype Detections = Detections(
    text: Option<seq<TextObservation>>,
    faces: Option<seq<NormBox>>,
    objects: Option<seq<ObjectObservation>>,
    classes: Option<seq<Classification>>)

  /** The outcome of a run of the tool. */
  datatype Outcome =
    | UsageError
    | InvalidExtension
    | DirectoryUnavailable(subdirectory: string)
    | Processed(subdirectory: string, trace: seq<Event>)

  /** The files of one stage, tagged with it. */
  function Tag(s: Stage, arts: seq<Artifact>): (es: seq<Event>)
    ensures |es| == |arts|
    ensures forall i :: 0 <= i < |es| ==> es[i].stage == s && es[i].artifact == arts[i]
  {
    seq(|arts|, i requires 0 <= i < |arts| => Event(s, arts[i]))
  }

  function OcrStage(text: Option<seq<TextObservation>>): seq<Artifact>
  {
    match text
    case None => []
    case Some(obs) => OcrArtifacts(obs)
  }

  function FaceStage(faces: Option<seq<NormBox>>, size: ImageSize, canCrop: Rect -> bool): seq<Artifact>
  {
    match faces
    case None => []
    case Some(boxes) => FaceArtifacts(boxes, size.width, size.height, canCrop)
  }

  function ObjectStage(objects: Option<seq<ObjectObservation>>, size: ImageSize, canCrop: Rect -> bool): seq<Artifact>
  {
    match objects
    case None => []
    case Some(obs) => YoloArtifacts(obs, size.width, size.height, canCrop)
  }

  function ClassificationStage(classes: Option<seq<Classification>>, format: real -> string): seq<Artifact>
  {
    match classes
    case None => []
    case Some(cls) => ResnetArtifacts(cls, format)
  }

  /** The files processImageAndSaveResults writes, in order: nothing when
      the image cannot be loaded, else the copy of the image, then the
      files of each stage in turn. */
  function PipelineTrace(imagePath: string, image: Option<ImageSize>, d: Detections,
                         canCrop: Rect -> bool, format: real -> string): seq<Event>
  {
    match image
    case None => []
    case Some(size) =>
      Tag(Original, [OriginalCopy(LastComponent(imagePath))])
      + Tag(TextRecognition, OcrStage(d.text))
      + Tag(FaceDetection, FaceStage(d.faces, size, canCrop))
      + Tag(ObjectDetection, ObjectStage(d.objects, size, canCrop))
      + Tag(ImageClassification, ClassificationStage(d.classes, format))
  }

  /** processImageAndSaveResults. */
  method ProcessImageAndSaveResults(imagePath: string, image: Option<ImageSize>, d: Detections,
                                    canCrop: Rect -> bool, format: real -> string)
    returns (trace: seq<Event>)
    ensures trace == PipelineTrace(imagePath, image, d, canCrop, format)
  {
    if image.None? {
      return [];
    }
    var size := image.value;
    trace := Tag(Original, [OriginalCopy(LastComponent(imagePath))]);
    var written: seq<Artifact> := [];
    if d.text.Some? {
      written := PerformOcr(d.text.value);
    }
    trace := trace + Tag(TextRecognition, written);
    written := [];
    if d.faces.Some? {
      written := PerformFaceDetection(d.faces.value, size.width, size.height, canCrop);
    }
    trace := trace + Tag(FaceDetection, written);
    written := [];
    if d.objects.Some? {
      written := PerformYoloObjectClassification(d.objects.value, size.width, size.height, canCrop);
    }
    trace := trace + Tag(ObjectDetection, written);
    written := [];
    if d.classes.Some? {
      written := PerformResnetClassification(d.classes.value, format);
    }
    trace := trace + Tag(ImageClassification, written);
  }

  /** main: the argument count, then the extension, then the output
      directory; only when all three succeed is the image processed.
      `directoryCreated` is whether createSubdirectory returns a URL. */
  method RunTool(args: seq<string>, directoryCreated: bool, image: Option<ImageSize>, d: Detections,
                 canCrop: Rect -> bool, format: real -> string)
    returns (outcome: Outcome)
    ensures outcome.UsageError? <==> !ArgsAccepted(args)
    ensures outcome.InvalidExtension? <==> ArgsAccepted(args) && !IsValidExtension(args[1], AllowedExtensions)
    ensures outcome.Processed? <==>
              ArgsAccepted(args) && IsValidExtension(args[1], AllowedExtensions) && directoryCreated
    ensures outcome.Processed? ==>
              outcome.subdirectory == FilenameWithoutExtension(args[1])
              && outcome.trace == PipelineTrace(args[1], image, d, canCrop, format)
    ensures outcome.DirectoryUnavailable? ==> outcome.subdirectory == FilenameWithoutExtension(args[1])
  {
    if |args| != 2 {
      return UsageError;
    }
    var imagePath := args[1];
    if !IsValidExtension(imagePath, AllowedExtensions) {
      return InvalidExtension;
    }
    var subdirectoryName := FilenameWithoutExtension(imagePath);
    if !directoryCreated {
      return DirectoryUnavailable(subdirectoryName);
    }
    var trace := ProcessImageAndSaveResults(imagePath, image, d, canCrop, format);
    outcome := Processed(subdirectoryName, trace);
  }

  /** The stages of the events never go back. */
  predicate InStageOrder(t: seq<Event>)
  {
    forall i, j :: 0 <= i < j < |t| ==> Rank(t[i].stage) <= Rank(t[j].stage)
  }

  /** Five runs of files, tagged with the five stages in turn, are in stage
      order whatever they hold. */
  lemma StagesInOrder(a0: seq<Artifact>, a1: seq<Artifact>, a2: seq<Artifact>, a3: seq<Artifact>, a4: seq<Artifact>)
    ensures InStageOrder(Tag(Original, a0) + Tag(TextRecognition, a1) + Tag(FaceDetection, a2)
                         + Tag(ObjectDetection, a3) + Tag(ImageClassification, a4))
  {
  }

  /** The files are written stage by stage: the copy of the image first,
      then OCR, faces, objects and classification, never going back. */
  lemma TraceInStageOrder(imagePath: string, image: Option<ImageSize>, d: Detections,
                          canCrop: Rect -> bool, format: real -> string)
    ensures InStageOrder(PipelineTrace(imagePath, image, d, canCrop, format))
  {
    if image.Some? {
      var size := image.value;
      StagesInOrder([OriginalCopy(LastComponent(imagePath))], OcrStage(d.text), FaceStage(d.faces, size, canCrop),
                    ObjectStage(d.objects, size, canCrop), ClassificationStage(d.classes, format));
    }
  }

  /** Nothing is written when the image cannot be loaded; otherwise the
      first file is the copy of the image under its own name, and it is the
      only file of that stage. */
  lemma TraceStartsWithOriginal(imagePath: string, image: Option<ImageSize>, d: Detections,
                                canCrop: Rect -> bool, format: real -> string)
    ensures var t := PipelineTrace(imagePath, image, d, canCrop, format);
            && (image.None? <==> t == [])
            && (image.Some? ==> t[0] == Event(Original, OriginalCopy(LastComponent(imagePath))))
            && (forall i :: 0 < i < |t| ==> t[i].stage != Original)
  {
    if image.Some? {
      var t := PipelineTrace(imagePath, image, d, canCrop, format);
      assert t[0] == Event(Original, OriginalCopy(LastComponent(imagePath)));
    }
  }

  /** A stage whose request fails writes what it writes when the detector
      finds nothing: nothing. */
  lemma StageFailureIsEmptyResult(imagePath: string, image: Option<ImageSize>, d: Detections,
                                  canCrop: Rect -> bool, format: real -> string)
    ensures PipelineTrace(imagePath, image, d.(text := None), canCrop, format)
            == PipelineTrace(imagePath, image, d.(text := Some([])), canCrop, format)
    ensures PipelineTrace(imagePath, image, d.(faces := None), canCrop, format)
            == PipelineTrace(imagePath, image, d.(faces := Some([])), canCrop, format)
    ensures PipelineTrace(imagePath, image, d.(objects := None), canCrop, format)
            == PipelineTrace(imagePath, image, d.(objects := Some([])), canCrop, format)
    ensures PipelineTrace(imagePath, image, d.(classes := None), canCrop, format)
            == PipelineTrace(imagePath, image, d.(classes := Some([])), canCrop, format)
  {
    if image.Some? {
      var size := image.value;
      assert OcrStage(Some([])) == [];
      assert FaceStage(Some([]), size, canCrop) == [];
      assert ObjectStage(Some([]), size, canCrop) == [];
      assert ClassificationStage(Some([]), format) == [];
    }
  }

  /** An image in which only the classifier finds something, one label:
      the run writes the copy of the image and one report line. */
  lemma OnlyClassification(imagePath: string, size: ImageSize, c: Classification,
                           canCrop: Rect -> bool, format: real -> string)
    ensures PipelineTrace(imagePath, Some(size), Detections(Some([]), Some([]), Some([]), Some([c])), canCrop, format)
            == [Event(Original, OriginalCopy(LastComponent(imagePath))),
                Event(ImageClassification, TextFile(ResnetFileName, ResnetLine(c, format)))]
  {
    ResnetTextSingle(c, format);
    assert ResnetLine(c, format)[0] == 'C';
    assert FaceStage(Some([]), size, canCrop) == [];
    assert ObjectStage(Some([]), size, canCrop) == [];
  }
}
