/**
 * The `analyze_objects` activity: a mock detector that labels an image from its
 * width and height alone.  The dimensions are an input: reading them is done
 * by Pillow.  Confidences are kept in hundredths (0.85 is 85).
 */
module Objects {
  import opened Common

  datatype DetectedObject = DetectedObject(name: string, confidence: nat)

  /** The dictionary the activity returns; `note` on success, `error` on failure. */
  datatype ObjectAnalysis = ObjectAnalysis(
    objects: seq<DetectedObject>,
    objectCount: nat,
    note: Option<string>,
    error: Option<string>)

  const MockNote := "Mock analysis - replace with Azure Computer Vision for real detection"

  /** More than one megapixel. */
  const HighResolutionPixels := 1000000

  predicate IsOrientation(name: string) {
    name == "landscape" || name == "portrait" || name == "square composition"
  }

  /**
   * Builds `mock_objects` step by step from the image size, or reports the
   * message of the exception raised while opening the image.
   */
  method AnalyzeObjects(size: Result<(nat, nat)>) returns (r: ObjectAnalysis)
    ensures size.Failure? ==> r == ObjectAnalysis([], 0, None, Some(size.message))
    ensures size.Success? ==>
      var (width, height) := size.value;
      && r.error == None && r.note == Some(MockNote)
      && r.objectCount == |r.objects|
      && |r.objects| == (if width * height > HighResolutionPixels then 3 else 2)
      // exactly one orientation label, first, chosen by comparing the sides
      && (r.objects[0] == DetectedObject("landscape", 85) <==> width > height)
      && (r.objects[0] == DetectedObject("portrait", 82) <==> height > width)
      && (r.objects[0] == DetectedObject("square composition", 90) <==> width == height)
      && (forall i :: 1 <= i < |r.objects| ==> !IsOrientation(r.objects[i].name))
      // the size label exactly for images of more than a megapixel
      && ((exists i :: 0 <= i < |r.objects| && r.objects[i] == DetectedObject("high-resolution scene", 78))
          <==> width * height > HighResolutionPixels)
      && (forall i :: 0 <= i < |r.objects| && r.objects[i].name == "high-resolution scene" ==> i == 1)
      // always closed by the constant label
      && r.objects[|r.objects| - 1] == DetectedObject("digital image", 99)
  {
    match size {
      case Failure(message) =>
        r := ObjectAnalysis([], 0, None, Some(message));
      case Success((width, height)) =>
        var objects: seq<DetectedObject> := [];
        if width > height {
          objects := objects + [DetectedObject("landscape", 85)];
        } else if height > width {
          objects := objects + [DetectedObject("portrait", 82)];
        } else {
          objects := objects + [DetectedObject("square composition", 90)];
        }
        if width * height > HighResolutionPixels {
          objects := objects + [DetectedObject("high-resolution scene", 78)];
        }
        objects := objects + [DetectedObject("digital image", 99)];
        assert width * height > HighResolutionPixels ==>
          objects[1] == DetectedObject("high-resolution scene", 78);
        r := ObjectAnalysis(objects, |objects|, Some(MockNote), None);
    }
  }
}
