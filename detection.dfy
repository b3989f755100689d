/**
 * The worker's class filter, `detect_object` of client2.py. The detection
 * model is a parameter: given the image bytes it yields the model's result
 * list (each result holding its boxes), or None when the bytes do not open
 * as an image.
 */
module Detection {
  import opened Wrappers
  import opened Bytes
  import opened Values

  type Detector = seq<byte> -> Option<seq<seq<Box>>>

  /** The worker raises while filtering: the assignment is not a list of class ids. */
  datatype DetectError = BadAssignment

  /** All boxes of all results, in the order the nested loops visit them. */
  function Concat(results: seq<seq<Box>>): seq<Box>
  {
    if results == [] then [] else Concat(results[..|results| - 1]) + results[|results| - 1]
  }

  /** The boxes of class `k`, in input order. */
  function OfClass(boxes: seq<Box>, k: int): seq<Box>
  {
    if boxes == [] then []
    else
      var last := boxes[|boxes| - 1];
      OfClass(boxes[..|boxes| - 1], k) + (if last.cls == k then [last] else [])
  }

  /** Filtering keeps order: filtering a concatenation concatenates the filtered parts. */
  lemma {:induction false} OfClassAppend(a: seq<Box>, b: seq<Box>, k: int)
    ensures OfClass(a + b, k) == OfClass(a, k) + OfClass(b, k)
    decreases |b|
  {
    if b == [] {
      assert a + b == a;
    } else {
      var init := b[..|b| - 1];
      assert (a + b)[..|a + b| - 1] == a + init;
      OfClassAppend(a, init, k);
    }
  }

  /** Filtering keeps every box of class `k` as often as it occurs, and nothing else. */
  lemma {:induction false} OfClassContents(boxes: seq<Box>, k: int, b: Box)
    ensures multiset(OfClass(boxes, k))[b] == if b.cls == k then multiset(boxes)[b] else 0
  {
    if boxes != [] {
      var init := boxes[..|boxes| - 1];
      OfClassContents(init, k, b);
      assert boxes == init + [boxes[|boxes| - 1]];
    }
  }

  /**
   * `detections = {cls_id: [] for cls_id in class_ids}` and the nested loop
   * that appends each box whose class is among `class_ids`. The keys are
   * exactly the assigned classes, and each holds that class's boxes in
   * order.
   */
  method FilterDetections(results: seq<seq<Box>>, classIds: seq<int>) returns (detections: map<int, seq<Box>>)
    ensures detections.Keys == set k | k in classIds
    ensures forall k :: k in detections ==> detections[k] == OfClass(Concat(results), k)
  {
    detections := map k | k in classIds :: [];
    for i := 0 to |results|
      invariant detections.Keys == set k | k in classIds
      invariant forall k :: k in detections ==> detections[k] == OfClass(Concat(results[..i]), k)
    {
      ghost var before := Concat(results[..i]);
      assert before + results[i][..0] == before;
      for j := 0 to |results[i]|
        invariant detections.Keys == set k | k in classIds
        invariant forall k :: k in detections ==> detections[k] == OfClass(before + results[i][..j], k)
      {
        var box := results[i][j];
        assert results[i][..j + 1] == results[i][..j] + [box];
        assert before + results[i][..j + 1] == (before + results[i][..j]) + [box];
        if box.cls in classIds {
          detections := detections[box.cls := detections[box.cls] + [box]];
        }
      }
      assert results[i][..|results[i]|] == results[i];
      assert results[..i + 1][..i] == results[..i];
    }
    assert results[..|results|] == results;
  }

  /**
   * What `detect_object` returns: None when the bytes are not an image (the
   * open fails before the class list is looked at), the filtered map
   * otherwise, and an error when the assignment cannot be iterated as a list
   * of class ids.
   */
  function Detect(imageData: Value, classIds: Value, detector: Detector): Result<Option<map<int, seq<Box>>>, DetectError>
  {
    if !imageData.Blob? || detector(imageData.bytes).None? then Success(None)
    else if !classIds.IntList? then Failure(BadAssignment)
    else
      var boxes := Concat(detector(imageData.bytes).value);
      Success(Some(map k | k in classIds.ints :: OfClass(boxes, k)))
  }

  /** `detect_object` (client2.py). */
  method DetectObject(imageData: Value, classIds: Value, detector: Detector)
    returns (r: Result<Option<map<int, seq<Box>>>, DetectError>)
    ensures r == Detect(imageData, classIds, detector)
    ensures r == Success(None) <==> !imageData.Blob? || detector(imageData.bytes).None?
    ensures r.Success? && r.value.Some? ==>
      && classIds.IntList?
      && r.value.value.Keys == set k | k in classIds.ints
      && forall k :: k in r.value.value ==> r.value.value[k] == OfClass(Concat(detector(imageData.bytes).value), k)
  {
    if !imageData.Blob? {
      return Success(None);
    }
    var model := detector(imageData.bytes);
    if model.None? {
      return Success(None);
    }
    if !classIds.IntList? {
      return Failure(BadAssignment);
    }
    var detections := FilterDetections(model.value, classIds.ints);
    assert detections == map k | k in classIds.ints :: OfClass(Concat(model.value), k);
    r := Success(Some(detections));
  }
}
