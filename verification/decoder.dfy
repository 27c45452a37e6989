/** The detection filter and box construction that runs over the network outputs
    of one frame, turning candidate rows into three parallel vectors. */
module Decoder {
  import opened Geometry

  /** One candidate row of a network output, after the argmax over class scores and
      the scaling of the centre and size to pixel coordinates (both done upstream). */
  datatype Row = Row(centerX: int, centerY: int, width: int, height: int, classId: int, confidence: real)

  /** The three parallel vectors the filter appends to. */
  datatype Detections = Detections(classIds: seq<int>, confidences: seq<real>, boxes: seq<Rect>)
  {
    /** Entry k of each vector belongs to the same detection. */
    predicate Parallel()
    {
      |classIds| == |confidences| == |boxes|
    }
  }

  /** The confidence threshold; a row must lie strictly above it. */
  const ConfidenceThreshold: real := 0.5

  predicate Keep(row: Row)
  {
    row.confidence > ConfidenceThreshold
  }

  /** The box of a row: its top-left corner is the centre minus half the size (truncating). */
  function BoxOf(row: Row): (b: Rect)
    ensures b.width == row.width && b.height == row.height
    ensures Center(b) == Point(row.centerX, row.centerY)
  {
    Rect(row.centerX - TruncDiv2(row.width), row.centerY - TruncDiv2(row.height), row.width, row.height)
  }

  /** Appends one kept row to the three vectors. */
  function Push(d: Detections, row: Row): Detections
  {
    Detections(d.classIds + [row.classId], d.confidences + [row.confidence], d.boxes + [BoxOf(row)])
  }

  /** The vectors after the filter has visited every row of `rows`, in order. */
  function Decode(rows: seq<Row>): (d: Detections)
    ensures d.Parallel()
    ensures |d.boxes| <= |rows|
  {
    if |rows| == 0 then Detections([], [], [])
    else
      var prev := Decode(rows[..|rows| - 1]);
      if Keep(rows[|rows| - 1]) then Push(prev, rows[|rows| - 1]) else prev
  }

  /** Reference definition of the filter: the positions of the kept rows, in input order. */
  function Selected(rows: seq<Row>): (idx: seq<nat>)
    ensures forall k :: 0 <= k < |idx| ==> idx[k] < |rows|
  {
    if |rows| == 0 then []
    else Selected(rows[..|rows| - 1]) + (if Keep(rows[|rows| - 1]) then [|rows| - 1] else [])
  }

  /** Every output tensor's rows, one tensor after another. */
  function Concat(outputs: seq<seq<Row>>): seq<Row>
  {
    if |outputs| == 0 then [] else Concat(outputs[..|outputs| - 1]) + outputs[|outputs| - 1]
  }

  /** A row is selected exactly when its confidence is strictly above the threshold,
      and the selected positions keep the input order. */
  lemma {:induction false} SelectedExact(rows: seq<Row>)
    ensures forall i :: 0 <= i < |rows| ==> (Keep(rows[i]) <==> i in Selected(rows))
    ensures forall k, l :: 0 <= k < l < |Selected(rows)| ==> Selected(rows)[k] < Selected(rows)[l]
  {
    if |rows| > 0 {
      var pre := rows[..|rows| - 1];
      SelectedExact(pre);
      assert forall i :: 0 <= i < |pre| ==> rows[i] == pre[i];
    }
  }

  /** Entry k of each of the three vectors comes from the k-th selected row. */
  lemma {:induction false} DecodeMatchesSelected(rows: seq<Row>)
    ensures |Decode(rows).boxes| == |Selected(rows)|
    ensures forall k :: 0 <= k < |Selected(rows)| ==>
      var row := rows[Selected(rows)[k]];
      && Decode(rows).classIds[k] == row.classId
      && Decode(rows).confidences[k] == row.confidence
      && Decode(rows).boxes[k] == BoxOf(row)
  {
    if |rows| > 0 {
      var pre := rows[..|rows| - 1];
      DecodeMatchesSelected(pre);
      assert forall i :: 0 <= i < |pre| ==> rows[i] == pre[i];
    }
  }

  /** Appending one row to the input extends the vectors by that row alone when it is kept. */
  lemma DecodeSnoc(rows: seq<Row>, row: Row)
    ensures Decode(rows + [row]) == if Keep(row) then Push(Decode(rows), row) else Decode(rows)
  {
    assert (rows + [row])[..|rows|] == rows;
  }

  lemma ConcatSnoc(outputs: seq<seq<Row>>, i: nat)
    requires i < |outputs|
    ensures Concat(outputs[..i + 1]) == Concat(outputs[..i]) + outputs[i]
  {
    assert outputs[..i + 1][..i] == outputs[..i];
  }

  /** The inner loop over the rows of one output tensor: starting from the vectors built
      from the rows `done` already visited, it appends the kept rows of `output`. */
  method DecodeRows(ghost done: seq<Row>, output: seq<Row>,
                    classIds0: seq<int>, confidences0: seq<real>, boxes0: seq<Rect>)
    returns (classIds: seq<int>, confidences: seq<real>, boxes: seq<Rect>)
    requires Detections(classIds0, confidences0, boxes0) == Decode(done)
    ensures Detections(classIds, confidences, boxes) == Decode(done + output)
  {
    classIds, confidences, boxes := classIds0, confidences0, boxes0;
    var j := 0;
    assert done + output[..j] == done;
    while j < |output|
      invariant 0 <= j <= |output|
      invariant Detections(classIds, confidences, boxes) == Decode(done + output[..j])
    {
      var row := output[j];
      DecodeSnoc(done + output[..j], row);
      assert done + output[..j + 1] == done + output[..j] + [row];
      if Keep(row) {
        classIds := classIds + [row.classId];
        confidences := confidences + [row.confidence];
        boxes := boxes + [BoxOf(row)];
      }
      j := j + 1;
    }
    assert output[..j] == output;
  }

  /** The nested loop over output tensors and their rows, appending kept rows to the
      three vectors. */
  method DecodeOutputs(outputs: seq<seq<Row>>) returns (classIds: seq<int>, confidences: seq<real>, boxes: seq<Rect>)
    ensures Detections(classIds, confidences, boxes) == Decode(Concat(outputs))
    ensures |classIds| == |confidences| == |boxes| == |Selected(Concat(outputs))|
    ensures forall k :: 0 <= k < |boxes| ==>
      var row := Concat(outputs)[Selected(Concat(outputs))[k]];
      && classIds[k] == row.classId
      && confidences[k] == row.confidence
      && boxes[k] == BoxOf(row)
  {
    classIds, confidences, boxes := [], [], [];
    var i := 0;
    while i < |outputs|
      invariant 0 <= i <= |outputs|
      invariant Detections(classIds, confidences, boxes) == Decode(Concat(outputs[..i]))
    {
      classIds, confidences, boxes := DecodeRows(Concat(outputs[..i]), outputs[i], classIds, confidences, boxes);
      ConcatSnoc(outputs, i);
      i := i + 1;
    }
    assert outputs[..i] == outputs;
    DecodeMatchesSelected(Concat(outputs));
  }
}
