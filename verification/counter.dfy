/** The per-frame ROI counting step: a map from the suppressor's frame-local box
    index to "inside the region", a running total of entries and a per-frame count. */
module RoiCounter {
  import opened Geometry

  /** The counter's state across frames. Keys are indices into one frame's box vector,
      so the same key may denote different objects in different frames. */
  datatype State = State(inside: map<int, bool>, total: nat, current: nat)

  const Initial: State := State(map[], 0, 0)

  /** Whether a box's centre, computed with truncating halving, lies in the fixed region. */
  predicate InRoi(b: Rect)
  {
    Contains(Roi, Center(b))
  }

  /** A map lookup that treats an absent key as false, as `map::operator[]` does for bool. */
  predicate Marked(m: map<int, bool>, index: int)
  {
    index in m && m[index]
  }

  /** Every index returned by the suppressor addresses a box of this frame. */
  predicate ValidIndices(boxes: seq<Rect>, indices: seq<int>)
  {
    forall k :: 0 <= k < |indices| ==> 0 <= indices[k] < |boxes|
  }

  /** Positions in the index list whose box centre lies in the region. */
  function InsidePositions(boxes: seq<Rect>, indices: seq<int>): set<nat>
    requires ValidIndices(boxes, indices)
  {
    set k: nat | k < |indices| && InRoi(boxes[indices[k]])
  }

  /** Positions whose box centre lies in the region and whose map entry in `m` is absent or false. */
  function EnteringPositions(m: map<int, bool>, boxes: seq<Rect>, indices: seq<int>): set<nat>
    requires ValidIndices(boxes, indices)
  {
    set k: nat | k < |indices| && InRoi(boxes[indices[k]]) && !Marked(m, indices[k])
  }

  /** The loop body for one suppressor index. */
  function Visit(s: State, boxes: seq<Rect>, index: int): (t: State)
    requires 0 <= index < |boxes|
    ensures t.inside == s.inside[index := InRoi(boxes[index])]
    ensures t.total == if InRoi(boxes[index]) && !Marked(s.inside, index) then s.total + 1 else s.total
    ensures t.current == if InRoi(boxes[index]) then s.current + 1 else s.current
  {
    var box := boxes[index];
    if InRoi(box) then
      var s1 := if !Marked(s.inside, index) then s.(inside := s.inside[index := true], total := s.total + 1) else s;
      s1.(current := s1.current + 1)
    else
      s.(inside := s.inside[index := false])
  }

  /** The loop over the suppressor's indices, in order. */
  function VisitAll(s: State, boxes: seq<Rect>, indices: seq<int>): (t: State)
    requires ValidIndices(boxes, indices)
    ensures s.total <= t.total <= s.total + |indices|
    ensures t.total - s.total <= t.current - s.current
    ensures forall j :: j in t.inside <==> j in s.inside || j in indices
    ensures forall j :: j in indices ==> t.inside[j] == InRoi(boxes[j])
    ensures forall j :: j in s.inside && j !in indices ==> t.inside[j] == s.inside[j]
  {
    if |indices| == 0 then s
    else
      var pre := indices[..|indices| - 1];
      assert forall j :: j in indices <==> j in pre || j == indices[|indices| - 1];
      Visit(VisitAll(s, boxes, pre), boxes, indices[|indices| - 1])
  }

  /** One frame: reset the current count, then visit every suppressor index. */
  function Step(s: State, boxes: seq<Rect>, indices: seq<int>): (t: State)
    requires ValidIndices(boxes, indices)
    ensures s.total <= t.total <= s.total + |indices|
    ensures t.total - s.total <= t.current
    ensures forall j :: j in t.inside <==> j in s.inside || j in indices
    ensures forall j :: j in indices ==> t.inside[j] == InRoi(boxes[j])
    ensures forall j :: j in s.inside && j !in indices ==> t.inside[j] == s.inside[j]
  {
    VisitAll(s.(current := 0), boxes, indices)
  }

  lemma InsidePositionsSnoc(boxes: seq<Rect>, indices: seq<int>)
    requires ValidIndices(boxes, indices) && |indices| > 0
    ensures var n := |indices| - 1;
      InsidePositions(boxes, indices)
        == InsidePositions(boxes, indices[..n]) + (if InRoi(boxes[indices[n]]) then {n} else {})
  {
  }

  lemma EnteringPositionsSnoc(m: map<int, bool>, boxes: seq<Rect>, indices: seq<int>)
    requires ValidIndices(boxes, indices) && |indices| > 0
    ensures var n := |indices| - 1;
      EnteringPositions(m, boxes, indices)
        == EnteringPositions(m, boxes, indices[..n]) + (if InRoi(boxes[indices[n]]) && !Marked(m, indices[n]) then {n} else {})
  {
  }

  /** Visiting the indices adds one to the current count per position whose centre is inside. */
  lemma {:induction false} VisitAllCurrent(s: State, boxes: seq<Rect>, indices: seq<int>)
    requires ValidIndices(boxes, indices)
    ensures VisitAll(s, boxes, indices).current == s.current + |InsidePositions(boxes, indices)|
  {
    if |indices| > 0 {
      var n := |indices| - 1;
      VisitAllCurrent(s, boxes, indices[..n]);
      InsidePositionsSnoc(boxes, indices);
      assert n !in InsidePositions(boxes, indices[..n]);
    }
  }

  /** After a frame the current count is the number of processed positions whose centre
      is inside the region, whatever the previous frame's count was. */
  lemma StepCurrent(s: State, boxes: seq<Rect>, indices: seq<int>)
    requires ValidIndices(boxes, indices)
    ensures Step(s, boxes, indices).current == |InsidePositions(boxes, indices)|
  {
    VisitAllCurrent(s.(current := 0), boxes, indices);
  }

  /** A key the visits do not list keeps its mark. */
  lemma VisitAllKeepsMark(s: State, boxes: seq<Rect>, indices: seq<int>, key: int)
    requires ValidIndices(boxes, indices) && key !in indices
    ensures Marked(VisitAll(s, boxes, indices).inside, key) == Marked(s.inside, key)
  {
  }

  /** With distinct indices, the total grows by one per position that is inside and was
      not marked inside before the visit. */
  lemma {:induction false} VisitAllTotal(s: State, boxes: seq<Rect>, indices: seq<int>)
    requires ValidIndices(boxes, indices)
    requires forall k, l :: 0 <= k < l < |indices| ==> indices[k] != indices[l]
    ensures VisitAll(s, boxes, indices).total == s.total + |EnteringPositions(s.inside, boxes, indices)|
  {
    if |indices| > 0 {
      var n := |indices| - 1;
      var pre := indices[..n];
      VisitAllTotal(s, boxes, pre);
      EnteringPositionsSnoc(s.inside, boxes, indices);
      assert n !in EnteringPositions(s.inside, boxes, pre);
      assert indices[n] !in pre;
      VisitAllKeepsMark(s, boxes, pre, indices[n]);
      var e := EnteringPositions(s.inside, boxes, pre);
      if InRoi(boxes[indices[n]]) && !Marked(s.inside, indices[n]) {
        assert |e + {n}| == |e| + 1;
      }
    }
  }

  /** With distinct indices, a frame adds to the total exactly the number of indices that are
      inside now and were absent or false in the map before the frame; that number is at most
      the number of indices. */
  lemma StepTotal(s: State, boxes: seq<Rect>, indices: seq<int>)
    requires ValidIndices(boxes, indices)
    requires forall k, l :: 0 <= k < l < |indices| ==> indices[k] != indices[l]
    ensures Step(s, boxes, indices).total == s.total + |EnteringPositions(s.inside, boxes, indices)|
    ensures |EnteringPositions(s.inside, boxes, indices)| <= |indices|
  {
    VisitAllTotal(s.(current := 0), boxes, indices);
  }

  /** Indices already marked inside cause no increment, even when listed more than once. */
  lemma {:induction false} VisitAllNoRecount(s: State, boxes: seq<Rect>, indices: seq<int>)
    requires ValidIndices(boxes, indices)
    requires forall k :: 0 <= k < |indices| && InRoi(boxes[indices[k]]) ==> Marked(s.inside, indices[k])
    ensures VisitAll(s, boxes, indices).total == s.total
  {
    if |indices| > 0 {
      var n := |indices| - 1;
      var pre := indices[..n];
      VisitAllNoRecount(s, boxes, pre);
      var mid := VisitAll(s, boxes, pre);
      if InRoi(boxes[indices[n]]) {
        if indices[n] in pre {
          assert mid.inside[indices[n]];
        } else {
          assert Marked(s.inside, indices[n]);
        }
      }
    }
  }

  /** A frame whose in-region indices were all already marked inside leaves the total unchanged. */
  lemma StepNoRecount(s: State, boxes: seq<Rect>, indices: seq<int>)
    requires ValidIndices(boxes, indices)
    requires forall k :: 0 <= k < |indices| && InRoi(boxes[indices[k]]) ==> Marked(s.inside, indices[k])
    ensures Step(s, boxes, indices).total == s.total
  {
    VisitAllNoRecount(s.(current := 0), boxes, indices);
  }

  /** A frame with no indices leaves the map and the total alone and zeroes the current count. */
  lemma EmptyFrame(s: State, boxes: seq<Rect>)
    ensures Step(s, boxes, []) == s.(current := 0)
  {
  }
}
