/** Concrete runs of the counting step that show its behaviour on small inputs. */
module Scenarios {
  import opened Geometry
  import opened RoiCounter

  lemma StepOne(s: State, boxes: seq<Rect>, i: int)
    requires 0 <= i < |boxes|
    ensures Step(s, boxes, [i]) == Visit(s.(current := 0), boxes, i)
  {
    assert [i][..0] == [];
    assert VisitAll(s.(current := 0), boxes, []) == s.(current := 0);
    assert VisitAll(s.(current := 0), boxes, [i]) == Visit(VisitAll(s.(current := 0), boxes, []), boxes, i);
  }

  lemma StepTwo(s: State, boxes: seq<Rect>, i: int, j: int)
    requires 0 <= i < |boxes| && 0 <= j < |boxes|
    ensures Step(s, boxes, [i, j]) == Visit(Visit(s.(current := 0), boxes, i), boxes, j)
  {
    assert [i, j][..1] == [i];
    StepOne(s, boxes, i);
    assert VisitAll(s.(current := 0), boxes, [i, j]) == Visit(VisitAll(s.(current := 0), boxes, [i]), boxes, j);
  }

  const Outside: Rect := Rect(0, 0, 40, 40)
  const InsideBox: Rect := Rect(325, 225, 50, 50)

  /** One box seen outside, then with centre (350, 250) inside, then outside again:
      one entry is counted and nothing is inside at the end. */
  lemma EnterAndLeave()
    ensures var s1 := Step(Initial, [Outside], [0]);
      var s2 := Step(s1, [InsideBox], [0]);
      var s3 := Step(s2, [Outside], [0]);
      s2.total == 1 && s2.current == 1 && s3.total == 1 && s3.current == 0
  {
    var s1 := Step(Initial, [Outside], [0]);
    StepOne(Initial, [Outside], 0);
    StepOne(s1, [InsideBox], 0);
    var s2 := Step(s1, [InsideBox], [0]);
    StepOne(s2, [Outside], 0);
  }

  /** Keys are frame-local indices: a box that stays inside but moves from index 0 to
      index 1, because another box took index 0, is counted a second time. */
  lemma IndexShiftRecounts()
    ensures var s1 := Step(Initial, [InsideBox], [0]);
      var s2 := Step(s1, [Outside, InsideBox], [0, 1]);
      s1.total == 1 && s2.total == 2 && s2.current == 1
  {
    StepOne(Initial, [InsideBox], 0);
    var s1 := Step(Initial, [InsideBox], [0]);
    StepTwo(s1, [Outside, InsideBox], 0, 1);
  }

  /** An index that left the frame keeps its mark, so a box that appears inside at the same
      index after a frame without detections is not counted. */
  lemma StaleIndexNotRecounted()
    ensures var s1 := Step(Initial, [InsideBox], [0]);
      var s2 := Step(s1, [], []);
      var s3 := Step(s2, [Rect(400, 300, 20, 20)], [0]);
      s1.total == 1 && s2.total == 1 && s2.current == 0 && s3.total == 1 && s3.current == 1
  {
    StepOne(Initial, [InsideBox], 0);
    var s1 := Step(Initial, [InsideBox], [0]);
    var s2 := Step(s1, [], []);
    assert s2 == s1.(current := 0);
    StepOne(s2, [Rect(400, 300, 20, 20)], 0);
  }
}
