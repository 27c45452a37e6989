/** The frame loop: each frame's rows are decoded, the suppressor's indices are taken
    as given, and the counting step is applied, starting from an empty map and zero counts. */
module Pipeline {
  import opened Geometry
  import opened Decoder
  import opened RoiCounter

  /** What one frame contributes: the network outputs (already reduced to rows) and the
      indices the suppressor kept. */
  datatype FrameInput = FrameInput(outputs: seq<seq<Row>>, kept: seq<int>)

  function Boxes(f: FrameInput): seq<Rect>
  {
    Decode(Concat(f.outputs)).boxes
  }

  predicate ValidStream(frames: seq<FrameInput>)
  {
    forall i :: 0 <= i < |frames| ==> ValidIndices(Boxes(frames[i]), frames[i].kept)
  }

  /** The number of suppressor indices over all frames. */
  function IndexCount(frames: seq<FrameInput>): nat
  {
    if |frames| == 0 then 0 else IndexCount(frames[..|frames| - 1]) + |frames[|frames| - 1].kept|
  }

  /** The counter state after the loop has processed every frame of `frames`. */
  function Run(frames: seq<FrameInput>): (s: State)
    requires ValidStream(frames)
    ensures s.total <= IndexCount(frames)
  {
    if |frames| == 0 then Initial
    else
      var pre := frames[..|frames| - 1];
      assert ValidStream(pre) by {
        assert forall i :: 0 <= i < |pre| ==> pre[i] == frames[i];
      }
      var last := frames[|frames| - 1];
      Step(Run(pre), Boxes(last), last.kept)
  }

  lemma PrefixValid(frames: seq<FrameInput>, n: nat)
    requires ValidStream(frames) && n <= |frames|
    ensures ValidStream(frames[..n])
  {
    assert forall k :: 0 <= k < n ==> frames[..n][k] == frames[k];
  }

  /** One more frame never lowers the total. */
  lemma RunGrows(frames: seq<FrameInput>)
    requires ValidStream(frames) && |frames| > 0
    ensures ValidStream(frames[..|frames| - 1])
    ensures Run(frames[..|frames| - 1]).total <= Run(frames).total
  {
    PrefixValid(frames, |frames| - 1);
  }

  /** The total never decreases from one prefix of the stream to a longer one. */
  lemma {:induction false} RunMonotone(frames: seq<FrameInput>, i: nat, j: nat)
    requires ValidStream(frames)
    requires i <= j <= |frames|
    ensures ValidStream(frames[..i]) && ValidStream(frames[..j])
    ensures Run(frames[..i]).total <= Run(frames[..j]).total
  {
    PrefixValid(frames, i);
    PrefixValid(frames, j);
    if i < j {
      RunMonotone(frames, i, j - 1);
      var fj := frames[..j];
      RunGrows(fj);
      assert fj[..j - 1] == frames[..j - 1];
    }
  }

  /** After a non-empty stream the current count describes the last frame alone;
      an empty stream leaves both counters at zero. */
  lemma RunCurrent(frames: seq<FrameInput>)
    requires ValidStream(frames)
    ensures |frames| == 0 ==> Run(frames) == Initial
    ensures |frames| > 0 ==>
      var last := frames[|frames| - 1];
      Run(frames).current == |InsidePositions(Boxes(last), last.kept)|
  {
    if |frames| > 0 {
      var pre := frames[..|frames| - 1];
      assert forall i :: 0 <= i < |pre| ==> pre[i] == frames[i];
      var last := frames[|frames| - 1];
      StepCurrent(Run(pre), Boxes(last), last.kept);
    }
  }
}
