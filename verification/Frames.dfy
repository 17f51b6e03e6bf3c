/** Decoded pictures, and the order in which the sorter's heap compares them. */
module Frames {
  import opened Common

  datatype Metadata = Metadata(
    pts: Option<nat>,
    picOrderCnt: int,
    maxNumReorderFrames: nat,
    isIdr: bool,
    colorSpace: nat,
    colorRange: nat,
    croppedWidth: nat,
    croppedHeight: nat)

  datatype DecodeResult<T> = DecodeResult(frame: T, metadata: Metadata)

  datatype FrameMetadata = FrameMetadata(pts: Option<nat>, colorSpace: nat, colorRange: nat)

  datatype OutputFrame<T> = OutputFrame(data: T, metadata: FrameMetadata)

  datatype Ordering = Less | Equal | Greater {
    function Reverse(): Ordering {
      match this
      case Less => Greater
      case Equal => Equal
      case Greater => Less
    }
  }

  function CompareInts(a: int, b: int): Ordering {
    if a < b then Less else if a == b then Equal else Greater
  }

  /** Reversed: the greatest frame has the smallest count. */
  function Compare<T>(a: DecodeResult<T>, b: DecodeResult<T>): Ordering {
    CompareInts(a.metadata.picOrderCnt, b.metadata.picOrderCnt).Reverse()
  }

  function Count<T>(f: DecodeResult<T>): int {
    f.metadata.picOrderCnt
  }

  function ToOutput<T>(f: DecodeResult<T>): OutputFrame<T> {
    OutputFrame(f.frame, FrameMetadata(f.metadata.pts, f.metadata.colorSpace, f.metadata.colorRange))
  }

  /** The frames are shown as they were decoded: the same pictures with their time stamps and colors, in this order. */
  ghost predicate Shows<T>(result: seq<OutputFrame<T>>, decoded: seq<DecodeResult<T>>) {
    && |result| == |decoded|
    && forall i :: 0 <= i < |decoded| ==>
         && result[i].data == decoded[i].frame
         && result[i].metadata.pts == decoded[i].metadata.pts
         && result[i].metadata.colorSpace == decoded[i].metadata.colorSpace
         && result[i].metadata.colorRange == decoded[i].metadata.colorRange
  }

  /** The pictures with all that is kept of them. */
  function Shown<T>(result: seq<OutputFrame<T>>): (r: seq<(T, Option<nat>, nat, nat)>)
    ensures |r| == |result|
  {
    seq(|result|, i requires 0 <= i < |result| =>
      (result[i].data, result[i].metadata.pts, result[i].metadata.colorSpace, result[i].metadata.colorRange))
  }

  function ToShow<T>(decoded: seq<DecodeResult<T>>): (r: seq<(T, Option<nat>, nat, nat)>)
    ensures |r| == |decoded|
  {
    seq(|decoded|, i requires 0 <= i < |decoded| =>
      (decoded[i].frame, decoded[i].metadata.pts, decoded[i].metadata.colorSpace, decoded[i].metadata.colorRange))
  }

  /** The same pictures in another order show the same. */
  lemma {:induction false} SamePictures<T>(a: seq<DecodeResult<T>>, b: seq<DecodeResult<T>>)
    requires multiset(a) == multiset(b)
    ensures multiset(ToShow(a)) == multiset(ToShow(b))
    decreases |a|
  {
    if a == [] {
      assert |multiset(b)| == |b|;
    } else {
      assert a[0] in multiset(a) && a[0] in multiset(b);
      var j :| 0 <= j < |b| && b[j] == a[0];
      SameWithout(a, 0, b, j);
      SamePictures(a[..0] + a[1..], b[..j] + b[j + 1..]);
      PutBackShown(a, 0, b, j);
    }
  }

  lemma PutBackShown<T>(a: seq<DecodeResult<T>>, i: nat, b: seq<DecodeResult<T>>, j: nat)
    requires i < |a| && j < |b| && a[i] == b[j]
    requires multiset(ToShow(a[..i] + a[i + 1..])) == multiset(ToShow(b[..j] + b[j + 1..]))
    ensures multiset(ToShow(a)) == multiset(ToShow(b))
  {
    ShowWithout(a, i);
    ShowWithout(b, j);
    TakeOut(ToShow(a), i);
    TakeOut(ToShow(b), j);
  }

  lemma SameWithout<T>(a: seq<T>, i: nat, b: seq<T>, j: nat)
    requires i < |a| && j < |b| && a[i] == b[j] && multiset(a) == multiset(b)
    ensures multiset(a[..i] + a[i + 1..]) == multiset(b[..j] + b[j + 1..])
  {
    var x, m, n := a[i], multiset(a[..i] + a[i + 1..]), multiset(b[..j] + b[j + 1..]);
    TakeOut(a, i);
    TakeOut(b, j);
    assert multiset{x} + m - multiset{x} == m && multiset{x} + n - multiset{x} == n;
  }

  lemma TakeOut<T>(s: seq<T>, j: nat)
    requires j < |s|
    ensures multiset(s) == multiset{s[j]} + multiset(s[..j] + s[j + 1..])
  {
    assert s == s[..j] + ([s[j]] + s[j + 1..]);
  }

  lemma ShowWithout<T>(s: seq<DecodeResult<T>>, j: nat)
    requires j < |s|
    ensures ToShow(s[..j] + s[j + 1..]) == ToShow(s)[..j] + ToShow(s)[j + 1..]
  {
  }
}
