/** The seek search of pcm/decoder.go over the frames of a clean stream: which frame the
    binary and the linear phase find. */
module SeekSearch {
  import opened Words
  import opened Cursor
  import opened HeaderSyntax
  import opened FrameSyntax
  import opened Metadata
  import opened Resync

  /** Below this many bytes the search scans frame by frame. */
  const LINEAR_WINDOW: nat := 0x1_0000

  /** The first frame from k on that starts at or behind b. */
  function FirstFrom(frames: seq<seq<byte>>, base: nat, b: nat, k: nat): (r: nat)
    requires k <= |frames|
    ensures k <= r <= |frames|
    decreases |frames| - k
  {
    if k == |frames| || StartOf(frames, base, k) >= b then k else FirstFrom(frames, base, b, k + 1)
  }

  lemma {:induction false} FirstFromIs(frames: seq<seq<byte>>, base: nat, b: nat, k: nat)
    requires k <= |frames| && (k > 0 ==> StartOf(frames, base, k - 1) < b)
    ensures FirstAt(frames, base, b, FirstFrom(frames, base, b, k))
    decreases |frames| - k
  {
    hide StartOf;
    if k < |frames| && StartOf(frames, base, k) < b { FirstFromIs(frames, base, b, k + 1); }
  }

  /** There is only one such frame. */
  lemma {:induction false} FirstUnique(frames: seq<seq<byte>>, base: nat, b: nat, j: nat, k: nat)
    requires FirstAt(frames, base, b, j) && FirstAt(frames, base, b, k)
    ensures j == k
  {
    hide StartOf;
    if j < k && j < k - 1 { StartOrder(frames, base, j, k - 1); }
    if k < j && k < j - 1 { StartOrder(frames, base, k, j - 1); }
  }

  /** The number of inter-channel samples in the first k frames. */
  function SampleOf(fs: seq<FrameBits>, k: nat): nat
    requires k <= |fs|
  {
    if k == 0 then 0 else SampleOf(fs, k - 1) + fs[k - 1].hdr.blockSize
  }

  lemma {:induction false} SampleOrder(fs: seq<FrameBits>, j: nat, k: nat)
    requires j < k <= |fs|
    ensures SampleOf(fs, j) + fs[j].hdr.blockSize <= SampleOf(fs, k)
    decreases k
  {
    if j < k - 1 { SampleOrder(fs, j, k - 1); }
  }

  /** The first sample that a frame's coded number stands for. */
  function FirstSample(h: Header, nominal: nat): nat
  {
    if h.variable then h.number else h.number * nominal
  }

  /** The coded numbers agree with the lengths of the frames before. */
  ghost predicate Contiguous(fs: seq<FrameBits>, nominal: nat)
  {
    forall k :: 0 <= k < |fs| ==> FirstSample(fs[k].hdr, nominal) == SampleOf(fs, k) && fs[k].hdr.blockSize > 0
  }

  /** A stream of variable block size, whose coded numbers are the first samples of its frames,
      meets this whatever the nominal block size. */
  lemma {:induction false} VariableIsContiguous(fs: seq<FrameBits>, nominal: nat)
    requires forall k :: 0 <= k < |fs| ==> fs[k].hdr.variable && fs[k].hdr.blockSize > 0
    ensures Contiguous(fs, nominal) <==> forall k :: 0 <= k < |fs| ==> fs[k].hdr.number == SampleOf(fs, k)
  {
    hide SampleOf;
    if Contiguous(fs, nominal) {
      forall k | 0 <= k < |fs| ensures fs[k].hdr.number == SampleOf(fs, k) {
        assert FirstSample(fs[k].hdr, nominal) == SampleOf(fs, k);
      }
    }
  }

  /** A stream of fixed block size meets it when its frames are counted and all but the last hold
      the nominal number of samples. */
  lemma {:induction false} FixedIsContiguous(fs: seq<FrameBits>, nominal: nat)
    requires nominal > 0 && forall k :: 0 <= k < |fs| ==>
      !fs[k].hdr.variable && fs[k].hdr.number == k && fs[k].hdr.blockSize > 0
    requires forall k :: 0 <= k < |fs| - 1 ==> fs[k].hdr.blockSize == nominal
    ensures Contiguous(fs, nominal)
  {
    hide SampleOf;
    forall k | 0 <= k < |fs| ensures SampleOf(fs, k) == k * nominal { FixedSamples(fs, nominal, k); }
  }

  lemma {:induction false} FixedSamples(fs: seq<FrameBits>, nominal: nat, k: nat)
    requires k < |fs| && forall j :: 0 <= j < k ==> fs[j].hdr.blockSize == nominal
    ensures SampleOf(fs, k) == k * nominal
  {
    if k > 0 {
      FixedSamples(fs, nominal, k - 1);
      Distribute(k - 1, 1, nominal);
    }
  }

  datatype Phase = Hit(k: nat) | Linear(lo: nat)

  /** The binary phase: halving the byte range by the first frame behind its middle. */
  ghost function Binary(frames: seq<seq<byte>>, base: nat, fs: seq<FrameBits>, target: nat, lo: nat,
      hi: nat): (r: Phase)
    requires |fs| == |frames|
    ensures r.Hit? ==> r.k < |frames|
    decreases Max(hi - lo, 0)
  {
    if hi - lo <= LINEAR_WINDOW then Linear(lo) else
      var mid := lo + (hi - lo) / 2;
      var k := FirstFrom(frames, base, mid, 0);
      if k == |frames| then Binary(frames, base, fs, target, lo, mid)
      else if SampleOf(fs, k) > target then
        Binary(frames, base, fs, target, lo, if StartOf(frames, base, k) >= hi then mid else StartOf(frames, base, k))
      else if target >= SampleOf(fs, k + 1) then
        StartNext(frames, base, k);
        FirstReached(frames, base, mid, 0);
        Binary(frames, base, fs, target, StartOf(frames, base, k + 1), hi)
      else Hit(k)
  }

  lemma {:induction false} FirstReached(frames: seq<seq<byte>>, base: nat, b: nat, k: nat)
    requires k <= |frames|
    ensures var r := FirstFrom(frames, base, b, k); r < |frames| ==> StartOf(frames, base, r) >= b
    decreases |frames| - k
  {
    hide StartOf;
    if k < |frames| && StartOf(frames, base, k) < b { FirstReached(frames, base, b, k + 1); }
  }

  /** The linear phase: the first frame from k on that ends behind the target. */
  function Scan(fs: seq<FrameBits>, target: nat, k: nat): (r: nat)
    requires k <= |fs|
    ensures k <= r <= |fs|
    decreases |fs| - k
  {
    if k == |fs| || target < SampleOf(fs, k + 1) then k else Scan(fs, target, k + 1)
  }

  /** The frame the search lands on; |frames| when there is none. */
  ghost function Lands(frames: seq<seq<byte>>, base: nat, fs: seq<FrameBits>, target: nat, lo: nat, hi: nat): nat
    requires |fs| == |frames|
  {
    match Binary(frames, base, fs, target, lo, hi)
    case Hit(k) => k
    case Linear(l) => Scan(fs, target, FirstFrom(frames, base, l, 0))
  }

  /** Frame t holds the target sample. */
  ghost predicate Holds(fs: seq<FrameBits>, target: nat, t: nat)
  {
    t < |fs| && SampleOf(fs, t) <= target < SampleOf(fs, t + 1)
  }

  /** Every sample of the stream is in one of its frames. */
  lemma {:induction false} Holder(fs: seq<FrameBits>, target: nat, k: nat) returns (t: nat)
    requires k <= |fs| && target < SampleOf(fs, k)
    ensures Holds(fs, target, t)
  {
    if target >= SampleOf(fs, k - 1) { t := k - 1; } else { t := Holder(fs, target, k - 1); }
  }

  lemma {:induction false} HoldsOne(fs: seq<FrameBits>, target: nat, t: nat, k: nat)
    requires Holds(fs, target, t) && k < |fs|
    ensures SampleOf(fs, k) > target ==> t < k
    ensures target >= SampleOf(fs, k + 1) ==> k < t
    ensures Holds(fs, target, k) ==> k == t
  {
    if t < k { SampleOrder(fs, t, k); }
    if k < t { SampleOrder(fs, k, t); }
  }

  lemma {:induction false} ScanFinds(fs: seq<FrameBits>, target: nat, t: nat, k: nat)
    requires Holds(fs, target, t) && k <= t
    ensures Scan(fs, target, k) == t
    decreases t - k
  {
    hide SampleOf;
    HoldsOne(fs, target, t, k);
    if k < t {
      Later(fs, target, t, k);
      ScanFinds(fs, target, t, k + 1);
    }
  }

  lemma {:induction false} Later(fs: seq<FrameBits>, target: nat, t: nat, k: nat)
    requires Holds(fs, target, t) && k < t
    ensures target >= SampleOf(fs, k + 1)
  {
    SampleOrder(fs, k, t);
  }

  /** The search keeps the start of the target frame inside its window and returns that
      frame. */
  lemma {:induction false} SearchFinds(frames: seq<seq<byte>>, base: nat, fs: seq<FrameBits>, target: nat, lo: nat,
      hi: nat, t: nat)
    requires |fs| == |frames| && Holds(fs, target, t) && lo <= StartOf(frames, base, t) < hi && frames[t] != []
    ensures Lands(frames, base, fs, target, lo, hi) == t
    decreases Max(hi - lo, 0)
  {
    hide StartOf, SampleOf, Scan;
    if hi - lo <= LINEAR_WINDOW {
      FirstBefore(frames, base, lo, 0, t);
      ScanFinds(fs, target, t, FirstFrom(frames, base, lo, 0));
    } else {
      var mid := lo + (hi - lo) / 2;
      var k := FirstFrom(frames, base, mid, 0);
      FirstReached(frames, base, mid, 0);
      if StartOf(frames, base, t) >= mid { FirstBefore(frames, base, mid, 0, t); }
      if k == |frames| {
        SearchFinds(frames, base, fs, target, lo, mid, t);
      } else {
        HoldsOne(fs, target, t, k);
        StartNext(frames, base, k);
        if SampleOf(fs, k) > target {
          StartBefore(frames, base, t, k);
          SearchFinds(frames, base, fs, target, lo, if StartOf(frames, base, k) >= hi then mid
            else StartOf(frames, base, k), t);
        } else if target >= SampleOf(fs, k + 1) {
          StartAfter(frames, base, k, t);
          SearchFinds(frames, base, fs, target, StartOf(frames, base, k + 1), hi, t);
        }
      }
    }
  }

  /** A frame that starts at or behind b is not before the first one that does. */
  lemma {:induction false} FirstBefore(frames: seq<seq<byte>>, base: nat, b: nat, k: nat, t: nat)
    requires k <= t < |frames| && StartOf(frames, base, t) >= b
    ensures FirstFrom(frames, base, b, k) <= t
    decreases t - k
  {
    hide StartOf;
    if StartOf(frames, base, k) < b { FirstBefore(frames, base, b, k + 1, t); }
  }

  lemma {:induction false} StartBefore(frames: seq<seq<byte>>, base: nat, j: nat, k: nat)
    requires j < k <= |frames| && frames[j] != []
    ensures StartOf(frames, base, j) < StartOf(frames, base, k)
  {
    StartOrder(frames, base, j, k);
  }

  lemma {:induction false} StartAfter(frames: seq<seq<byte>>, base: nat, k: nat, t: nat)
    requires k < t < |frames|
    ensures StartOf(frames, base, k + 1) <= StartOf(frames, base, t)
  {
    if k + 1 < t { StartOrder(frames, base, k + 1, t); }
  }

  // ---- past the last frame ----

  /** What the search reports as the end of the stream when no frame holds the target: the
      end of the last frame the linear phase decoded, 0 if it decoded none. */
  ghost function EndSample(frames: seq<seq<byte>>, base: nat, fs: seq<FrameBits>, target: nat, lo: nat, hi: nat): nat
    requires |fs| == |frames|
  {
    match Binary(frames, base, fs, target, lo, hi)
    case Hit(k) => 0
    case Linear(l) => if FirstFrom(frames, base, l, 0) < |frames| then SampleOf(fs, |fs|) else 0
  }

  lemma {:induction false} NeverHit(frames: seq<seq<byte>>, base: nat, fs: seq<FrameBits>, target: nat, lo: nat,
      hi: nat)
    requires |fs| == |frames| && target >= SampleOf(fs, |fs|)
    ensures Binary(frames, base, fs, target, lo, hi).Linear?
    decreases Max(hi - lo, 0)
  {
    hide StartOf, SampleOf;
    if hi - lo > LINEAR_WINDOW {
      var mid := lo + (hi - lo) / 2;
      var k := FirstFrom(frames, base, mid, 0);
      FirstReached(frames, base, mid, 0);
      if k == |frames| {
        NeverHit(frames, base, fs, target, lo, mid);
      } else {
        StartNext(frames, base, k);
        AllBefore(fs, target, k);
        NeverHit(frames, base, fs, target, StartOf(frames, base, k + 1), hi);
      }
    }
  }

  lemma {:induction false} AllBefore(fs: seq<FrameBits>, target: nat, k: nat)
    requires k < |fs| && target >= SampleOf(fs, |fs|)
    ensures target >= SampleOf(fs, k + 1) >= SampleOf(fs, k)
  {
    SampleOrder(fs, k, |fs|);
  }

  lemma {:induction false} ScanEnds(fs: seq<FrameBits>, target: nat, k: nat)
    requires k <= |fs| && target >= SampleOf(fs, |fs|)
    ensures Scan(fs, target, k) == |fs|
    decreases |fs| - k
  {
    hide SampleOf;
    if k < |fs| {
      AllBefore(fs, target, k);
      ScanEnds(fs, target, k + 1);
    }
  }

  /** Past the end the search lands on no frame. */
  lemma {:induction false} PastEnd(frames: seq<seq<byte>>, base: nat, fs: seq<FrameBits>, target: nat, lo: nat, hi: nat)
    requires |fs| == |frames| && target >= SampleOf(fs, |fs|)
    ensures Lands(frames, base, fs, target, lo, hi) == |fs|
  {
    hide StartOf, SampleOf, Scan, Binary;
    NeverHit(frames, base, fs, target, lo, hi);
    ScanEnds(fs, target, FirstFrom(frames, base, Binary(frames, base, fs, target, lo, hi).lo, 0));
  }

  /** The places that the binary phase probes on its way to a target behind every frame:
      halvings of the byte range, from the frame offsets alone. */
  ghost function Midpoints(frames: seq<seq<byte>>, base: nat, lo: nat, hi: nat): seq<nat>
    decreases Max(hi - lo, 0)
  {
    if hi - lo <= LINEAR_WINDOW then [] else
      var mid := lo + (hi - lo) / 2;
      var k := FirstFrom(frames, base, mid, 0);
      [mid] + if k == |frames| then Midpoints(frames, base, lo, mid) else
        StartNext(frames, base, k);
        FirstReached(frames, base, mid, 0);
        Midpoints(frames, base, StartOf(frames, base, k + 1), hi)
  }

  /** Probing at m finds the last frame: m is behind the start of the one before it. */
  ghost predicate HitsLast(frames: seq<seq<byte>>, base: nat, m: nat)
  {
    |frames| >= 2 && StartOf(frames, base, |frames| - 2) < m <= StartOf(frames, base, |frames| - 1)
  }

  /** No probe finds the last frame. */
  ghost predicate KeepsCount(frames: seq<seq<byte>>, base: nat, lo: nat, hi: nat)
  {
    forall m :: m in Midpoints(frames, base, lo, hi) ==> !HitsLast(frames, base, m)
  }

  /** Past the end the search reports the number of samples in the stream exactly when no
      probe of the binary phase finds the last frame. */
  lemma {:induction false} PastEndExactly(frames: seq<seq<byte>>, base: nat, fs: seq<FrameBits>, target: nat, lo: nat,
      hi: nat)
    requires |fs| == |frames| >= 1 && target >= SampleOf(fs, |fs|)
      && (forall k :: 0 <= k < |frames| ==> frames[k] != [])
    requires base <= lo <= StartOf(frames, base, |frames| - 1)
    ensures EndSample(frames, base, fs, target, lo, hi) == if KeepsCount(frames, base, lo, hi) then SampleOf(fs, |fs|)
      else 0
    decreases Max(hi - lo, 0)
  {
    hide StartOf, SampleOf, Binary, Midpoints, HitsLast;
    var n := |frames|;
    if hi - lo <= LINEAR_WINDOW {
      FirstBefore(frames, base, lo, 0, n - 1);
      BinaryEnd(frames, base, fs, target, lo, hi);
      NoMidpoint(frames, base, lo, hi);
    } else {
      var mid := lo + (hi - lo) / 2;
      var k := FirstFrom(frames, base, mid, 0);
      MidpointsStep(frames, base, lo, hi);
      HitsLastIs(frames, base, lo, mid);
      BinaryPast(frames, base, fs, target, lo, hi);
      if k == n {
        PastEndExactly(frames, base, fs, target, lo, mid);
      } else if k == n - 1 {
        StartBelow(frames, base, k, n);
        Lost(frames, base, fs, target, StartOf(frames, base, n), hi);
      } else {
        if k + 1 < n - 1 { StartOrder(frames, base, k + 1, n - 1); }
        StartNext(frames, base, k);
        FirstReached(frames, base, mid, 0);
        PastEndExactly(frames, base, fs, target, StartOf(frames, base, k + 1), hi);
      }
    }
  }

  lemma {:induction false} NoMidpoint(frames: seq<seq<byte>>, base: nat, lo: nat, hi: nat)
    requires hi - lo <= LINEAR_WINDOW
    ensures Midpoints(frames, base, lo, hi) == []
  {
  }

  lemma {:induction false} MidpointsStep(frames: seq<seq<byte>>, base: nat, lo: nat, hi: nat)
    requires hi - lo > LINEAR_WINDOW
    ensures var mid := lo + (hi - lo) / 2;
      var k := FirstFrom(frames, base, mid, 0);
      var rest := if k == |frames| then Midpoints(frames, base, lo, mid)
        else Midpoints(frames, base, StartOf(frames, base, k + 1), hi);
      forall m :: m in Midpoints(frames, base, lo, hi) <==> m == mid || m in rest
  {
    hide StartOf;
  }

  /** A probe finds the last frame exactly when it is such a place. */
  lemma {:induction false} HitsLastIs(frames: seq<seq<byte>>, base: nat, lo: nat, mid: nat)
    requires |frames| >= 1 && base <= lo < mid
    ensures HitsLast(frames, base, mid) <==> FirstFrom(frames, base, mid, 0) == |frames| - 1
  {
    hide StartOf;
    var n, k := |frames|, FirstFrom(frames, base, mid, 0);
    FirstReached(frames, base, mid, 0);
    FirstFromIs(frames, base, mid, 0);
    StartZero(frames, base);
    if n >= 2 && k < n - 2 { StartOrder(frames, base, k, n - 2); }
  }

  /** One step of the binary phase past the end. */
  lemma {:induction false} BinaryPast(frames: seq<seq<byte>>, base: nat, fs: seq<FrameBits>, target: nat, lo: nat,
      hi: nat)
    requires |fs| == |frames| && target >= SampleOf(fs, |fs|) && hi - lo > LINEAR_WINDOW
    ensures var mid := lo + (hi - lo) / 2;
      var k := FirstFrom(frames, base, mid, 0);
      Binary(frames, base, fs, target, lo, hi)
        == if k == |frames| then Binary(frames, base, fs, target, lo, mid)
          else Binary(frames, base, fs, target, StartOf(frames, base, k + 1), hi)
  {
    hide StartOf, SampleOf, Binary;
    BinaryStep(frames, base, fs, target, lo, hi);
    var k := FirstFrom(frames, base, lo + (hi - lo) / 2, 0);
    if k < |frames| {
      AllBefore(fs, target, k);
      ScanStep(fs, target, k);
    }
  }

  /** Once the lower bound is behind the last frame start nothing is decoded any more. */
  lemma {:induction false} Lost(frames: seq<seq<byte>>, base: nat, fs: seq<FrameBits>, target: nat, lo: nat, hi: nat)
    requires |fs| == |frames| >= 1 && StartOf(frames, base, |frames| - 1) < lo
    ensures EndSample(frames, base, fs, target, lo, hi) == 0
    decreases Max(hi - lo, 0)
  {
    hide StartOf, SampleOf;
    NoneFrom(frames, base, lo, 0);
    if hi - lo > LINEAR_WINDOW {
      NoneFrom(frames, base, lo + (hi - lo) / 2, 0);
      Lost(frames, base, fs, target, lo, lo + (hi - lo) / 2);
    }
  }

  lemma {:induction false} NoneFrom(frames: seq<seq<byte>>, base: nat, b: nat, k: nat)
    requires k <= |frames| && |frames| >= 1 && StartOf(frames, base, |frames| - 1) < b
    ensures FirstFrom(frames, base, b, k) == |frames|
    decreases |frames| - k
  {
    hide StartOf;
    if k < |frames| {
      if k < |frames| - 1 { StartOrder(frames, base, k, |frames| - 1); }
      NoneFrom(frames, base, b, k + 1);
    }
  }

  /** The count is kept when the last two frames together take at most 32 KiB and a byte, or
      there is only one frame. */
  lemma {:induction false} SmallFramesKeepCount(frames: seq<seq<byte>>, base: nat, lo: nat, hi: nat)
    requires |frames| >= 1 && base <= lo <= StartOf(frames, base, |frames| - 1)
    requires |frames| >= 2 ==>
      hi == StartOf(frames, base, |frames|) && |frames[|frames| - 1]| + |frames[|frames| - 2]| <= 0x8001
    ensures KeepsCount(frames, base, lo, hi)
    decreases Max(hi - lo, 0)
  {
    hide StartOf, Midpoints;
    var n := |frames|;
    if hi - lo <= LINEAR_WINDOW { NoMidpoint(frames, base, lo, hi); }
    if n >= 2 && hi - lo > LINEAR_WINDOW {
      StartNext(frames, base, n - 1);
      StartNext(frames, base, n - 2);
      var mid := lo + (hi - lo) / 2;
      var k := FirstFrom(frames, base, mid, 0);
      FirstBefore(frames, base, mid, 0, n - 2);
      if k + 1 < n - 1 { StartOrder(frames, base, k + 1, n - 1); }
      StartNext(frames, base, k);
      FirstReached(frames, base, mid, 0);
      MidpointsStep(frames, base, lo, hi);
      SmallFramesKeepCount(frames, base, StartOf(frames, base, k + 1), hi);
    }
  }

  lemma {:induction false} StartZero(frames: seq<seq<byte>>, base: nat)
    ensures StartOf(frames, base, 0) == base
  {
    assert frames[..0] == [];
  }

  /** One probe at m in the middle of the whole stream loses the count. */
  lemma {:induction false} FirstProbeLoses(frames: seq<seq<byte>>, base: nat, hi: nat)
    requires hi >= base && hi - base > LINEAR_WINDOW && HitsLast(frames, base, base + (hi - base) / 2)
    ensures !KeepsCount(frames, base, base, hi)
  {
    hide StartOf, Midpoints;
    MidpointsStep(frames, base, base, hi);
  }

  /** One byte more is too much: three frames of 32767, 16385 and 16385 bytes. */
  lemma {:induction false} SmallFramesTight(frames: seq<seq<byte>>, base: nat)
    requires |frames| == 3 && |frames[0]| == 32767 && |frames[1]| == |frames[2]| == 16385
    ensures |frames[1]| + |frames[2]| == 0x8002 && StartOf(frames, base, 3) == base + 65537
    ensures !KeepsCount(frames, base, base, StartOf(frames, base, 3))
  {
    hide StartOf;
    StartZero(frames, base);
    StartNext(frames, base, 0);
    StartNext(frames, base, 1);
    StartNext(frames, base, 2);
    FirstProbeLoses(frames, base, base + 65537);
  }

  /** Two frames of 50000 and 40000 bytes: the binary phase probes the last frame, moves its
      lower bound to the end of the stream, and the count is lost. */
  lemma {:induction false} PastEndLosesCount(frames: seq<seq<byte>>, base: nat)
    requires |frames| == 2 && |frames[0]| == 50000 && |frames[1]| == 40000
    ensures StartOf(frames, base, 2) == base + 90000 && !KeepsCount(frames, base, base, StartOf(frames, base, 2))
  {
    hide StartOf;
    StartZero(frames, base);
    StartNext(frames, base, 0);
    StartNext(frames, base, 1);
    FirstProbeLoses(frames, base, base + 90000);
  }

  // ---- the seek table ----

  /** Every point names the start and the first sample of some frame. */
  ghost predicate SoundPoint(p: SeekPoint, frames: seq<seq<byte>>, fs: seq<FrameBits>)
  {
    |fs| == |frames| && exists k :: 0 <= k < |frames| && PointOf(p, frames, fs, k)
  }

  ghost predicate PointOf(p: SeekPoint, frames: seq<seq<byte>>, fs: seq<FrameBits>, k: nat)
    requires k < |frames| == |fs|
  {
    p.byteOffset == StartOf(frames, 0, k) && p.sampleNumber == SampleOf(fs, k)
  }

  /** Narrowing by a sound point keeps the start of the target frame inside. */
  lemma {:induction false} PointKeeps(p: SeekPoint, frames: seq<seq<byte>>, fs: seq<FrameBits>, base: nat, target: nat,
      t: nat)
    requires SoundPoint(p, frames, fs) && Holds(fs, target, t) && forall k :: 0 <= k < |frames| ==> frames[k] != []
    ensures p.sampleNumber <= target ==> base + p.byteOffset <= StartOf(frames, base, t)
    ensures p.sampleNumber > target ==> StartOf(frames, base, t) < base + p.byteOffset
  {
    hide StartOf, SampleOf;
    var k :| 0 <= k < |frames| && PointOf(p, frames, fs, k);
    HoldsOne(fs, target, t, k);
    Rebased(frames, base, k);
    if t < k {
      SampleAfter(fs, target, t, k);
      StartBefore(frames, base, t, k);
    } else if k < t {
      StartBefore(frames, base, k, t);
    }
  }

  lemma {:induction false} SampleAfter(fs: seq<FrameBits>, target: nat, t: nat, k: nat)
    requires Holds(fs, target, t) && t < k <= |fs|
    ensures SampleOf(fs, k) > target
  {
    SampleOrder(fs, t, k);
  }

  lemma {:induction false} Rebased(frames: seq<seq<byte>>, base: nat, k: nat)
    requires k <= |frames|
    ensures StartOf(frames, base, k) == base + StartOf(frames, 0, k)
  {
  }

  /** Go's int64 reading of a 64-bit number. */
  function Signed64(v: nat): int
  {
    if v < 0x1_0000_0000_0000_0000 then Signed(v, 64) else v
  }

  lemma {:induction false} SmallOffset(v: nat)
    ensures v < 0x8000_0000_0000_0000 ==> Signed64(v) == v
    ensures 0x8000_0000_0000_0000 <= v < 0x1_0000_0000_0000_0000 ==> Signed64(v) == v - 0x1_0000_0000_0000_0000
    ensures Signed64(v) >= 0 ==> Signed64(v) == v
  {
    Pow2Values();
  }

  /** The point lies in the audio. */
  predicate Usable(p: SeekPoint, base: nat, end: nat)
  {
    0 <= Signed64(p.byteOffset) <= end - base
  }

  /** The lower bound after looking at the points in order: the largest offset of one that is
      not behind the target. */
  function TableLo(points: seq<SeekPoint>, base: nat, end: nat, target: nat, lo: nat): (l: nat)
    ensures l >= lo
  {
    if points == [] then lo else
      var l, p := TableLo(points[..|points| - 1], base, end, target, lo), points[|points| - 1];
      if Usable(p, base, end) && Signed64(p.sampleNumber) <= target && base + p.byteOffset > l then base + p.byteOffset
        else l
  }

  function TableHi(points: seq<SeekPoint>, base: nat, end: nat, target: nat, hi: nat): (h: nat)
    ensures h <= hi
  {
    if points == [] then hi else
      var h, p := TableHi(points[..|points| - 1], base, end, target, hi), points[|points| - 1];
      if Usable(p, base, end) && Signed64(p.sampleNumber) > target && base + p.byteOffset < h then base + p.byteOffset
        else h
  }

  predicate SmallPoint(p: SeekPoint)
  {
    p.sampleNumber < 0x8000_0000_0000_0000 && p.byteOffset < 0x8000_0000_0000_0000
  }

  /** Every point names a frame, and no number in it passes the signed range. */
  ghost predicate SoundTable(points: seq<SeekPoint>, frames: seq<seq<byte>>, fs: seq<FrameBits>)
  {
    && |fs| == |frames| && (forall k :: 0 <= k < |frames| ==> frames[k] != [])
    && forall i :: 0 <= i < |points| ==> SoundPoint(points[i], frames, fs) && SmallPoint(points[i])
  }

  /** A sound table keeps the start of the target frame inside the bounds. */
  lemma {:induction false} TableKeeps(points: seq<SeekPoint>, frames: seq<seq<byte>>, fs: seq<FrameBits>, base: nat,
      end: nat, target: nat, t: nat, lo: nat, hi: nat)
    requires SoundTable(points, frames, fs) && Holds(fs, target, t) && lo <= StartOf(frames, base, t) < hi
    ensures TableLo(points, base, end, target, lo) <= StartOf(frames, base, t) < TableHi(points, base, end, target, hi)
    decreases |points|
  {
    hide StartOf, SampleOf, SoundPoint, Signed64;
    if points != [] {
      var p := points[|points| - 1];
      TableKeeps(points[..|points| - 1], frames, fs, base, end, target, t, lo, hi);
      PointKeeps(p, frames, fs, base, target, t);
      SmallOffset(p.sampleNumber);
    }
  }

  /** For a target behind every frame it leaves a frame to scan and the upper bound alone. */
  lemma {:induction false} TablePastEnd(points: seq<SeekPoint>, frames: seq<seq<byte>>, fs: seq<FrameBits>, base: nat,
      end: nat, target: nat, lo: nat, hi: nat)
    requires SoundTable(points, frames, fs) && target >= SampleOf(fs, |fs|) && |frames| >= 1
      && lo <= StartOf(frames, base, |frames| - 1)
    ensures TableLo(points, base, end, target, lo) <= StartOf(frames, base, |frames| - 1)
      && TableHi(points, base, end, target, hi) == hi
    decreases |points|
  {
    hide StartOf, SampleOf, SoundPoint, Signed64;
    if points != [] {
      var p := points[|points| - 1];
      TablePastEnd(points[..|points| - 1], frames, fs, base, end, target, lo, hi);
      PointBehind(p, frames, fs, base, target);
      SmallOffset(p.sampleNumber);
    }
  }

  lemma {:induction false} PointNeedsFrame(points: seq<SeekPoint>, frames: seq<seq<byte>>, fs: seq<FrameBits>, i: nat)
    requires SoundTable(points, frames, fs) && i < |points|
    ensures |frames| > 0
  {
    assert SoundPoint(points[i], frames, fs);
  }

  lemma {:induction false} NoPoints(points: seq<SeekPoint>, fs: seq<FrameBits>)
    requires SoundTable(points, [], fs)
    ensures points == []
  {
    hide SoundTable;
    if points != [] { PointNeedsFrame(points, [], fs, 0); }
  }

  /** The lower bound is never behind the last whole frame. */
  lemma {:induction false} TableInside(points: seq<SeekPoint>, frames: seq<seq<byte>>, fs: seq<FrameBits>, base: nat,
      end: nat, target: nat)
    requires SoundTable(points, frames, fs)
    ensures base <= TableLo(points, base, end, target, base) <= StartOf(frames, base, |frames|)
    decreases |points|
  {
    hide StartOf, SampleOf, SoundPoint, Signed64;
    StartZero(frames, base);
    if points == [] {
      if |frames| > 0 { StartOrder(frames, base, 0, |frames|); }
    } else {
      TableInside(points[..|points| - 1], frames, fs, base, end, target);
      PointInside(points[|points| - 1], frames, fs, base);
    }
  }

  lemma {:induction false} PointInside(p: SeekPoint, frames: seq<seq<byte>>, fs: seq<FrameBits>, base: nat)
    requires SoundPoint(p, frames, fs)
    ensures base + p.byteOffset <= StartOf(frames, base, |frames|)
  {
    hide StartOf, SampleOf;
    var k :| 0 <= k < |frames| && PointOf(p, frames, fs, k);
    Rebased(frames, base, k);
    StartOrder(frames, base, k, |frames|);
  }

  lemma {:induction false} PointBehind(p: SeekPoint, frames: seq<seq<byte>>, fs: seq<FrameBits>, base: nat, target: nat)
    requires SoundPoint(p, frames, fs) && target >= SampleOf(fs, |fs|)
    ensures p.sampleNumber <= target && base + p.byteOffset <= StartOf(frames, base, |frames| - 1)
  {
    hide StartOf, SampleOf;
    var k :| 0 <= k < |frames| && PointOf(p, frames, fs, k);
    AllBefore(fs, target, k);
    Rebased(frames, base, k);
    if k < |frames| - 1 { StartOrder(frames, base, k, |frames| - 1); }
  }

  // ---- single steps of the search ----

  /** One step of the binary phase. */
  lemma {:induction false} BinaryStep(frames: seq<seq<byte>>, base: nat, fs: seq<FrameBits>, target: nat, lo: nat,
      hi: nat)
    requires |fs| == |frames| && hi - lo > LINEAR_WINDOW
    ensures var mid := lo + (hi - lo) / 2;
      var k := FirstFrom(frames, base, mid, 0);
      Binary(frames, base, fs, target, lo, hi) ==
        if k == |frames| then Binary(frames, base, fs, target, lo, mid)
        else if SampleOf(fs, k) > target then
          Binary(frames, base, fs, target, lo, if StartOf(frames, base, k) >= hi then mid else StartOf(frames, base, k))
        else if target >= SampleOf(fs, k) + fs[k].hdr.blockSize then
          Binary(frames, base, fs, target, StartOf(frames, base, k + 1), hi)
        else Hit(k)
  {
    hide StartOf;
  }

  lemma {:induction false} BinaryEnd(frames: seq<seq<byte>>, base: nat, fs: seq<FrameBits>, target: nat, lo: nat,
      hi: nat)
    requires |fs| == |frames| && hi - lo <= LINEAR_WINDOW
    ensures Binary(frames, base, fs, target, lo, hi) == Linear(lo)
  {
  }

  lemma {:induction false} ScanStep(fs: seq<FrameBits>, target: nat, k: nat)
    requires k < |fs|
    ensures Scan(fs, target, k) == if target < SampleOf(fs, k) + fs[k].hdr.blockSize then k else Scan(fs, target, k + 1)
    ensures SampleOf(fs, k + 1) == SampleOf(fs, k) + fs[k].hdr.blockSize
  {
  }

  /** The first frame at or behind the start of frame k is frame k. */
  lemma {:induction false} FirstAtStart(frames: seq<seq<byte>>, base: nat, k: nat)
    requires k <= |frames| && forall j :: 0 <= j < |frames| ==> frames[j] != []
    ensures FirstFrom(frames, base, StartOf(frames, base, k), 0) == k
  {
    hide StartOf;
    if k < |frames| { StartBelow(frames, base, k, |frames|); }
    FirstFromIs(frames, base, StartOf(frames, base, k), 0);
    if k > 0 { StartBelow(frames, base, k - 1, k); }
    FirstUnique(frames, base, StartOf(frames, base, k), k, FirstFrom(frames, base, StartOf(frames, base, k), 0));
  }

  lemma {:induction false} StartBelow(frames: seq<seq<byte>>, base: nat, j: nat, k: nat)
    requires j < k <= |frames| && frames[j] != []
    ensures StartOf(frames, base, j) < StartOf(frames, base, k)
  {
    StartOrder(frames, base, j, k);
  }
}
