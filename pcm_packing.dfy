/** Packing buffered Float32 frames into one Int16 PCM array, as the flush
    branch of RecorderWorklet.process does (static/recorder-worklet.js:17-25). */
module PcmPacking {

  /** A value an Int16Array slot can hold. */
  type Int16 = x: int | -0x8000 <= x < 0x8000

  /** Slots allotted per buffered frame when the PCM array is sized. */
  const SamplesPerFrame: nat := 256

  /** The samples of consecutive frames laid end to end, in order. */
  function Flatten<T>(frames: seq<seq<T>>): seq<T>
  {
    if frames == [] then [] else Flatten(frames[..|frames| - 1]) + frames[|frames| - 1]
  }

  /** An Int16Array of n zeroed slots after the samples of `flat` were written to
      offsets 0, 1, 2, ... in order, each converted by `convert`; a write at an
      offset at or beyond n is dropped, as a typed array drops it. */
  function Layout<S>(flat: seq<S>, n: nat, convert: S -> Int16): seq<int>
  {
    seq(n, j requires 0 <= j < n => if j < |flat| then convert(flat[j]) else 0)
  }

  /** The PCM array the flush branch posts for the buffered `frames`: it is sized
      by the number of frames, not by the number of samples they hold. */
  function Pcm<S>(frames: seq<seq<S>>, convert: S -> Int16): seq<int>
  {
    Layout(Flatten(frames), |frames| * SamplesPerFrame, convert)
  }

  lemma {:induction false} FlattenAppend<T>(a: seq<seq<T>>, b: seq<seq<T>>)
    ensures Flatten(a + b) == Flatten(a) + Flatten(b)
    decreases |b|
  {
    if b == [] {
      assert a + b == a;
    } else {
      var b' := b[..|b| - 1];
      assert (a + b)[..|a + b| - 1] == a + b';
      FlattenAppend(a, b');
    }
  }

  /** Sample i of frame k sits at the offset equal to the number of samples in the
      frames before k, plus i. */
  lemma {:induction false} FlattenAt<T>(frames: seq<seq<T>>, k: nat, i: nat)
    requires k < |frames| && i < |frames[k]|
    ensures |Flatten(frames[..k])| + i < |Flatten(frames)|
    ensures Flatten(frames)[|Flatten(frames[..k])| + i] == frames[k][i]
    decreases |frames|
  {
    var init := frames[..|frames| - 1];
    if k == |frames| - 1 {
      assert init == frames[..k];
    } else {
      assert init[..k] == frames[..k];
      FlattenAt(init, k, i);
    }
  }

  /** When every frame holds `len` samples, the frames hold |frames| * len samples. */
  lemma {:induction false} FlattenUniform<T>(frames: seq<seq<T>>, len: nat)
    requires forall k :: 0 <= k < |frames| ==> |frames[k]| == len
    ensures |Flatten(frames)| == |frames| * len
    decreases |frames|
  {
    if frames != [] {
      FlattenUniform(frames[..|frames| - 1], len);
    }
  }

  /** Writing one more sample at the next offset updates that slot if it exists
      and leaves the array as it was otherwise. */
  lemma LayoutSnoc<S>(done: seq<S>, x: S, n: nat, convert: S -> Int16)
    ensures |done| < n ==> Layout(done + [x], n, convert) == Layout(done, n, convert)[|done| := convert(x)]
    ensures |done| >= n ==> Layout(done + [x], n, convert) == Layout(done, n, convert)
  {
  }

  /** The posted array has one slot group of SamplesPerFrame per buffered frame,
      every slot is an Int16 value, and every slot past the last input sample is 0. */
  lemma PcmShape<S>(frames: seq<seq<S>>, convert: S -> Int16)
    ensures |Pcm(frames, convert)| == |frames| * SamplesPerFrame
    ensures forall j :: 0 <= j < |Pcm(frames, convert)| ==> -0x8000 <= Pcm(frames, convert)[j] < 0x8000
    ensures forall j :: |Flatten(frames)| <= j < |Pcm(frames, convert)| ==> Pcm(frames, convert)[j] == 0
  {
  }

  /** Packing is in arrival order: sample i of frame k is converted and stored at
      the offset that counts every sample of the earlier frames, unless that
      offset is past the end of the array. */
  lemma PcmFrameSample<S>(frames: seq<seq<S>>, convert: S -> Int16, k: nat, i: nat)
    requires k < |frames| && i < |frames[k]|
    requires |Flatten(frames[..k])| + i < |frames| * SamplesPerFrame
    ensures Pcm(frames, convert)[|Flatten(frames[..k])| + i] == convert(frames[k][i])
  {
    FlattenAt(frames, k, i);
  }

  /** With frames of exactly SamplesPerFrame samples every slot carries a sample:
      the array is the converted samples, with no zero padding. */
  lemma PcmFullFrames<S>(frames: seq<seq<S>>, convert: S -> Int16)
    requires forall k :: 0 <= k < |frames| ==> |frames[k]| == SamplesPerFrame
    ensures |Pcm(frames, convert)| == |Flatten(frames)|
    ensures forall j :: 0 <= j < |Flatten(frames)| ==> Pcm(frames, convert)[j] == convert(Flatten(frames)[j])
  {
    FlattenUniform(frames, SamplesPerFrame);
  }

  /** With frames of 128 samples (the Web Audio render quantum) only the first
      half of the array carries samples and the second half stays 0. */
  lemma PcmHalfFrames<S>(frames: seq<seq<S>>, convert: S -> Int16)
    requires forall k :: 0 <= k < |frames| ==> |frames[k]| == 128
    ensures |Flatten(frames)| == |frames| * 128
    ensures forall j :: 0 <= j < |frames| * 128 ==> Pcm(frames, convert)[j] == convert(Flatten(frames)[j])
    ensures forall j :: |frames| * 128 <= j < |frames| * SamplesPerFrame ==> Pcm(frames, convert)[j] == 0
  {
    FlattenUniform(frames, 128);
  }

  /** The packing loop: a zeroed array of |frames| * SamplesPerFrame slots, filled
      by a running `offset` that counts the samples copied so far. */
  method Pack<S>(frames: seq<seq<S>>, convert: S -> Int16) returns (pcm: array<int>)
    ensures pcm[..] == Pcm(frames, convert)
  {
    var samples := |frames| * SamplesPerFrame;
    pcm := new int[samples](_ => 0);
    var offset := 0;
    for k := 0 to |frames|
      invariant offset == |Flatten(frames[..k])|
      invariant pcm.Length == samples
      invariant pcm[..] == Layout(Flatten(frames[..k]), samples, convert)
    {
      var chunk := frames[k];
      for i := 0 to |chunk|
        invariant offset == |Flatten(frames[..k])| + i
        invariant pcm[..] == Layout(Flatten(frames[..k]) + chunk[..i], samples, convert)
      {
        LayoutSnoc(Flatten(frames[..k]) + chunk[..i], chunk[i], samples, convert);
        assert chunk[..i + 1] == chunk[..i] + [chunk[i]];
        if offset < pcm.Length {
          pcm[offset] := convert(chunk[i]);
        }
        offset := offset + 1;
      }
      assert chunk[..|chunk|] == chunk;
      assert frames[..k + 1][..k] == frames[..k];
    }
    assert frames[..|frames|] == frames;
  }
}
