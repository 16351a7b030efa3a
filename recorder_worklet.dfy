/** The accumulate-and-flush state machine of RecorderWorklet
    (static/recorder-worklet.js:1-33): each render call that has a first channel
    appends a copy of it to `_buffer`; the call that brings the buffer to
    FlushFrames frames packs them into one Int16 PCM array, posts it and empties
    the buffer. */
module Recorder {
  import opened Wrappers
  import opened PcmPacking

  /** Number of buffered frames that triggers a flush. */
  const FlushFrames: nat := 48

  /** Length of every posted PCM array: 48 * 256 slots. */
  const MessageLength: nat := 12288

  /** The buffer after one call, and the message that call posted, if any. */
  datatype Step<S> = Step(buffer: seq<seq<S>>, message: Option<seq<int>>)

  /** The messages a step adds to the log of posted messages. */
  function Posted(message: Option<seq<int>>): seq<seq<int>>
  {
    if message.Some? then [message.value] else []
  }

  /** One call of `process` on the buffer contents `buffer`. */
  function Next<S>(buffer: seq<seq<S>>, channel: Option<seq<S>>, convert: S -> Int16): Step<S>
  {
    match channel
    case None => Step(buffer, None)
    case Some(frame) =>
      var grown := buffer + [frame];
      if |grown| >= FlushFrames then Step([], Some(Pcm(grown, convert))) else Step(grown, None)
  }

  /** The buffer after a series of calls, and every message they posted, in order. */
  datatype Trace<S> = Trace(buffer: seq<seq<S>>, messages: seq<seq<int>>)

  function Run<S>(buffer: seq<seq<S>>, channels: seq<Option<seq<S>>>, convert: S -> Int16): Trace<S>
    decreases |channels|
  {
    if channels == [] then Trace(buffer, [])
    else
      var s := Next(buffer, channels[0], convert);
      var t := Run(s.buffer, channels[1..], convert);
      Trace(t.buffer, Posted(s.message) + t.messages)
  }

  /** The frames a series of calls delivered, in arrival order. */
  function Frames<S>(channels: seq<Option<seq<S>>>): seq<seq<S>>
    decreases |channels|
  {
    if channels == [] then []
    else (if channels[0].Some? then [channels[0].value] else []) + Frames(channels[1..])
  }

  /** The consecutive blocks of FlushFrames elements at the front of `s`. */
  function Chunks<T>(s: seq<T>): seq<seq<T>>
    decreases |s|
  {
    if |s| < FlushFrames then [] else [s[..FlushFrames]] + Chunks(s[FlushFrames..])
  }

  /** What is left of `s` after its full blocks of FlushFrames elements. */
  function Leftover<T>(s: seq<T>): seq<T>
    decreases |s|
  {
    if |s| < FlushFrames then s else Leftover(s[FlushFrames..])
  }

  /** The PCM array of each group of frames. */
  function PcmAll<S>(groups: seq<seq<seq<S>>>, convert: S -> Int16): seq<seq<int>>
    decreases |groups|
  {
    if groups == [] then [] else [Pcm(groups[0], convert)] + PcmAll(groups[1..], convert)
  }

  /** One call: the buffer stays below FlushFrames; a call without a channel changes
      nothing; a call with a channel appends it, and posts exactly when it brings
      the buffer to FlushFrames frames, in which case the buffer is emptied and
      the message is the MessageLength-slot packing of all FlushFrames frames. */
  lemma NextStep<S>(buffer: seq<seq<S>>, channel: Option<seq<S>>, convert: S -> Int16)
    requires |buffer| < FlushFrames
    ensures |Next(buffer, channel, convert).buffer| < FlushFrames
    ensures channel.None? ==> Next(buffer, channel, convert) == Step(buffer, None)
    ensures Next(buffer, channel, convert).message.Some? <==> channel.Some? && |buffer| == FlushFrames - 1
    ensures channel.Some? && |buffer| < FlushFrames - 1 ==>
      Next(buffer, channel, convert).buffer == buffer + [channel.value]
    ensures Next(buffer, channel, convert).message.Some? ==>
      var grown := buffer + [channel.value];
      |grown| == FlushFrames && Next(buffer, channel, convert).buffer == [] &&
      Next(buffer, channel, convert).message.value == Pcm(grown, convert) &&
      |Next(buffer, channel, convert).message.value| == MessageLength
  {
  }

  /** Running calls one after another: one more call continues where the series stopped. */
  lemma {:induction false} RunSnoc<S>(buffer: seq<seq<S>>, channels: seq<Option<seq<S>>>, c: Option<seq<S>>, convert: S -> Int16)
    ensures var t := Run(buffer, channels, convert);
            var s := Next(t.buffer, c, convert);
            Run(buffer, channels + [c], convert) == Trace(s.buffer, t.messages + Posted(s.message))
    decreases |channels|
  {
    if channels == [] {
      assert [] + [c] == [c];
      assert [c][1..] == [];
    } else {
      assert (channels + [c])[0] == channels[0];
      assert (channels + [c])[1..] == channels[1..] + [c];
      RunSnoc(Next(buffer, channels[0], convert).buffer, channels[1..], c, convert);
    }
  }

  /** Chunks and Leftover split `s` into |s| / FlushFrames full blocks and a
      remainder of |s| % FlushFrames elements. */
  lemma {:induction false} ChunksCount<T>(s: seq<T>)
    ensures |Chunks(s)| == |s| / FlushFrames
    ensures |Leftover(s)| == |s| % FlushFrames
    decreases |s|
  {
    if |s| >= FlushFrames {
      ChunksCount(s[FlushFrames..]);
    }
  }

  /** The blocks, laid end to end and followed by the remainder, give back `s`. */
  lemma {:induction false} ChunksCover<T>(s: seq<T>)
    ensures Flatten(Chunks(s)) + Leftover(s) == s
    decreases |s|
  {
    if |s| >= FlushFrames {
      var head, tail := s[..FlushFrames], s[FlushFrames..];
      ChunksCover(tail);
      FlattenAppend([head], Chunks(tail));
      assert Flatten([head]) == head by {
        assert [head][..0] == [];
      }
      assert head + tail == s;
    }
  }

  /** Block i is elements FlushFrames * i up to FlushFrames * (i + 1) of `s`. */
  lemma {:induction false} ChunksAt<T>(s: seq<T>, i: nat)
    requires i < |Chunks(s)|
    ensures FlushFrames * (i + 1) <= |s|
    ensures Chunks(s)[i] == s[FlushFrames * i .. FlushFrames * (i + 1)]
    decreases |s|
  {
    var tail := s[FlushFrames..];
    if i > 0 {
      assert Chunks(s)[i] == Chunks(tail)[i - 1];
      ChunksAt(tail, i - 1);
      assert tail[FlushFrames * (i - 1) .. FlushFrames * i] == s[FlushFrames * i .. FlushFrames * (i + 1)];
    }
  }

  lemma {:induction false} PcmAllAt<S>(groups: seq<seq<seq<S>>>, convert: S -> Int16)
    ensures |PcmAll(groups, convert)| == |groups|
    ensures forall i :: 0 <= i < |groups| ==> PcmAll(groups, convert)[i] == Pcm(groups[i], convert)
    decreases |groups|
  {
    if groups != [] {
      PcmAllAt(groups[1..], convert);
    }
  }

  /** From any reachable buffer, a series of calls posts the packing of each full
      block of FlushFrames frames among the buffered and delivered frames, and
      keeps the rest buffered. */
  lemma {:induction false} RunFlushesChunks<S>(buffer: seq<seq<S>>, channels: seq<Option<seq<S>>>, convert: S -> Int16)
    requires |buffer| < FlushFrames
    ensures Run(buffer, channels, convert) ==
      Trace(Leftover(buffer + Frames(channels)), PcmAll(Chunks(buffer + Frames(channels)), convert))
    decreases |channels|
  {
    if channels == [] {
      assert buffer + Frames(channels) == buffer;
    } else {
      var s := Next(buffer, channels[0], convert);
      NextStep(buffer, channels[0], convert);
      RunFlushesChunks(s.buffer, channels[1..], convert);
      var rest := Frames(channels[1..]);
      match channels[0]
      case None =>
        assert Frames(channels) == rest;
      case Some(f) =>
        assert Frames(channels) == [f] + rest;
        var all := buffer + [f] + rest;
        assert buffer + Frames(channels) == all;
        if |buffer| + 1 < FlushFrames {
          assert s.buffer + rest == all;
        } else {
          assert all[..FlushFrames] == buffer + [f];
          assert all[FlushFrames..] == rest;
          assert s.buffer + rest == rest;
          assert Chunks(all) == [buffer + [f]] + Chunks(rest);
          assert ([buffer + [f]] + Chunks(rest))[1..] == Chunks(rest);
        }
    }
  }

  /** Starting from the empty buffer, the calls so far have posted one message per
      FlushFrames delivered frames: message i is the MessageLength-slot packing of
      frames FlushFrames * i up to FlushFrames * (i + 1), and the last
      |frames| % FlushFrames frames are still buffered. */
  lemma MessagesFromStart<S>(channels: seq<Option<seq<S>>>, convert: S -> Int16)
    ensures |Run([], channels, convert).messages| == |Frames(channels)| / FlushFrames
    ensures |Run([], channels, convert).buffer| == |Frames(channels)| % FlushFrames
    ensures Run([], channels, convert).buffer ==
      Frames(channels)[|Frames(channels)| - |Frames(channels)| % FlushFrames..]
    ensures forall i :: 0 <= i < |Run([], channels, convert).messages| ==>
      Run([], channels, convert).messages[i] ==
        Pcm(Frames(channels)[FlushFrames * i .. FlushFrames * (i + 1)], convert) &&
      |Run([], channels, convert).messages[i]| == MessageLength
  {
    var frames := Frames(channels);
    RunFlushesChunks([], channels, convert);
    assert [] + frames == frames;
    ChunksCount(frames);
    ChunksCover(frames);
    PcmAllAt(Chunks(frames), convert);
    forall i | 0 <= i < |Chunks(frames)|
      ensures Chunks(frames)[i] == frames[FlushFrames * i .. FlushFrames * (i + 1)]
    {
      ChunksAt(frames, i);
    }
    var head := Flatten(Chunks(frames));
    assert frames == head + Leftover(frames);
    assert Leftover(frames) == frames[|head|..];
  }

  /** The audio worklet. `toInt16` stands for the conversion `chunk[i] * 0x7fff`
      followed by the Int16Array store; only its range is assumed. */
  class RecorderWorklet<S> {
    /** The frames accumulated since the last flush (`this._buffer`). */
    var buffer: seq<seq<S>>
    /** Every message posted to the main thread, in order. */
    ghost var posted: seq<seq<int>>
    /** Every call of Process so far, by its first channel. */
    ghost var calls: seq<Option<seq<S>>>
    const toInt16: S -> Int16

    /** The buffer never reaches FlushFrames frames between calls, and the buffer
        and the posted messages are what the calls so far produce. */
    ghost predicate Valid()
      reads this
    {
      |buffer| < FlushFrames &&
      Run([], calls, toInt16) == Trace(buffer, posted)
    }

    constructor (toInt16: S -> Int16)
      ensures Valid() && this.toInt16 == toInt16
      ensures buffer == [] && posted == [] && calls == []
    {
      this.toInt16 := toInt16;
      buffer := [];
      posted := [];
      calls := [];
    }

    /** One render call. The returned value is the keep-alive flag. */
    method Process(channel: Option<seq<S>>) returns (keepAlive: bool)
      requires Valid()
      modifies this
      ensures Valid() && keepAlive
      ensures calls == old(calls) + [channel]
      ensures buffer == Next(old(buffer), channel, toInt16).buffer
      ensures posted == old(posted) + Posted(Next(old(buffer), channel, toInt16).message)
    {
      RunSnoc([], calls, channel, toInt16);
      calls := calls + [channel];
      if channel.None? {
        return true;
      }
      buffer := buffer + [channel.value];
      if |buffer| >= FlushFrames {
        var pcm := Pack(buffer, toInt16);
        posted := posted + [pcm[..]];
        buffer := [];
      }
      return true;
    }
  }
}
