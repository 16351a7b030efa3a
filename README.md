# RecorderWorklet: accumulate-and-flush PCM buffer

This project models the audio worklet of a browser-to-speech-recognition bridge, `RecorderWorklet` in
`static/recorder-worklet.js`. The browser calls `process` once per render quantum with the
current input. Each call that has a first channel appends a copy of that channel's Float32 frame
to the field `_buffer`. The call that brings `_buffer` to 48 frames does four things:
- it allocates a zeroed `Int16Array` of `48 * 256 = 12288` slots;
- it copies every sample of every buffered frame into it at consecutive offsets, converting each
  sample to Int16;
- it posts the array to the main thread;
- it empties the buffer.

`process` always returns `true`, which keeps the processor alive.

Layout:
- `wrappers.dfy`: the `Option` type, for "has a first channel or not".
- `pcm_packing.dfy` (module `PcmPacking`) has these parts:
  - the packing loop `Pack`, a method with two nested `for` loops, a running `offset` and a
    zero-initialised `array<int>`;
  - its specification `Pcm`: the samples of all frames laid end to end (`Flatten`), converted, in
    `|frames| * 256` slots, with writes past the end dropped and unused slots left 0;
  - lemmas about `Pcm`.
- `recorder_worklet.dfy` (module `Recorder`) has these parts:
  - the class `RecorderWorklet`, whose field `buffer` is `_buffer`;
  - a ghost log `posted` of the messages sent through `port.postMessage`;
  - a ghost history `calls` of every call;
  - the pure one-call step `Next`, and `Run`, the result of a series of calls;
  - lemmas that relate `Run` to the 48-frame blocks of the delivered frames.

`Valid()` is the class invariant: the buffer holds fewer than 48 frames, and
`(buffer, posted)` equals `Run([], calls)`. So `MessagesFromStart` describes the object's state
after any series of calls.

The sample type is a type parameter `S`. The conversion `chunk[i] * 0x7fff` plus the Int16Array
store is a function `toInt16: S -> Int16`, given to the constructor. The model assumes only that
its result lies in [-32768, 32767]. Because the array is sized by frame count and not by sample
count, frames of 128 samples (the Web Audio render quantum) fill only the first 6144 slots, and
the other 6144 stay 0. `PcmHalfFrames` states this as a property of the model.

## Model

| member | source | states |
|---|---|---|
| Recorder.RecorderWorklet.constructor | static/recorder-worklet.js:2-5 | starts with an empty buffer and nothing posted, so the invariant (fewer than 48 buffered frames, state equals the run of no calls) holds |
| Recorder.RecorderWorklet.Process | static/recorder-worklet.js:7-32 | always returns true; keeps the invariant; the new buffer and the newly posted messages are exactly those of one step `Next` on the old buffer |
| Recorder.NextStep | static/recorder-worklet.js:11-29 | one call: with no channel nothing changes and nothing is posted; with a channel the frame is appended; a message is posted exactly when the buffer had 47 frames; the buffer is then empty and the message is the 12288-slot packing of the 48 frames; the buffer always stays below 48 |
| Recorder.RunSnoc | static/recorder-worklet.js:7-32 | a series of calls followed by one more call gives the series' state, then one step, with that step's message appended to the log |
| Recorder.RunFlushesChunks | static/recorder-worklet.js:14-28 | from any buffer below 48, a series of calls posts the packing of each consecutive 48-frame block of the buffered and delivered frames, in order, and keeps the remainder buffered |
| Recorder.MessagesFromStart | static/recorder-worklet.js:14-28 | from the empty buffer: number of messages = delivered frames / 48; buffered frames = the last (delivered frames % 48) frames; message i = packing of frames 48i up to 48i+48, of length 12288 |
| Recorder.ChunksCount | static/recorder-worklet.js:16 | splitting into 48-frame blocks gives length / 48 blocks and a remainder of length % 48 |
| Recorder.ChunksCover | static/recorder-worklet.js:14-28 | the blocks laid end to end, followed by the remainder, are the original frames, so no frame is lost or reordered |
| Recorder.ChunksAt | static/recorder-worklet.js:16 | block i is elements 48i up to 48i+48 |
| Recorder.PcmAllAt | static/recorder-worklet.js:27 | the message list has one packed array per block, in block order |
| PcmPacking.Pack | static/recorder-worklet.js:17-25 | the nested loop fills a zeroed array of `|frames| * 256` slots exactly as `Pcm` says; `offset` always equals the number of samples copied so far |
| PcmPacking.PcmShape | static/recorder-worklet.js:17-18 | the array has `|frames| * 256` slots whatever the frame lengths; every slot is an Int16 value; slots past the last input sample are 0 |
| PcmPacking.PcmFrameSample | static/recorder-worklet.js:20-25 | sample i of frame k lands at offset (samples in frames before k) + i, converted, when that offset is inside the array |
| PcmPacking.LayoutSnoc | static/recorder-worklet.js:22-23 | writing the next sample updates the slot at the next offset if it exists and drops the write otherwise |
| PcmPacking.FlattenAt | static/recorder-worklet.js:21-22 | concatenating frames puts sample i of frame k at (samples in frames before k) + i |
| PcmPacking.FlattenAppend | static/recorder-worklet.js:21 | concatenating two runs of frames is concatenating their concatenations |
| PcmPacking.FlattenUniform | static/recorder-worklet.js:21-22 | frames that all hold `len` samples hold `|frames| * len` samples together |
| PcmPacking.PcmFullFrames | static/recorder-worklet.js:17-25 | with 256-sample frames every slot holds a converted sample and there is no zero padding |
| PcmPacking.PcmHalfFrames | static/recorder-worklet.js:17-25 | with 128-sample frames the first `|frames| * 128` slots hold the converted samples and the rest are 0 |

## Left out

- app/main.py (the websocket endpoint, Google Speech streaming call, blocking queue, thread-pool worker and cross-thread sends): it is network I/O and concurrency over external libraries, with no sequential core of its own.
- The float arithmetic `chunk[i] * 0x7fff` and the Int16Array store conversion (truncation and wrap-around) at static/recorder-worklet.js:23: they are floating-point numerics. They are the parameter `toInt16`, of which only the Int16 range is known.
- `this.port.postMessage(pcm.buffer)` (line 27): a message to the main thread. It is modelled as appending the packed array's contents to the ghost log `posted`.
- Recorder.RecorderWorklet.Process: takes the first channel as an `Option` (`None` when `inputs[0]` has no channel). A call with no first input at all, where the source's `input[0]` throws, is not modelled. An empty Float32Array is truthy in the source, so `Some([])` is appended like any other frame.
- The copy `new Float32Array(channel)` (line 14) is implicit: Dafny sequences are values, so the buffered frame can never alias the host's channel buffer.
- `AudioWorkletProcessor` inheritance and `registerProcessor` (lines 1, 35): browser host plumbing.
