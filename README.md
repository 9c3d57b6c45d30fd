# FSB heuristic extractor — verified model of its container probe

`decodeFsbToAudioBuffer` (in `libs/fsb-decoder.js`) takes the bytes of an FSB
sound bank. It looks for one embedded audio stream it can hand to the browser's
audio decoder. It probes four formats in a fixed order:

1. OGG: the first `"OggS"` (`4F 67 67 53`) anywhere in the buffer.
2. RIFF/WAVE: the first `"RIFF"` (`52 49 46 46`). It is accepted only if the
   first `"WAVE"` (`57 41 56 45`) of the whole buffer lies strictly after it
   and fewer than 128 bytes past it.
3. FLAC: the first `"fLaC"` (`66 4C 61 43`).
4. MPEG: the first byte pair `FF xx` whose second byte has its top three bits set.

The first stage that matches decides the start offset. The bytes from that
offset to the end of the buffer go to the decoder with a MIME hint (`audio/ogg`,
`audio/wav`, `audio/flac` or `audio/mpeg`). The function is `async`, so its own
promise follows the decoder's promise. If no stage matches, the function throws
"Unsupported FSB contents (no embedded OGG/WAV/FLAC/MP3 found).", which rejects
its promise, and it never calls the decoder.

The project has three modules:

- `ByteSearch` (`byte_search.dfy`): the `findBytes` helper. `Find` is the
  specification (first occurrence, or -1). `FindBytes` is the nested loop with
  its labelled `continue outer`, proved equal to `Find`.
- `FsbDecoder` (`fsb_decoder.dfy`): the marker constants, the MPEG frame-sync
  specification, `Probe` (which stage wins and where), `Extract` (what is
  returned or thrown), and `DecodeFsbToAudioBuffer`. That method is the
  function body as written: one mutable `start` and early returns. It is
  proved equal to `Extract`. The MPEG scan loop with its `break` is the
  method `ScanFrameSync`, proved equal to `FirstFrameSync`.
- `FsbProperties` (`fsb_properties.dfy`): the promises of the probe stated
  independently of its code. They cover the priority order, the RIFF/WAVE
  window, the slice running to end of buffer and starting with the matched
  signature, the MIME hint, and the error path.

The buffer (a `Uint8Array` view) is an `array<bv8>` that the methods only read.
They have no `modifies` clause, so probing cannot change it. The result of the
call is the value `Outcome`. It is either `Decode(slice, mimeHint)`, the one
decoder request whose promise the function's own promise follows, or
`Unsupported(message)`, the error that rejects the function's promise.

What the code does not do, and so the model does not do either:

- It does not cut the slice at a later signature. The slice always runs to
  the end of the buffer, and no ID3 tag is looked for.
- It does not start the WAVE search at the RIFF marker. The search starts at
  offset 0. `LaterWaveIgnored` shows the effect: a "WAVE" inside the window is
  ignored when an earlier "WAVE" exists.
- It does not retry the next candidate after a failed decode. The first
  matching stage's decoder promise is the outcome, so a decode rejection
  reaches the caller.

## Model

| member | source | states |
|---|---|---|
| ByteSearch.FindFrom | libs/fsb-decoder.js:8-14 | the scan from a candidate index returns a matching index at or after it with no match between, or -1 when nothing at or after it matches |
| ByteSearch.Find | libs/fsb-decoder.js:7-15 | the result is -1 or an index in `0..|buf|-|needle|`; it is non-negative exactly when the needle occurs and is then its first occurrence; a needle longer than the buffer gives -1 |
| ByteSearch.FindIsFirstMatch | libs/fsb-decoder.js:7-15 | `Find` returns `i` if and only if `i` is the lowest index where the needle matches |
| ByteSearch.FindMissing | libs/fsb-decoder.js:14 | `Find` returns -1 if and only if the needle matches at no index |
| ByteSearch.MatchInSuffix | libs/fsb-decoder.js:24 | a marker found at `w` in the buffer is found at `w - s` in the slice that starts at `s <= w` |
| ByteSearch.FindBytes | libs/fsb-decoder.js:7-15 | the nested loop with its labelled continue returns exactly the first occurrence, or -1, without changing the buffer |
| FsbDecoder.FrameSyncFrom | libs/fsb-decoder.js:48-54 | the pair scan from an index returns a frame-sync index at or after it with none between, or -1 when there is none at or after it |
| FsbDecoder.FirstFrameSync | libs/fsb-decoder.js:47-54 | the MPEG start is the first `i` with `i + 1 < |buf|`, `buf[i] == 0xFF` and `buf[i+1] & 0xE0 == 0xE0`, or -1 exactly when no such pair exists; a buffer shorter than 2 bytes gives -1 |
| FsbDecoder.IsFrameSync | libs/fsb-decoder.js:48-50 | a pair at `i` is a frame sync exactly when `i + 1 < |buf|`, `buf[i] == 0xFF` and `buf[i+1] >= 0xE0`, which is what the mask test `(b & 0xE0) == 0xE0` means for a byte |
| FsbDecoder.FirstFrameSyncIsFirst | libs/fsb-decoder.js:47-54 | any index that is the first frame-sync pair (or -1 when there is none) is what `FirstFrameSync` returns |
| FsbDecoder.ScanFrameSync | libs/fsb-decoder.js:47-54 | the scan loop with its `break` returns exactly the first frame-sync pair, or -1 when there is none, without changing the buffer |
| FsbDecoder.WaveCorroborates | libs/fsb-decoder.js:32-33 | when the RIFF check passes, a "WAVE" lies strictly after the RIFF and fewer than 128 bytes past it, and no "WAVE" lies at or before the RIFF; with no "WAVE" anywhere it fails |
| FsbDecoder.Probe | libs/fsb-decoder.js:21-58 | every chosen start offset lies inside the buffer |
| FsbDecoder.MimeHint | libs/fsb-decoder.js:25-57 | each stage's MIME hint is an `audio/` type (`audio/ogg`, `audio/wav`, `audio/flac`, `audio/mpeg`) |
| FsbDecoder.SliceOf | libs/fsb-decoder.js:24 | the slice is exactly what remains of the buffer after its first `start` bytes, so it runs to the end of the buffer |
| FsbDecoder.Extract | libs/fsb-decoder.js:21-61 | a decode request carries a non-empty suffix of the buffer, running to its end; the call rejects with the error exactly when the probe found nothing |
| FsbDecoder.DecodeFsbToAudioBuffer | libs/fsb-decoder.js:3-62 | the four stages with their early returns produce exactly the outcome `Extract` specifies, reading the buffer only |
| FsbProperties.WaveCorroboratesIff | libs/fsb-decoder.js:32-33 | the WAVE check holds exactly when the first "WAVE" of the whole buffer lies strictly after the RIFF and fewer than 128 bytes past it |
| FsbProperties.RiffAcceptedIff | libs/fsb-decoder.js:29-33 | the RIFF stage succeeds exactly when a "RIFF" exists and its first occurrence passes the WAVE check |
| FsbProperties.OggWins | libs/fsb-decoder.js:21-26 | if "OggS" occurs, the result is OGG at its first occurrence, whatever else the buffer holds, and the whole tail from there goes to the decoder with hint `audio/ogg` |
| FsbProperties.OggChosenIff | libs/fsb-decoder.js:21-26 | OGG at `s` is chosen if and only if `s` is the first "OggS" |
| FsbProperties.WavChosenIff | libs/fsb-decoder.js:28-37 | WAV at `s` is chosen if and only if there is no "OggS", `s` is the first "RIFF" and the first "WAVE" lies in the window after it |
| FsbProperties.LaterWaveIgnored | libs/fsb-decoder.js:32-33 | when the first "WAVE" precedes the first "RIFF", WAV is not chosen even if another "WAVE" lies inside the window |
| FsbProperties.FlacChosenIff | libs/fsb-decoder.js:39-44 | FLAC at `s` is chosen if and only if there is no "OggS", the RIFF stage failed and `s` is the first "fLaC" |
| FsbProperties.MpegChosenIff | libs/fsb-decoder.js:46-58 | MPEG at `s` is chosen if and only if no earlier stage matched and `s` is the first frame-sync pair |
| FsbProperties.UnsupportedIff | libs/fsb-decoder.js:60-61 | the call throws the one "Unsupported FSB contents" error, with no decoder request, if and only if no stage matches |
| FsbProperties.SliceRunsToEnd | libs/fsb-decoder.js:21-58 | a decode request carries `buf[start..]`, the buffer from the chosen start to its end, with `0 <= start < |buf|`, and the chosen format's MIME hint |
| FsbProperties.SliceStartsWithSignature | libs/fsb-decoder.js:21-58 | the slice begins with the matched marker ("OggS", "RIFF", "fLaC"); for WAV it also holds a "WAVE" fewer than 128 bytes in; for MPEG it begins with a frame-sync pair |
| FsbProperties.MimeHintInjective | libs/fsb-decoder.js:21-58 | the four MIME hints are pairwise distinct, so the hint identifies the stage that matched |

## Left out

- `decodeAudioDataP` (libs/fsb-decoder.js:64-79) wraps the browser's asynchronous `decodeAudioData`, a foreign call. The model stops at the request `Decode(slice, mimeHint)`, whose promise the async function's own promise follows; `Unsupported` stands for the rejection of that promise. The wrapper drops the MIME hint (its parameter is commented out), and the model keeps the hint only as part of that request.
- `enc` and `TextEncoder` (libs/fsb-decoder.js:17-19) only produce the ASCII markers. The model writes them as byte constants.
- `async`/`await`, the copy made by `ArrayBuffer.slice`, and the browser-compatibility branch (libs/fsb-decoder.js:72-74) are host plumbing. A slice is a sequence value here; `Decode` stands for a promise that the async function's own promise follows, and `Unsupported` for a rejection of that promise, not a synchronous exception.
- The `audioContext` parameter is only passed on to the decoder and is not modelled.
- Segment ends at a later signature, ID3 handling, a WAVE search starting after the RIFF, and retrying the next candidate after a failed decode are not in the code, so they are not in the model.
