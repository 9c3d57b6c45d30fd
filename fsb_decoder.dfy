/** The heuristic container probe of `decodeFsbToAudioBuffer`: look for an
    embedded OGG, RIFF/WAVE, FLAC or MPEG stream in an FSB blob, in that
    fixed order, and hand the bytes from the first match to the end of the
    buffer to the audio decoder together with a MIME hint. */
module FsbDecoder {
  import opened ByteSearch

  /** "OggS", the OGG page capture pattern. */
  const OggMarker: seq<bv8> := [0x4F, 0x67, 0x67, 0x53]
  /** "RIFF", the generic RIFF chunk prefix. */
  const RiffMarker: seq<bv8> := [0x52, 0x49, 0x46, 0x46]
  /** "WAVE", the form type that corroborates a RIFF match. */
  const WaveMarker: seq<bv8> := [0x57, 0x41, 0x56, 0x45]
  /** "fLaC", the FLAC stream marker. */
  const FlacMarker: seq<bv8> := [0x66, 0x4C, 0x61, 0x43]
  /** A WAVE occurrence must lie fewer than this many bytes past the RIFF. */
  const WaveWindow: int := 128

  const UnsupportedMessage: string :=
    "Unsupported FSB contents (no embedded OGG/WAV/FLAC/MP3 found)."

  datatype Format = Ogg | Wav | Flac | Mpeg

  /** What the probe picked: a format and the offset its stream starts at. */
  datatype ProbeResult = Candidate(format: Format, start: nat) | NoMatch

  /** What `decodeFsbToAudioBuffer` does with the buffer: either it returns
      the decoder's promise for `slice` (with the MIME hint it names), or it
      throws with `message` without calling the decoder. */
  datatype Outcome = Decode(slice: seq<bv8>, mimeHint: string) | Unsupported(message: string)

  /** The MIME hint each stage passes with its slice; every one is an
      `audio/` type. */
  function MimeHint(f: Format): (hint: string)
    ensures |hint| > 6 && hint[..6] == "audio/"
  {
    match f
    case Ogg => "audio/ogg"
    case Wav => "audio/wav"
    case Flac => "audio/flac"
    case Mpeg => "audio/mpeg"
  }

  /** An MPEG frame-sync pair at `i`: 0xFF followed by a byte whose top
      three bits are set. */
  predicate IsFrameSync(buf: seq<bv8>, i: int): (b: bool)
    ensures b <==> 0 <= i && i + 1 < |buf| && buf[i] == 0xFF && buf[i + 1] >= 0xE0
  {
    0 <= i && i + 1 < |buf| && buf[i] == 0xFF && buf[i + 1] & 0xE0 == 0xE0
  }

  predicate IsFirstFrameSync(buf: seq<bv8>, i: int)
  {
    IsFrameSync(buf, i) && forall k :: 0 <= k < i ==> !IsFrameSync(buf, k)
  }

  /** Left-to-right scan for a frame-sync pair at or after `from`. */
  function FrameSyncFrom(buf: seq<bv8>, from: nat): (r: int)
    ensures r == -1 || (from <= r && IsFrameSync(buf, r))
    ensures r >= 0 ==> forall k :: from <= k < r ==> !IsFrameSync(buf, k)
    ensures r == -1 ==> forall k :: from <= k ==> !IsFrameSync(buf, k)
    decreases |buf| - from
  {
    if from + 1 >= |buf| then -1
    else if buf[from] == 0xFF && buf[from + 1] & 0xE0 == 0xE0 then from
    else FrameSyncFrom(buf, from + 1)
  }

  /** The specification of the MPEG stage: the first frame-sync pair, or -1. */
  function FirstFrameSync(buf: seq<bv8>): (r: int)
    ensures r == -1 || IsFirstFrameSync(buf, r)
    ensures r == -1 <==> forall k :: !IsFrameSync(buf, k)
    ensures |buf| < 2 ==> r == -1
  {
    FrameSyncFrom(buf, 0)
  }

  /** The RIFF sanity check: the first "WAVE" of the WHOLE buffer lies
      strictly after the RIFF at `riffAt` and fewer than 128 bytes past it. */
  predicate WaveCorroborates(buf: seq<bv8>, riffAt: int): (b: bool)
    ensures b ==> exists w :: MatchesAt(buf, WaveMarker, w) && riffAt < w < riffAt + WaveWindow
    ensures b ==> forall k :: 0 <= k <= riffAt ==> !MatchesAt(buf, WaveMarker, k)
    ensures !Occurs(buf, WaveMarker) ==> !b
  {
    var waveAt := Find(buf, WaveMarker);
    waveAt >= 0 && waveAt > riffAt && waveAt - riffAt < WaveWindow
  }

  /** The four probing stages in their fixed order; the first that matches
      decides the format and the start offset. */
  function Probe(buf: seq<bv8>): (p: ProbeResult)
    ensures p.Candidate? ==> p.start < |buf|
  {
    var ogg := Find(buf, OggMarker);
    if ogg >= 0 then Candidate(Ogg, ogg)
    else
      var riff := Find(buf, RiffMarker);
      if riff >= 0 && WaveCorroborates(buf, riff) then Candidate(Wav, riff)
      else
        var flac := Find(buf, FlacMarker);
        if flac >= 0 then Candidate(Flac, flac)
        else
          var sync := FirstFrameSync(buf);
          if sync >= 0 then Candidate(Mpeg, sync)
          else NoMatch
  }

  /** The bytes handed to the decoder: from `start` to the end of the buffer. */
  function SliceOf(buf: seq<bv8>, start: nat): (slice: seq<bv8>)
    requires start <= |buf|
    ensures buf == buf[..start] + slice
  {
    buf[start..]
  }

  /** The specification of `decodeFsbToAudioBuffer` up to the decoder call. */
  function Extract(buf: seq<bv8>): (o: Outcome)
    ensures o.Decode? ==> 0 < |o.slice| <= |buf| && o.slice == buf[|buf| - |o.slice|..]
    ensures o.Unsupported? <==> Probe(buf) == NoMatch
  {
    match Probe(buf)
    case Candidate(f, start) => Decode(SliceOf(buf, start), MimeHint(f))
    case NoMatch => Unsupported(UnsupportedMessage)
  }

  /** `decodeFsbToAudioBuffer` as written: one mutable `start` reassigned by
      each stage, with an early return for the first stage that matches.
      The buffer is only read. */
  method DecodeFsbToAudioBuffer(buf: array<bv8>) returns (o: Outcome)
    ensures o == Extract(buf[..])
  {
    ghost var s := buf[..];
    var start := FindBytes(buf, OggMarker);
    if start >= 0 {
      assert Probe(s) == Candidate(Ogg, start);
      return Decode(buf[start..], "audio/ogg");
    }
    assert Find(s, OggMarker) < 0;

    start := FindBytes(buf, RiffMarker);
    if start >= 0 {
      var waveAt := FindBytes(buf, WaveMarker);
      if waveAt >= 0 && waveAt > start && waveAt - start < WaveWindow {
        assert Probe(s) == Candidate(Wav, start);
        return Decode(buf[start..], "audio/wav");
      }
    }
    assert !(Find(s, RiffMarker) >= 0 && WaveCorroborates(s, Find(s, RiffMarker)));

    start := FindBytes(buf, FlacMarker);
    if start >= 0 {
      assert Probe(s) == Candidate(Flac, start);
      return Decode(buf[start..], "audio/flac");
    }
    assert Probe(s) == if FirstFrameSync(s) >= 0 then Candidate(Mpeg, FirstFrameSync(s)) else NoMatch;

    start := ScanFrameSync(buf);
    if start >= 0 {
      assert Probe(s) == Candidate(Mpeg, start);
      return Decode(buf[start..], "audio/mpeg");
    }

    assert Probe(s) == NoMatch;
    return Unsupported(UnsupportedMessage);
  }

  /** The MPEG stage's loop: scan the byte pairs left to right and stop at
      the first frame-sync pair; -1 when the loop runs out. */
  method ScanFrameSync(buf: array<bv8>) returns (start: int)
    ensures start == FirstFrameSync(buf[..])
  {
    start := -1;
    var i := 0;
    while i < buf.Length - 1
      invariant 0 <= i
      invariant forall k :: 0 <= k < i ==> !IsFrameSync(buf[..], k)
    {
      if buf[i] == 0xFF && buf[i + 1] & 0xE0 == 0xE0 {
        start := i;
        break;
      }
      i := i + 1;
    }
    FirstFrameSyncIsFirst(buf[..], start);
  }

  /** `FirstFrameSync` returns `i` exactly when `i` is the first frame-sync pair. */
  lemma FirstFrameSyncIsFirst(buf: seq<bv8>, i: int)
    requires i == -1 || IsFirstFrameSync(buf, i)
    requires i == -1 ==> forall k :: !IsFrameSync(buf, k)
    ensures FirstFrameSync(buf) == i
  {
    var r := FirstFrameSync(buf);
    if i >= 0 {
      assert r >= 0;
      assert !(r < i) && !(i < r);
    }
  }
}
