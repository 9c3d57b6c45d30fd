/** What the probe of `decodeFsbToAudioBuffer` promises, stated without
    reference to the order in which it calls `findBytes`: which format wins
    for which buffer, where its stream starts, and what reaches the decoder. */
module FsbProperties {
  import opened ByteSearch
  import opened FsbDecoder

  /** The first "WAVE" of the whole buffer lies in the window after `riffAt`. */
  ghost predicate WaveNear(buf: seq<bv8>, riffAt: int)
  {
    exists w :: IsFirstMatch(buf, WaveMarker, w) && riffAt < w && w - riffAt < WaveWindow
  }

  /** The RIFF stage succeeds: the first "RIFF" is corroborated by a "WAVE". */
  ghost predicate RiffAccepted(buf: seq<bv8>)
  {
    exists s :: IsFirstMatch(buf, RiffMarker, s) && WaveNear(buf, s)
  }

  lemma WaveCorroboratesIff(buf: seq<bv8>, riffAt: int)
    ensures WaveCorroborates(buf, riffAt) <==> WaveNear(buf, riffAt)
  {
    var w := Find(buf, WaveMarker);
    if WaveNear(buf, riffAt) {
      var w' :| IsFirstMatch(buf, WaveMarker, w') && riffAt < w' && w' - riffAt < WaveWindow;
      FindIsFirstMatch(buf, WaveMarker, w');
    }
  }

  lemma RiffAcceptedIff(buf: seq<bv8>)
    ensures RiffAccepted(buf) <==>
      (Find(buf, RiffMarker) >= 0 && WaveCorroborates(buf, Find(buf, RiffMarker)))
  {
    var r := Find(buf, RiffMarker);
    if RiffAccepted(buf) {
      var s :| IsFirstMatch(buf, RiffMarker, s) && WaveNear(buf, s);
      FindIsFirstMatch(buf, RiffMarker, s);
      WaveCorroboratesIff(buf, s);
    }
    if r >= 0 && WaveCorroborates(buf, r) {
      WaveCorroboratesIff(buf, r);
    }
  }

  /** An "OggS" anywhere wins, at its first occurrence, whatever else the
      buffer holds. */
  lemma {:induction false} OggWins(buf: seq<bv8>, i: nat)
    requires IsFirstMatch(buf, OggMarker, i)
    ensures Probe(buf) == Candidate(Ogg, i)
    ensures Extract(buf) == Decode(buf[i..], "audio/ogg")
  {
    FindIsFirstMatch(buf, OggMarker, i);
  }

  /** OGG at `s` is chosen exactly when `s` is the first "OggS". */
  lemma {:induction false} OggChosenIff(buf: seq<bv8>, s: nat)
    ensures Probe(buf) == Candidate(Ogg, s) <==> IsFirstMatch(buf, OggMarker, s)
  {
    FindIsFirstMatch(buf, OggMarker, s);
  }

  /** RIFF is chosen exactly when there is no "OggS", `s` is the first
      "RIFF", and the first "WAVE" of the whole buffer lies strictly after
      it and fewer than 128 bytes past it. */
  lemma {:induction false} WavChosenIff(buf: seq<bv8>, s: nat)
    ensures Probe(buf) == Candidate(Wav, s) <==>
      !Occurs(buf, OggMarker) && IsFirstMatch(buf, RiffMarker, s) && WaveNear(buf, s)
  {
    FindIsFirstMatch(buf, RiffMarker, s);
    WaveCorroboratesIff(buf, s);
  }

  /** A RIFF whose first "WAVE" comes before it is rejected even when another
      "WAVE" lies inside the window: the WAVE search starts at offset 0. */
  lemma {:induction false} LaterWaveIgnored(buf: seq<bv8>, r: nat, w1: nat, w2: nat)
    requires IsFirstMatch(buf, RiffMarker, r)
    requires IsFirstMatch(buf, WaveMarker, w1) && w1 < r
    requires MatchesAt(buf, WaveMarker, w2) && r < w2 < r + WaveWindow
    ensures !(Probe(buf).Candidate? && Probe(buf).format == Wav)
  {
    FindIsFirstMatch(buf, RiffMarker, r);
    FindIsFirstMatch(buf, WaveMarker, w1);
  }

  /** FLAC is chosen only when there is no "OggS" and the RIFF stage failed,
      and then at the first "fLaC". */
  lemma {:induction false} FlacChosenIff(buf: seq<bv8>, s: nat)
    ensures Probe(buf) == Candidate(Flac, s) <==>
      !Occurs(buf, OggMarker) && !RiffAccepted(buf) && IsFirstMatch(buf, FlacMarker, s)
  {
    RiffAcceptedIff(buf);
    FindIsFirstMatch(buf, FlacMarker, s);
  }

  /** MPEG is chosen only when every earlier stage failed, and then at the
      first frame-sync pair. */
  lemma {:induction false} MpegChosenIff(buf: seq<bv8>, s: nat)
    ensures Probe(buf) == Candidate(Mpeg, s) <==>
      !Occurs(buf, OggMarker) && !RiffAccepted(buf) && !Occurs(buf, FlacMarker) &&
      IsFirstFrameSync(buf, s)
  {
    RiffAcceptedIff(buf);
    if IsFirstFrameSync(buf, s) {
      FirstFrameSyncIsFirst(buf, s);
    }
  }

  /** The call throws its one error, without reaching the decoder, exactly
      when no stage matches. */
  lemma {:induction false} UnsupportedIff(buf: seq<bv8>)
    ensures Extract(buf).Unsupported? ==> Extract(buf).message == UnsupportedMessage
    ensures Extract(buf).Unsupported? <==>
      !Occurs(buf, OggMarker) && !RiffAccepted(buf) && !Occurs(buf, FlacMarker) &&
      forall k :: !IsFrameSync(buf, k)
  {
    RiffAcceptedIff(buf);
  }

  /** What reaches the decoder is the buffer from the chosen start to its
      end, non-empty, with the MIME hint of the matched format. */
  lemma {:induction false} SliceRunsToEnd(buf: seq<bv8>)
    requires Extract(buf).Decode?
    ensures Probe(buf).Candidate? && 0 <= Probe(buf).start < |buf|
    ensures Extract(buf).slice == buf[Probe(buf).start..]
    ensures Extract(buf).mimeHint == MimeHint(Probe(buf).format)
  {
  }

  /** The slice `buf[s..]` handed to the decoder begins with the signature
      that was matched: the format's marker (for WAV also a "WAVE" fewer
      than 128 bytes in), or for MPEG a frame-sync pair. */
  lemma {:induction false} SliceStartsWithSignature(buf: seq<bv8>, f: Format, s: nat)
    requires Probe(buf) == Candidate(f, s)
    ensures f == Ogg ==> MatchesAt(buf[s..], OggMarker, 0)
    ensures f == Wav ==> MatchesAt(buf[s..], RiffMarker, 0)
    ensures f == Wav ==> exists j :: 0 < j < WaveWindow && MatchesAt(buf[s..], WaveMarker, j)
    ensures f == Flac ==> MatchesAt(buf[s..], FlacMarker, 0)
    ensures f == Mpeg ==> IsFrameSync(buf[s..], 0)
  {
    match f
    case Ogg =>
      MatchInSuffix(buf, OggMarker, s, s);
    case Wav =>
      var w := Find(buf, WaveMarker);
      MatchInSuffix(buf, RiffMarker, s, s);
      MatchInSuffix(buf, WaveMarker, s, w);
    case Flac =>
      MatchInSuffix(buf, FlacMarker, s, s);
    case Mpeg =>
      assert IsFrameSync(buf, s);
  }

  /** Distinct formats carry distinct MIME hints, so the hint names the
      stage that matched. */
  lemma MimeHintInjective(f: Format, g: Format)
    ensures MimeHint(f) == MimeHint(g) <==> f == g
  {
    if f != g {
      assert MimeHint(f)[6] != MimeHint(g)[6] || |MimeHint(f)| != |MimeHint(g)|;
    }
  }
}
