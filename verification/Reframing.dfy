/** `OpusToPcmuAccum`: decoded audio of any frame length, re-cut into 20 ms frames of 960 samples. */
module Reframing {
  import opened Prelude

  const WB_FRAME_SAMPLES: nat := 960
  const NB_FRAME_SAMPLES: nat := 160

  type Samples = seq<int>

  /** The codec chain as unknown functions. The resampler is stateful and deterministic: its answer
      may depend on every frame it was ever given, and it may fail. */
  datatype Codec = Codec(resample: seq<Samples> -> Option<Samples>, encodeUlaw: int -> u8) {
    /** The mu-law payload made from the newest of `frames`, or `None` when resampling goes wrong. */
    function Payload(frames: seq<Samples>): (p: Option<seq<u8>>)
      ensures p.Some? <==> resample(frames).Some? && |resample(frames).value| == 160
      ensures p.Some? ==> |p.value| == 160
      ensures p.Some? ==> forall i :: 0 <= i < 160 ==> p.value[i] == encodeUlaw(resample(frames).value[i])
    {
      match resample(frames)
      case None => None
      case Some(nb) =>
        if |nb| != NB_FRAME_SAMPLES then None
        else Some(seq(|nb|, i requires 0 <= i < |nb| => encodeUlaw(nb[i])))
    }
  }

  /** The whole 20 ms frames at the front of `s`, and what is left over. */
  function Frames(s: Samples): (f: seq<Samples>)
    ensures forall i :: 0 <= i < |f| ==> |f[i]| == WB_FRAME_SAMPLES
  {
    if |s| < WB_FRAME_SAMPLES then [] else [s[..WB_FRAME_SAMPLES]] + Frames(s[WB_FRAME_SAMPLES..])
  }

  function Tail(s: Samples): (t: Samples)
    ensures |t| < WB_FRAME_SAMPLES
  {
    if |s| < WB_FRAME_SAMPLES then s else Tail(s[WB_FRAME_SAMPLES..])
  }

  function Flatten(f: seq<Samples>): Samples {
    if f == [] then [] else f[0] + Flatten(f[1..])
  }

  /** Frames and tail together restore the stream. */
  lemma {:induction false} FramesRestore(s: Samples)
    ensures Flatten(Frames(s)) + Tail(s) == s
  {
    if |s| >= WB_FRAME_SAMPLES {
      FramesRestore(s[WB_FRAME_SAMPLES..]);
      assert s == s[..WB_FRAME_SAMPLES] + s[WB_FRAME_SAMPLES..];
    }
  }

  /** There is a frame for every 960 samples, and frame `k` starts at sample `960 k`. */
  lemma {:induction false} FramePosition(s: Samples, k: nat)
    ensures k < |Frames(s)| <==> (k + 1) * 960 <= |s|
    ensures k < |Frames(s)| ==> Frames(s)[k] == s[k * 960..(k + 1) * 960]
  {
    if k > 0 && |s| >= 960 {
      var rest := s[960..];
      FramePosition(rest, k - 1);
      if k < |Frames(s)| {
        SliceAfter(s, 960, (k - 1) * 960, k * 960);
      }
    }
  }

  lemma SliceAfter(s: Samples, cut: nat, from: nat, to: nat)
    requires from <= to && cut + to <= |s|
    ensures s[cut..][from..to] == s[cut + from..cut + to]
  {
  }

  /** Appending input to a stream only appends frames, cut from the old tail and the new input. */
  lemma {:induction false} FramesAppend(s: Samples, more: Samples)
    ensures Frames(s + more) == Frames(s) + Frames(Tail(s) + more)
    ensures Tail(s + more) == Tail(Tail(s) + more)
  {
    if |s| >= WB_FRAME_SAMPLES {
      FramesAppend(s[WB_FRAME_SAMPLES..], more);
      assert (s + more)[WB_FRAME_SAMPLES..] == s[WB_FRAME_SAMPLES..] + more;
      assert (s + more)[..WB_FRAME_SAMPLES] == s[..WB_FRAME_SAMPLES];
    }
  }

  /** The frames that a list of pushes drains, starting from an empty buffer: each push sees only
      the tail of the ones before. */
  ghost function Drained(pushes: seq<Samples>): seq<Samples> {
    if pushes == [] then []
    else
      var before := pushes[..|pushes| - 1];
      Drained(before) + Frames(Held(before) + pushes[|pushes| - 1])
  }

  ghost function Held(pushes: seq<Samples>): Samples {
    if pushes == [] then [] else Tail(Held(pushes[..|pushes| - 1]) + pushes[|pushes| - 1])
  }

  lemma {:induction false} FlattenSnoc(f: seq<Samples>, last: Samples)
    ensures Flatten(f + [last]) == Flatten(f) + last
  {
    if f == [] {
      assert f + [last] == [last];
    } else {
      FlattenSnoc(f[1..], last);
      assert (f + [last])[1..] == f[1..] + [last];
    }
  }

  /** However the stream is cut into pushes, the frames and the tail are those of the uncut stream. */
  lemma {:induction false} PushesCutTheStream(pushes: seq<Samples>)
    ensures Drained(pushes) == Frames(Flatten(pushes)) && Held(pushes) == Tail(Flatten(pushes))
  {
    if pushes != [] {
      var before, last := pushes[..|pushes| - 1], pushes[|pushes| - 1];
      PushesCutTheStream(before);
      FlattenSnoc(before, last);
      assert before + [last] == pushes;
      FramesAppend(Flatten(before), last);
    }
  }

  /** Two ways of cutting one stream into pushes drain the same frames and hold the same tail. */
  lemma CutIndependence(a: seq<Samples>, b: seq<Samples>)
    requires Flatten(a) == Flatten(b)
    ensures Drained(a) == Drained(b) && Held(a) == Held(b)
  {
    PushesCutTheStream(a);
    PushesCutTheStream(b);
  }

  class Downsampler {
    const codec: Codec
    /** Every frame processed so far: all that the state of the resampler can depend on. */
    var fed: seq<Samples>

    constructor (codec: Codec)
      ensures this.codec == codec && fed == []
    {
      this.codec, fed := codec, [];
    }

    method Process(frame: Samples) returns (nb: Option<Samples>)
      modifies this
      ensures fed == old(fed) + [frame] && nb == codec.resample(fed)
    {
      fed := fed + [frame];
      nb := codec.resample(fed);
    }
  }

  /** The payload made from frame `i`, by a resampler that was fed `fed` and then the frames before it. */
  ghost function PayloadAt(codec: Codec, fed: seq<Samples>, frames: seq<Samples>, i: nat): Option<seq<u8>>
    requires i < |frames|
  {
    codec.Payload(fed + frames[..i + 1])
  }

  /** `payloads` are the payloads of the first frames. */
  ghost predicate Encoded(codec: Codec, fed: seq<Samples>, frames: seq<Samples>, payloads: seq<seq<u8>>) {
    |payloads| <= |frames| &&
    forall i :: 0 <= i < |payloads| ==> PayloadAt(codec, fed, frames, i) == Some(payloads[i])
  }

  /** Frame `k` is the first that cannot be encoded. */
  ghost predicate FailsAt(codec: Codec, fed: seq<Samples>, frames: seq<Samples>, k: nat) {
    k < |frames| && PayloadAt(codec, fed, frames, k).None? &&
    forall i :: 0 <= i < k ==> PayloadAt(codec, fed, frames, i).Some?
  }

  class OpusToPcmuAccum {
    var buf: Samples

    constructor ()
      ensures buf == []
    {
      buf := [];
    }

    /** On success every whole frame of buffer and input is drained and encoded, in order. On failure
        the frames up to and including the one that went wrong are gone and the rest stays. */
    method Push(decoded: Samples, down: Downsampler) returns (r: Result<seq<seq<u8>>>)
      modifies this, down
      ensures r.Ok? ==>
        && buf == Tail(old(buf) + decoded)
        && down.fed == old(down.fed) + Frames(old(buf) + decoded)
        && |r.value| == |Frames(old(buf) + decoded)|
        && Encoded(down.codec, old(down.fed), Frames(old(buf) + decoded), r.value)
      ensures r.Err? ==>
        exists k: nat :: FailsAt(down.codec, old(down.fed), Frames(old(buf) + decoded), k)
          && down.fed == old(down.fed) + Frames(old(buf) + decoded)[..k + 1]
          && Frames(buf) == Frames(old(buf) + decoded)[k + 1..]
          && Tail(buf) == Tail(old(buf) + decoded)
    {
      buf := buf + decoded;
      var chunks: seq<seq<u8>> := [];
      ghost var fed0, frames, tail := down.fed, Frames(buf), Tail(buf);
      while |buf| >= WB_FRAME_SAMPLES
        invariant |chunks| <= |frames|
        invariant Frames(buf) == frames[|chunks|..] && Tail(buf) == tail
        invariant down.fed == fed0 + frames[..|chunks|]
        invariant Encoded(down.codec, fed0, frames, chunks)
        decreases |buf|
      {
        var chunk := buf[..WB_FRAME_SAMPLES];
        assert chunk == Frames(buf)[0] == frames[|chunks|];
        buf := buf[WB_FRAME_SAMPLES..];
        assert Frames(buf) == frames[|chunks| + 1..];
        assert frames[..|chunks| + 1] == frames[..|chunks|] + [chunk];
        var nb := down.Process(chunk);
        assert down.fed == fed0 + frames[..|chunks| + 1];
        assert down.codec.Payload(down.fed) == PayloadAt(down.codec, fed0, frames, |chunks|);
        if nb.None? {
          assert FailsAt(down.codec, fed0, frames, |chunks|);
          return Err("resampling failed");
        }
        if |nb.value| != NB_FRAME_SAMPLES {
          assert FailsAt(down.codec, fed0, frames, |chunks|);
          return Err("unexpected narrow-band frame length");
        }
        var ulaw := seq(|nb.value|, i requires 0 <= i < |nb.value| => down.codec.encodeUlaw(nb.value[i]));
        chunks := chunks + [ulaw];
      }
      r := Ok(chunks);
    }
  }
}
