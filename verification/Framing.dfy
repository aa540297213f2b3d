/** Byte streams cut into frames of one fixed size. */
module Framing {
  import opened RingIndex
  type Byte = b: nat | b < 256

  /** The complete frames of a stream. */
  function Frames(size: nat, stream: seq<Byte>): seq<seq<Byte>>
    requires size > 0
    decreases |stream|
  {
    if |stream| < size then [] else [stream[..size]] + Frames(size, stream[size..])
  }

  /** The incomplete frame at the end of a stream. */
  function Rest(size: nat, stream: seq<Byte>): (r: seq<Byte>)
    requires size > 0
    ensures |r| < size
    decreases |stream|
  {
    if |stream| < size then stream else Rest(size, stream[size..])
  }

  lemma {:induction false} FirstFrame(size: nat, stream: seq<Byte>)
    requires 0 < size <= |stream|
    ensures Frames(size, stream) == [stream[..size]] + Frames(size, stream[size..])
    ensures Rest(size, stream) == Rest(size, stream[size..])
  {
  }

  function Concat(frames: seq<seq<Byte>>): seq<Byte> {
    if frames == [] then [] else frames[0] + Concat(frames[1..])
  }

  ghost predicate AllSized(size: nat, frames: seq<seq<Byte>>) {
    forall i :: 0 <= i < |frames| ==> |frames[i]| == size
  }

  lemma {:induction false} FrameSizes(size: nat, stream: seq<Byte>)
    requires size > 0
    ensures AllSized(size, Frames(size, stream))
    ensures |stream| == size * |Frames(size, stream)| + |Rest(size, stream)|
    decreases |stream|
  {
    if |stream| >= size {
      FrameSizes(size, stream[size..]);
      var frames, later := Frames(size, stream), Frames(size, stream[size..]);
      assert forall i :: 0 < i < |frames| ==> frames[i] == later[i - 1];
      assert size * (|later| + 1) == size * |later| + size;
    }
  }

  /** Cutting loses nothing. */
  lemma {:induction false} CutAndJoin(size: nat, stream: seq<Byte>)
    requires size > 0
    ensures Concat(Frames(size, stream)) + Rest(size, stream) == stream
    decreases |stream|
  {
    if |stream| >= size {
      CutAndJoin(size, stream[size..]);
      var later := Frames(size, stream[size..]);
      assert Frames(size, stream)[1..] == later;
      assert stream == stream[..size] + (Concat(later) + Rest(size, stream[size..]));
    }
  }

  /** Bytes that arrive later only complete the open frame: how they were chunked does not matter. */
  lemma {:induction false} ArriveLater(size: nat, stream: seq<Byte>, more: seq<Byte>)
    requires size > 0
    ensures Frames(size, stream + more) == Frames(size, stream) + Frames(size, Rest(size, stream) + more)
    ensures Rest(size, stream + more) == Rest(size, Rest(size, stream) + more)
    decreases |stream|
  {
    if |stream| >= size {
      assert (stream + more)[..size] == stream[..size];
      assert (stream + more)[size..] == stream[size..] + more;
      ArriveLater(size, stream[size..], more);
    }
  }

  /** Frames of the right size come out of the wire as they went in. */
  lemma {:induction false} JoinAndCut(size: nat, frames: seq<seq<Byte>>)
    requires size > 0 && AllSized(size, frames)
    ensures Frames(size, Concat(frames)) == frames && Rest(size, Concat(frames)) == []
    ensures |Concat(frames)| == size * |frames|
  {
    if frames != [] {
      assert AllSized(size, frames[1..]) by {
        assert forall i :: 0 <= i < |frames[1..]| ==> frames[1..][i] == frames[i + 1];
      }
      JoinAndCut(size, frames[1..]);
      assert Concat(frames)[..size] == frames[0] && Concat(frames)[size..] == Concat(frames[1..]);
    }
  }

  lemma {:induction false} ConcatAppend(a: seq<seq<Byte>>, b: seq<seq<Byte>>)
    ensures Concat(a + b) == Concat(a) + Concat(b)
  {
    if a == [] {
      assert a + b == b;
    } else {
      assert (a + b)[1..] == a[1..] + b;
      ConcatAppend(a[1..], b);
    }
  }

  /** A prefix of a stream has a prefix of its frames. */
  lemma {:induction false} FramesOfPrefix(size: nat, stream: seq<Byte>, n: nat)
    requires size > 0 && n <= |stream|
    ensures Frames(size, stream[..n]) <= Frames(size, stream)
    ensures |Frames(size, stream[..n])| == n / size
  {
    assert stream == stream[..n] + stream[n..];
    ArriveLater(size, stream[..n], stream[n..]);
    FrameSizes(size, stream[..n]);
    FrameCount(size, n, |Frames(size, stream[..n])|, |Rest(size, stream[..n])|);
  }

  lemma FrameCount(size: nat, n: nat, frames: nat, rest: nat)
    requires rest < size && n == size * frames + rest
    ensures n / size == frames
  {
    ModUnique(n, size, frames, rest);
  }
}
