/** Wire frames: [length u32 big-endian][type][flags][payload]. Decoding a byte stream gives the same
    frames however the stream is cut into chunks. */
module Frames {
  import opened Common
  import opened Bytes

  const MAX_FRAME_LEN: nat := 0xFF_FFFF
  const HEADER_SIZE: nat := 6

  datatype Frame = Frame(kind: byte, flags: byte, payload: seq<byte>)

  predicate Valid(f: Frame) {
    |f.payload| <= MAX_FRAME_LEN
  }

  function ToBytes(f: Frame): (r: seq<byte>)
    ensures |r| == HEADER_SIZE + |f.payload|
  {
    BE(|f.payload|, 4) + [f.kind, f.flags] + f.payload
  }

  /** `Frame.from_bytes`; None stands for ProtocolError. */
  function FromBytes(d: seq<byte>): Option<Frame> {
    if |d| < HEADER_SIZE then None
    else
      var n := FromBE(d[..4]);
      if n > MAX_FRAME_LEN || |d| < HEADER_SIZE + n then None
      else Some(Frame(d[4], d[5], d[HEADER_SIZE..HEADER_SIZE + n]))
  }

  lemma HeaderReads(f: Frame, b: seq<byte>)
    requires Valid(f)
    ensures var d := ToBytes(f) + b;
            && FromBE(d[..4]) == |f.payload| && d[4] == f.kind && d[5] == f.flags
            && d[HEADER_SIZE..HEADER_SIZE + |f.payload|] == f.payload && d[..|ToBytes(f)|] == ToBytes(f)
               && d[|ToBytes(f)|..] == b
  {
    var d := ToBytes(f) + b;
    assert d[..4] == BE(|f.payload|, 4);
    Pow256Values();
    FromBEInverts(|f.payload|, 4);
  }

  lemma FrameRoundTrip(f: Frame)
    requires Valid(f)
    ensures FromBytes(ToBytes(f)) == Some(f)
  {
    HeaderReads(f, []);
    assert ToBytes(f) + [] == ToBytes(f);
  }

  /** `Frame.to_bytes`; None stands for ProtocolError. */
  function Encode(f: Frame): Option<seq<byte>> {
    if |f.payload| > MAX_FRAME_LEN then None else Some(ToBytes(f))
  }

  /** The limit is what three length bytes can say: the first of the four must be zero. */
  lemma LengthLimit(d: seq<byte>)
    requires |d| >= 4
    ensures FromBE(d[..4]) <= MAX_FRAME_LEN <==> d[0] == 0
  {
    var s := d[..4];
    assert s[..3][..2] == s[..2] && s[..2][..1] == s[..1];
    assert FromBE(s[..1]) == d[0] as int by { assert s[..1][..0] == []; }
    assert FromBE(s[..2]) == 256 * FromBE(s[..1]) + d[1] as int by { assert s[..2][..1] == s[..1]; }
    assert FromBE(s[..3]) == 256 * FromBE(s[..2]) + d[2] as int by { assert s[..3][..2] == s[..2]; }
  }

  /** A frame is encoded exactly up to 16 777 215 bytes of payload, and then decodes to itself, whatever
      follows it; bytes decode exactly when they begin with a frame so encoded. */
  lemma CodecExact(f: Frame, d: seq<byte>)
    ensures Encode(f).Some? <==> |f.payload| < 0x100_0000
    ensures Encode(f).Some? ==> FromBytes(Encode(f).value + d) == Some(f)
    ensures FromBytes(d) == Some(f) <==> Encode(f).Some? && Encode(f).value <= d
  {
    if Encode(f).Some? {
      HeaderReads(f, d);
    }
    if Encode(f).Some? && Encode(f).value <= d {
      var b := d[|ToBytes(f)|..];
      assert d == ToBytes(f) + b;
      HeaderReads(f, b);
    }
    if FromBytes(d) == Some(f) {
      BEInverts(d[..4]);
      var n := |f.payload|;
      assert ToBytes(f) == d[..HEADER_SIZE + n];
    }
  }

  // ----- a whole stream

  datatype Look = More | Malformed | Got(frame: Frame, size: nat)

  /** What the buffered bytes begin with. */
  function LookAt(b: seq<byte>): (r: Look)
    ensures r.Got? ==> HEADER_SIZE <= r.size <= |b|
  {
    if |b| < HEADER_SIZE then More
    else
      var n := FromBE(b[..4]);
      if n > MAX_FRAME_LEN then Malformed
      else if |b| < HEADER_SIZE + n then More
      else Got(Frame(b[4], b[5], b[HEADER_SIZE..HEADER_SIZE + n]), HEADER_SIZE + n)
  }

  /** Malformed are exactly the headers whose first byte is not zero. */
  lemma MalformedExactly(b: seq<byte>)
    ensures LookAt(b).Malformed? <==> |b| >= HEADER_SIZE && b[0] != 0
  {
    if |b| >= HEADER_SIZE {
      LengthLimit(b);
    }
  }

  /** The frames of a stream in order, what is left, and whether that is malformed. */
  datatype Decoded = Decoded(frames: seq<Frame>, rest: seq<byte>, bad: bool)

  function Decode(b: seq<byte>): Decoded
    decreases |b|
  {
    match LookAt(b)
    case More => Decoded([], b, false)
    case Malformed => Decoded([], b, true)
    case Got(f, n) =>
      var d := Decode(b[n..]);
      Decoded([f] + d.frames, d.rest, d.bad)
  }

  function Prepend(fs: seq<Frame>, d: Decoded): Decoded {
    d.(frames := fs + d.frames)
  }

  lemma LookAppend(a: seq<byte>, b: seq<byte>)
    ensures LookAt(a).Got? ==> LookAt(a + b) == LookAt(a) && (a + b)[LookAt(a).size..] == a[LookAt(a).size..] + b
    ensures LookAt(a).Malformed? ==> LookAt(a + b).Malformed?
  {
    if |a| >= HEADER_SIZE {
      assert (a + b)[..4] == a[..4];
    }
  }

  /** Bytes that arrive later do not change what was decoded before: they continue from the rest. */
  lemma {:induction false} DecodeAppend(a: seq<byte>, b: seq<byte>)
    ensures !Decode(a).bad ==> Decode(a + b) == Prepend(Decode(a).frames, Decode(Decode(a).rest + b))
    ensures Decode(a).bad ==> Decode(a + b).bad && Decode(a + b).frames == Decode(a).frames
    decreases |a|
  {
    LookAppend(a, b);
    var l := LookAt(a);
    if l.Got? {
      var t := a[l.size..];
      DecodeAppend(t, b);
      hide LookAt;
      if !Decode(t).bad {
        calc {
          Decode(a + b);
        ==
          Prepend([l.frame], Decode(t + b));
        ==
          Prepend([l.frame], Prepend(Decode(t).frames, Decode(Decode(t).rest + b)));
        ==  { Together([l.frame], Decode(t).frames, Decode(Decode(t).rest + b)); }
          Prepend([l.frame] + Decode(t).frames, Decode(Decode(t).rest + b));
        }
      }
    } else if l.More? {
      assert Prepend([], Decode(a + b)) == Decode(a + b);
    }
  }

  lemma Together(x: seq<Frame>, y: seq<Frame>, d: Decoded)
    ensures Prepend(x, Prepend(y, d)) == Prepend(x + y, d)
  {
  }

  /** What stays buffered never holds a whole frame. */
  lemma {:induction false} RestIsShort(b: seq<byte>)
    ensures Decode(b).bad <==> LookAt(Decode(b).rest).Malformed?
    ensures !Decode(b).bad <==> LookAt(Decode(b).rest).More?
    decreases |b|
  {
    var l := LookAt(b);
    if l.Got? {
      RestIsShort(b[l.size..]);
    }
  }

  // ----- streams of valid frames

  function Wire(fs: seq<Frame>): seq<byte> {
    if fs == [] then [] else ToBytes(fs[0]) + Wire(fs[1..])
  }

  predicate AllValid(fs: seq<Frame>) {
    forall i :: 0 <= i < |fs| ==> Valid(fs[i])
  }

  lemma LookAtFrame(f: Frame, b: seq<byte>)
    requires Valid(f)
    ensures LookAt(ToBytes(f) + b) == Got(f, |ToBytes(f)|)
    ensures (ToBytes(f) + b)[|ToBytes(f)|..] == b
  {
    HeaderReads(f, b);
  }

  lemma OneFrame(f: Frame, b: seq<byte>)
    requires Valid(f)
    ensures Decode(ToBytes(f) + b) == Prepend([f], Decode(b))
  {
    LookAtFrame(f, b);
    hide LookAt, ToBytes;
  }

  lemma {:induction false} DecodeWire(fs: seq<Frame>, b: seq<byte>)
    requires AllValid(fs)
    ensures Decode(Wire(fs) + b) == Prepend(fs, Decode(b))
    decreases fs
  {
    hide Decode, ToBytes;
    if fs == [] {
      assert Wire(fs) + b == b;
      assert [] + Decode(b).frames == Decode(b).frames;
    } else {
      var f, t := fs[0], fs[1..];
      calc {
        Decode(Wire(fs) + b);
      ==  { assert Wire(fs) + b == ToBytes(f) + (Wire(t) + b); }
        Decode(ToBytes(f) + (Wire(t) + b));
      ==  { OneFrame(f, Wire(t) + b); }
        Prepend([f], Decode(Wire(t) + b));
      ==  { DecodeWire(t, b); }
        Prepend([f], Prepend(t, Decode(b)));
      ==  { Together([f], t, Decode(b)); assert [f] + t == fs; }
        Prepend(fs, Decode(b));
      }
    }
  }

  /** A proper prefix of a frame is never taken for a frame, nor for a malformed one. */
  lemma PartFrame(f: Frame, n: nat)
    requires Valid(f) && n < |ToBytes(f)|
    ensures Decode(ToBytes(f)[..n]) == Decoded([], ToBytes(f)[..n], false)
  {
    HeaderReads(f, []);
    var d := ToBytes(f);
    assert d + [] == d;
    if n >= HEADER_SIZE {
      assert d[..n][..4] == d[..4];
    }
  }

  /** Cut a stream anywhere: whole frames, then a proper prefix of the next one. */
  lemma {:induction false} CutStream(fs: seq<Frame>, n: nat) returns (k: nat, part: seq<byte>)
    requires n <= |Wire(fs)|
    ensures k <= |fs| && Wire(fs)[..n] == Wire(fs[..k]) + part
    ensures if k == |fs| then part == [] else |part| < |ToBytes(fs[k])| && part == ToBytes(fs[k])[..|part|]
    decreases fs
  {
    hide ToBytes;
    if fs == [] {
      k, part := 0, [];
    } else {
      var f, t := fs[0], fs[1..];
      var d := ToBytes(f);
      if n < |d| {
        k, part := 0, d[..n];
        assert Wire(fs)[..n] == d[..n];
        assert Wire(fs[..0]) == [];
      } else {
        var j;
        j, part := CutStream(t, n - |d|);
        k := j + 1;
        calc {
          Wire(fs)[..n];
        ==
          d + Wire(t)[..n - |d|];
        ==
          d + (Wire(t[..j]) + part);
        ==
          (d + Wire(t[..j])) + part;
        ==  { assert fs[..k][1..] == t[..j] && fs[..k][0] == f; }
          Wire(fs[..k]) + part;
        }
      }
    }
  }

  /** However much of the stream has arrived: exactly the frames that lie wholly in it have been
      delivered, and what is buffered is a proper prefix of the next one. */
  lemma DecodePrefix(fs: seq<Frame>, n: nat) returns (k: nat, part: seq<byte>)
    requires AllValid(fs) && n <= |Wire(fs)|
    ensures k <= |fs| && Wire(fs)[..n] == Wire(fs[..k]) + part
    ensures Decode(Wire(fs)[..n]) == Decoded(fs[..k], part, false)
    ensures if k == |fs| then part == [] else |part| < |ToBytes(fs[k])| && part == ToBytes(fs[k])[..|part|]
  {
    k, part := CutStream(fs, n);
    DecodeWire(fs[..k], part);
    if k < |fs| {
      PartFrame(fs[k], |part|);
    } else {
      assert Decode([]) == Decoded([], [], false);
    }
    assert fs[..k] + [] == fs[..k];
  }

  // ----- the reader

  datatype Fed = Frame_(frame: Frame) | Waiting | Broken

  class FrameReader {
    var buffer: seq<byte>

    constructor ()
      ensures buffer == []
    {
      buffer := [];
    }

    /** `feed`; Broken stands for ProtocolError. */
    method Feed(data: seq<byte>) returns (r: Fed)
      modifies this
      ensures match LookAt(old(buffer) + data)
              case More => r == Waiting && buffer == old(buffer) + data
              case Malformed => r == Broken && buffer == old(buffer) + data
              case Got(f, n) => r == Frame_(f) && buffer == (old(buffer) + data)[n..]
    {
      buffer := buffer + data;
      if |buffer| < HEADER_SIZE {
        return Waiting;
      }
      var n := FromBE(buffer[..4]);
      if n > MAX_FRAME_LEN {
        return Broken;
      }
      if |buffer| < HEADER_SIZE + n {
        return Waiting;
      }
      var d := buffer[..HEADER_SIZE + n];
      r := Frame_(Frame(d[4], d[5], d[HEADER_SIZE..]));
      buffer := buffer[HEADER_SIZE + n..];
    }

    /** One turn of the client's reader loop: feed a chunk, then drain. */
    method Drain(chunk: seq<byte>) returns (out: seq<Frame>, ok: bool)
      modifies this
      ensures Decoded(out, buffer, !ok) == Decode(old(buffer) + chunk)
    {
      ghost var all := buffer + chunk;
      var r := Feed(chunk);
      out := [];
      while r.Frame_?
        invariant r.Frame_? ==> Decode(all) == Prepend(out + [r.frame], Decode(buffer))
        invariant !r.Frame_? ==> Decode(all) == Prepend(out, Decode(buffer))
        invariant r == Waiting ==> LookAt(buffer) == More
        invariant r == Broken ==> LookAt(buffer) == Malformed
        decreases r.Frame_?, |buffer|
      {
        out := out + [r.frame];
        ghost var b := buffer;
        assert b + [] == b;
        r := Feed([]);
        if r.Frame_? {
          Together(out, [r.frame], Decode(buffer));
        }
      }
      ok := r == Waiting;
      assert out + [] == out;
    }

    /** The reader loop over any chunks: the frames of the whole stream, wherever it was cut. */
    method DrainAll(chunks: seq<seq<byte>>) returns (out: seq<Frame>, ok: bool)
      requires buffer == []
      modifies this
      ensures out == Decode(Concat(chunks)).frames && ok == !Decode(Concat(chunks)).bad
      ensures ok ==> buffer == Decode(Concat(chunks)).rest
    {
      out, ok := [], true;
      assert Concat(chunks[..0]) == [];
      for i := 0 to |chunks|
        invariant ok && Decoded(out, buffer, false) == Decode(Concat(chunks[..i]))
      {
        var sofar := Concat(chunks[..i]);
        ConcatStep(chunks, i);
        DecodeAppend(sofar, chunks[i]);
        var more;
        more, ok := Drain(chunks[i]);
        out := out + more;
        if !ok {
          BadForGood(chunks, i + 1);
          return;
        }
      }
      assert chunks[..|chunks|] == chunks;
    }

    /** One turn of the server's loop: exactly the header, then exactly the body. None: end of stream
        or an oversized length, and the connection closes. */
    method ServeOne(stream: seq<byte>) returns (f: Option<Frame>, rest: seq<byte>)
      requires buffer == []
      modifies this
      ensures buffer == []
      ensures match LookAt(stream)
              case Got(g, n) => f == Some(g) && rest == stream[n..]
              case _ => f == None
    {
      f, rest := None, stream;
      if |stream| < HEADER_SIZE {
        return;
      }
      var header := stream[..HEADER_SIZE];
      var n := FromBE(header[..4]);
      assert header[..4] == stream[..4];
      if n > MAX_FRAME_LEN || |stream| < HEADER_SIZE + n {
        return;
      }
      var body := stream[HEADER_SIZE..HEADER_SIZE + n];
      ghost var d := header + body;
      assert d == stream[..HEADER_SIZE + n] && [] + d == d;
      assert d[..4] == stream[..4] && d[4] == stream[4] && d[5] == stream[5] && d[HEADER_SIZE..HEADER_SIZE + n] == body;
      var r := Feed(header + body);
      assert d[HEADER_SIZE + n..] == [];
      f, rest := Some(r.frame), stream[HEADER_SIZE + n..];
    }
  }

  function Concat(chunks: seq<seq<byte>>): seq<byte> {
    if chunks == [] then [] else Concat(chunks[..|chunks| - 1]) + chunks[|chunks| - 1]
  }

  lemma ConcatStep(chunks: seq<seq<byte>>, i: nat)
    requires i < |chunks|
    ensures Concat(chunks[..i + 1]) == Concat(chunks[..i]) + chunks[i]
  {
    assert chunks[..i + 1][..i] == chunks[..i];
  }

  lemma {:induction false} BadForGood(chunks: seq<seq<byte>>, i: nat)
    requires i <= |chunks| && Decode(Concat(chunks[..i])).bad
    ensures Decode(Concat(chunks)).bad && Decode(Concat(chunks)).frames == Decode(Concat(chunks[..i])).frames
    decreases |chunks| - i
  {
    if i < |chunks| {
      ConcatStep(chunks, i);
      DecodeAppend(Concat(chunks[..i]), chunks[i]);
      BadForGood(chunks, i + 1);
    } else {
      assert chunks[..i] == chunks;
    }
  }

  /** Every list of valid frames, cut anywhere: exactly those frames, and nothing left over. */
  lemma AnyChunking(fs: seq<Frame>, chunks: seq<seq<byte>>)
    requires AllValid(fs) && Concat(chunks) == Wire(fs)
    ensures Decode(Concat(chunks)) == Decoded(fs, [], false)
  {
    DecodeWire(fs, []);
    assert Wire(fs) + [] == Wire(fs);
    assert Decode([]) == Decoded([], [], false);
    assert fs + [] == fs;
  }
}
