/**
  The frame format shared by streams and datagrams: one type byte, a 16-bit length, the payload.
  Encoding is unique, decoding a stream inverts it, and a stream cut anywhere gives a prefix.
 */
module Frames {
  import opened Basics
  import opened Bytes

  const MAX_PAYLOAD := 65535
  const HEADER_SIZE := 3

  // Frame types.
  const DATA: byte := 0x05
  const MESH_PACKET: byte := 0x20

  datatype Frame = Frame(kind: byte, payload: seq<byte>)

  predicate Fits(f: Frame) {
    |f.payload| <= MAX_PAYLOAD
  }

  ghost predicate AllFit(frames: seq<Frame>) {
    forall i :: 0 <= i < |frames| ==> Fits(frames[i])
  }

  /** The bytes of a frame; a payload over the limit keeps only the low 16 bits of its length. */
  function Encode(f: Frame): seq<byte> {
    [f.kind] + Be16Bytes(|f.payload|) + f.payload
  }

  function EncodeAll(frames: seq<Frame>): seq<byte> {
    if frames == [] then [] else Encode(frames[0]) + EncodeAll(frames[1..])
  }

  datatype Decoded = Incomplete | Decoded(frame: Frame, rest: seq<byte>)

  function Decode(input: seq<byte>): (d: Decoded)
    ensures d.Decoded? ==> Fits(d.frame) && |d.rest| < |input|
  {
    if |input| < HEADER_SIZE then Incomplete
    else
      var length := Be16(input[1], input[2]);
      if |input| < HEADER_SIZE + length then Incomplete
      else Decoded(Frame(input[0], input[3..3 + length]), input[3 + length..])
  }

  /** All complete frames of a stream, in order. */
  function DecodeAll(input: seq<byte>): seq<Frame>
    decreases |input|
  {
    match Decode(input)
    case Incomplete => []
    case Decoded(f, rest) => [f] + DecodeAll(rest)
  }

  lemma EncodeLayout(f: Frame, rest: seq<byte>)
    requires Fits(f)
    ensures var b := Encode(f) + rest;
            |b| == 3 + |f.payload| + |rest| && b[0] == f.kind && Be16(b[1], b[2]) == |f.payload|
    ensures (Encode(f) + rest)[3..3 + |f.payload|] == f.payload
    ensures (Encode(f) + rest)[3 + |f.payload|..] == rest
  {
    var head := [f.kind] + Be16Bytes(|f.payload|);
    assert |head| == 3;
    assert Encode(f) + rest == head + (f.payload + rest);
  }

  lemma DecodeInverts(f: Frame, rest: seq<byte>)
    requires Fits(f)
    ensures Decode(Encode(f) + rest) == Decoded(f, rest)
  {
    EncodeLayout(f, rest);
  }

  /** Whatever is decoded was encoded that way. */
  lemma DecodeIsUnique(input: seq<byte>)
    requires Decode(input).Decoded?
    ensures input == Encode(Decode(input).frame) + Decode(input).rest
  {
    var length := Be16(input[1], input[2]);
    assert Be16Bytes(length) == [input[1], input[2]];
    assert input == [input[0]] + [input[1], input[2]] + input[3..3 + length] + input[3 + length..];
  }

  lemma DecodeAllCons(f: Frame, more: seq<byte>)
    requires Fits(f)
    ensures DecodeAll(Encode(f) + more) == [f] + DecodeAll(more)
  {
    DecodeInverts(f, more);
  }

  /** A whole stream decodes back, up to an incomplete tail. */
  lemma {:induction false} DecodeAllInverts(frames: seq<Frame>, tail: seq<byte>)
    requires AllFit(frames) && Decode(tail).Incomplete?
    ensures DecodeAll(EncodeAll(frames) + tail) == frames
    decreases |frames|
  {
    if frames == [] {
      assert EncodeAll(frames) + tail == tail;
    } else {
      var first, rest := Encode(frames[0]), EncodeAll(frames[1..]);
      assert EncodeAll(frames) == first + rest;
      assert (first + rest) + tail == first + (rest + tail);
      DecodeAllCons(frames[0], rest + tail);
      DecodeAllInverts(frames[1..], tail);
      assert frames == [frames[0]] + frames[1..];
    }
  }

  /** So different lists of frames never look the same on the wire. */
  lemma EncodeAllInjective(xs: seq<Frame>, ys: seq<Frame>)
    requires AllFit(xs) && AllFit(ys) && EncodeAll(xs) == EncodeAll(ys)
    ensures xs == ys
  {
    assert EncodeAll(xs) + [] == EncodeAll(xs) && EncodeAll(ys) + [] == EncodeAll(ys);
    DecodeAllInverts(xs, []);
    DecodeAllInverts(ys, []);
  }

  lemma {:induction false} EncodeAllAppend(xs: seq<Frame>, ys: seq<Frame>)
    ensures EncodeAll(xs + ys) == EncodeAll(xs) + EncodeAll(ys)
    decreases |xs|
  {
    if xs == [] {
      assert xs + ys == ys;
    } else {
      assert (xs + ys)[1..] == xs[1..] + ys;
      EncodeAllAppend(xs[1..], ys);
    }
  }

  /** A stream cut at any byte gives the frames that arrived whole, and no others. */
  lemma {:induction false} CutGivesPrefix(frames: seq<Frame>, k: nat)
    requires AllFit(frames) && k <= |EncodeAll(frames)|
    ensures DecodeAll(EncodeAll(frames)[..k]) <= frames
    decreases |frames|
  {
    if frames == [] {
      assert EncodeAll(frames)[..k] == [];
    } else {
      var first, more := Encode(frames[0]), EncodeAll(frames[1..]);
      var cut := EncodeAll(frames)[..k];
      EncodeLayout(frames[0], more);
      if k < |first| {
        assert Decode(cut).Incomplete?;
      } else {
        assert cut == first + more[..k - |first|];
        DecodeInverts(frames[0], more[..k - |first|]);
        CutGivesPrefix(frames[1..], k - |first|);
      }
    }
  }

  // ---------------------------------------------------------------- datagrams

  /** One frame is one datagram; the declared length must be the actual one. */
  function ParseDatagramFrame(datagram: seq<byte>): (r: Option<Frame>) {
    if |datagram| < HEADER_SIZE then None
    else if Be16(datagram[1], datagram[2]) != |datagram| - HEADER_SIZE then None
    else Some(Frame(datagram[0], datagram[HEADER_SIZE..]))
  }

  /** A datagram comes back exactly when its payload is within the limit; a longer one is refused. */
  lemma DatagramRoundTrip(f: Frame)
    ensures ParseDatagramFrame(Encode(f)) == if Fits(f) then Some(f) else None
  {
    var d := Encode(f);
    assert |d| == 3 + |f.payload| && d[1] == |f.payload| / 256 % 256 && d[2] == |f.payload| % 256;
    assert d[3..] == f.payload;
  }

  /** And what is accepted is the encoding of what is returned. */
  lemma DatagramIsUnique(d: seq<byte>)
    requires ParseDatagramFrame(d).Some?
    ensures Encode(ParseDatagramFrame(d).value) == d && Fits(ParseDatagramFrame(d).value)
  {
    assert Be16Bytes(|d| - 3) == [d[1], d[2]];
    assert d == [d[0]] + [d[1], d[2]] + d[3..];
  }
}
