/** The four categorical pixel classes of tile art and the decoder that turns
    an RGBA byte buffer into a layer of them. */
module Pixels {
  import opened Results
  import opened Grid

  newtype byte = x: int | 0 <= x < 256

  /** A pixel class: a terrain height or transparency, never a colour. */
  datatype TilePixel = Up | Neutral | Down | None

  /** A row-major grid of pixels whose width is known only to its user. */
  datatype TileLayer = TileLayer(colors: seq<TilePixel>)

  /** Why a buffer failed to decode; `at` is the index of the offending pixel. */
  datatype DecodeError =
    | UnrecognizedPixel(at: nat)  // a complete quadruple outside the table
    | TruncatedPixel(at: nat)     // a trailing chunk of fewer than four bytes
  {
    /** The same error, reported one pixel further into the buffer. */
    function Later(): DecodeError {
      match this
      case UnrecognizedPixel(i) => UnrecognizedPixel(i + 1)
      case TruncatedPixel(i) => TruncatedPixel(i + 1)
    }
  }

  /** The RGBA quadruple by which tile art encodes each pixel class. */
  function Encode(p: TilePixel): seq<byte> {
    match p
    case None => [0, 0, 0, 0]
    case Up => [0, 0, 255, 255]
    case Neutral => [0, 255, 0, 255]
    case Down => [255, 0, 0, 255]
  }

  /** Classifies one RGBA quadruple; only the four encodings are recognised. */
  function Classify(r: byte, g: byte, b: byte, a: byte): (c: Option<TilePixel>)
    ensures forall p :: c == Some(p) <==> Encode(p) == [r, g, b, a]
  {
    if r == 0 && g == 0 && b == 0 && a == 0 then Some(None)
    else if r == 0 && g == 0 && b == 255 && a == 255 then Some(Up)
    else if r == 0 && g == 255 && b == 0 && a == 255 then Some(Neutral)
    else if r == 255 && g == 0 && b == 0 && a == 255 then Some(Down)
    else Nothing
  }

  /** The classification of the `i`-th complete quadruple of `bytes`. */
  function Quad(bytes: seq<byte>, i: nat): Option<TilePixel>
    requires PixelSize * i + PixelSize <= |bytes|
  {
    var k := PixelSize * i;
    Classify(bytes[k], bytes[k + 1], bytes[k + 2], bytes[k + 3])
  }

  /** True when every pixel before `n` is a complete, recognised quadruple. */
  predicate RecognisedBefore(bytes: seq<byte>, n: nat)
    requires PixelSize * n <= |bytes|
  {
    forall i :: 0 <= i < n ==> Quad(bytes, i).Some?
  }

  /** `e` is the first pixel of `bytes` at which decoding fails. */
  predicate FirstFailure(bytes: seq<byte>, e: DecodeError) {
    && PixelSize * e.at <= |bytes|
    && RecognisedBefore(bytes, e.at)
    && match e
       case TruncatedPixel(i) => PixelSize * i < |bytes| < PixelSize * i + PixelSize
       case UnrecognizedPixel(i) =>
         PixelSize * i + PixelSize <= |bytes| && Quad(bytes, i) == Nothing
  }

  /** Decodes consecutive RGBA quadruples, in order, into pixel classes.
      A trailing chunk shorter than four bytes, or a quadruple outside the
      table, aborts the whole decode. */
  function DecodePixels(bytes: seq<byte>): (r: Result<seq<TilePixel>, DecodeError>)
    ensures r.Ok? <==> |bytes| % PixelSize == 0 && RecognisedBefore(bytes, |bytes| / PixelSize)
    ensures r.Ok? ==> |r.value| == |bytes| / PixelSize
    ensures r.Ok? ==> forall i {:trigger Quad(bytes, i)} :: 0 <= i < |r.value| ==> Quad(bytes, i) == Some(r.value[i])
    ensures r.Err? ==> FirstFailure(bytes, r.error)
    decreases |bytes|
  {
    if |bytes| == 0 then Ok([])
    else if |bytes| < PixelSize then Err(TruncatedPixel(0))
    else
      match Quad(bytes, 0)
      case Nothing => Err(UnrecognizedPixel(0))
      case Some(p) =>
        var rest := bytes[PixelSize..];
        RecognisedAfterFirst(bytes);
        match DecodePixels(rest)
        case Ok(ps) =>
          ValuesAfterFirst(bytes, p, ps);
          Ok([p] + ps)
        case Err(e) =>
          FailureAfterFirst(bytes, e);
          Err(e.Later())
  }

  /** A buffer whose first pixel is recognised is recognised throughout
      exactly when the rest is. */
  lemma RecognisedAfterFirst(bytes: seq<byte>)
    requires PixelSize <= |bytes| && Quad(bytes, 0).Some?
    ensures var rest := bytes[PixelSize..];
            (|rest| % PixelSize == 0 && RecognisedBefore(rest, |rest| / PixelSize))
            <==> (|bytes| % PixelSize == 0 && RecognisedBefore(bytes, |bytes| / PixelSize))
  {
    ShiftQuads(bytes);
    var rest := bytes[PixelSize..];
    assert |bytes| / PixelSize == |rest| / PixelSize + 1;
    assert forall i :: 1 <= i < |bytes| / PixelSize ==> Quad(bytes, i) == Quad(rest, i - 1);
  }

  /** The pixels of a buffer are its first pixel followed by the pixels of
      the rest. */
  lemma ValuesAfterFirst(bytes: seq<byte>, p: TilePixel, ps: seq<TilePixel>)
    requires PixelSize <= |bytes| && Quad(bytes, 0) == Some(p)
    requires PixelSize * |ps| <= |bytes| - PixelSize
    requires forall i :: 0 <= i < |ps| ==> Quad(bytes[PixelSize..], i) == Some(ps[i])
    ensures forall i :: 0 <= i < |ps| + 1 ==> Quad(bytes, i) == Some(([p] + ps)[i])
  {
    ShiftQuads(bytes);
  }

  /** The first failure of the rest, one pixel on, is the first failure of
      a buffer whose first pixel is recognised. */
  lemma FailureAfterFirst(bytes: seq<byte>, e: DecodeError)
    requires PixelSize <= |bytes| && Quad(bytes, 0).Some?
    requires FirstFailure(bytes[PixelSize..], e)
    ensures FirstFailure(bytes, e.Later())
  {
    ShiftQuads(bytes);
    var rest := bytes[PixelSize..];
    assert forall i :: 1 <= i <= e.at ==> Quad(bytes, i) == Quad(rest, i - 1);
  }

  /** Dropping the first quadruple shifts every later quadruple down by one. */
  lemma ShiftQuads(bytes: seq<byte>)
    requires PixelSize <= |bytes|
    ensures forall i :: 0 <= i && PixelSize * i + PixelSize <= |bytes| - PixelSize ==>
      Quad(bytes[PixelSize..], i) == Quad(bytes, i + 1)
  {
  }

  /** Encodes a sequence of pixel classes as an RGBA buffer. */
  function EncodeAll(ps: seq<TilePixel>): (bytes: seq<byte>)
    ensures |bytes| == PixelSize * |ps|
  {
    if |ps| == 0 then [] else Encode(ps[0]) + EncodeAll(ps[1..])
  }

  /** Decoding undoes encoding. */
  lemma {:induction false} DecodeEncode(ps: seq<TilePixel>)
    ensures DecodePixels(EncodeAll(ps)) == Ok(ps)
  {
    if |ps| > 0 {
      var bytes := EncodeAll(ps);
      assert bytes[..PixelSize] == Encode(ps[0]);
      assert bytes[PixelSize..] == EncodeAll(ps[1..]);
      assert Quad(bytes, 0) == Some(ps[0]);
      DecodeEncode(ps[1..]);
      assert [ps[0]] + ps[1..] == ps;
    }
  }

  /** A buffer that decodes is exactly the encoding of what it decodes to, so
      no two buffers decode to the same pixels. */
  lemma {:induction false} EncodeDecode(bytes: seq<byte>, ps: seq<TilePixel>)
    requires DecodePixels(bytes) == Ok(ps)
    ensures EncodeAll(ps) == bytes
  {
    if |bytes| > 0 {
      var rest := bytes[PixelSize..];
      DecodeFirst(bytes, ps);
      EncodeDecode(rest, ps[1..]);
      assert bytes == bytes[..PixelSize] + rest;
    }
  }

  /** A non-empty buffer that decodes starts with the encoding of its first
      pixel, and its rest decodes to the remaining pixels. */
  lemma DecodeFirst(bytes: seq<byte>, ps: seq<TilePixel>)
    requires DecodePixels(bytes) == Ok(ps) && 0 < |bytes|
    ensures PixelSize <= |bytes| && 0 < |ps|
    ensures Encode(ps[0]) == bytes[..PixelSize]
    ensures DecodePixels(bytes[PixelSize..]) == Ok(ps[1..])
  {
    var rest := bytes[PixelSize..];
    assert Quad(bytes, 0) == Some(ps[0]);
    FirstQuadEncodes(bytes, ps[0]);
    match DecodePixels(rest)
    case Ok(qs) =>
      assert ps == [ps[0]] + qs;
    case Err(_) =>
      assert false;
  }

  /** A recognised first quadruple is the encoding of its class. */
  lemma FirstQuadEncodes(bytes: seq<byte>, p: TilePixel)
    requires PixelSize <= |bytes| && Quad(bytes, 0) == Some(p)
    ensures Encode(p) == bytes[..PixelSize]
  {
    assert Encode(p) == [bytes[0], bytes[1], bytes[2], bytes[3]];
  }

  /** A full tile of opaque green decodes to a full tile of `Neutral`. */
  lemma AllGreenIsNeutral()
    ensures var n := TileSize * TileSize;
            var bytes := seq(PixelSize * n, k => if k % 2 == 1 then 255 as byte else 0 as byte);
            DecodePixels(bytes) == Ok(seq(n, _ => Neutral))
  {
    var n := TileSize * TileSize;
    var bytes: seq<byte> := seq(PixelSize * n, k => if k % 2 == 1 then 255 as byte else 0 as byte);
    forall i | 0 <= i < n
      ensures Quad(bytes, i) == Some(Neutral)
    {
      var k := PixelSize * i;
      assert k % 2 == 0;
      assert bytes[k] == 0 && bytes[k + 1] == 255 && bytes[k + 2] == 0 && bytes[k + 3] == 255;
    }
    var r := DecodePixels(bytes);
    assert r.Ok?;
    forall i | 0 <= i < n
      ensures r.value[i] == Neutral
    {
      assert Quad(bytes, i) == Some(r.value[i]);
    }
    assert r.value == seq(n, _ => Neutral);
  }
}
