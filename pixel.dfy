/** The 4-byte RGBA pixel record shared by every program of the repository,
    and its row-major byte layout (4 bytes per pixel, red first). */
module Pixels {

  /** An `unsigned char`. */
  type Byte = x: int | 0 <= x < 256

  /** Size in bytes of one pixel record (`sizeof(pixel)`). */
  const PixelSize: nat := 4

  datatype Pixel = Pixel(r: Byte, g: Byte, b: Byte, a: Byte)

  /** The all-zero pixel, the content of a freshly allocated buffer. */
  const Blank: Pixel := Pixel(0, 0, 0, 0)

  /** A freshly allocated buffer of `n` pixels. */
  function Blanks(n: nat): (s: seq<Pixel>)
    ensures |s| == n && forall i :: 0 <= i < n ==> s[i] == Blank
  {
    seq(n, _ => Blank)
  }

  /** Colour channel `c` (0 = red, 1 = green, 2 = blue) of `p`. */
  function Channel(p: Pixel, c: nat): (v: Byte)
    requires c < 3
    ensures c == 0 ==> v == p.r
    ensures c == 1 ==> v == p.g
    ensures c == 2 ==> v == p.b
  {
    if c == 0 then p.r else if c == 1 then p.g else p.b
  }

  /** The colour channels of a computed pixel, before its alpha is set. */
  datatype Rgb = Rgb(r: Byte, g: Byte, b: Byte)

  /** The pixel both interpolating programs store for colour `c`: alpha 255. */
  function Opaque(c: Rgb): Pixel
  {
    Pixel(c.r, c.g, c.b, 255)
  }

  /** The bytes of a pixel buffer as the transport sees them. */
  function Serialize(s: seq<Pixel>): (bytes: seq<Byte>)
  {
    if s == [] then [] else [s[0].r, s[0].g, s[0].b, s[0].a] + Serialize(s[1..])
  }

  lemma {:induction false} SerializeLength(s: seq<Pixel>)
    ensures |Serialize(s)| == PixelSize * |s|
  {
    if s != [] {
      SerializeLength(s[1..]);
    }
  }

  /** Byte `4*i + k` of a buffer is field `k` of pixel `i`. */
  lemma {:induction false} SerializeAt(s: seq<Pixel>, i: nat, k: nat)
    requires i < |s| && k < PixelSize
    ensures |Serialize(s)| == PixelSize * |s|
    ensures Serialize(s)[PixelSize * i + k] == [s[i].r, s[i].g, s[i].b, s[i].a][k]
  {
    SerializeLength(s);
    if i > 0 {
      SerializeAt(s[1..], i - 1, k);
      SerializeLength(s[1..]);
    }
  }

  /** Decoding a byte buffer whose length is a multiple of 4 back into pixels. */
  function Deserialize(bytes: seq<Byte>): (s: seq<Pixel>)
    requires |bytes| % PixelSize == 0
    ensures |s| == |bytes| / PixelSize
  {
    if bytes == [] then []
    else [Pixel(bytes[0], bytes[1], bytes[2], bytes[3])] + Deserialize(bytes[4..])
  }

  lemma {:induction false} DeserializeSerialize(s: seq<Pixel>)
    ensures |Serialize(s)| % PixelSize == 0
    ensures Deserialize(Serialize(s)) == s
  {
    SerializeLength(s);
    if s != [] {
      DeserializeSerialize(s[1..]);
      SerializeLength(s[1..]);
      assert Serialize(s)[4..] == Serialize(s[1..]);
    }
  }

  /** Serialization distributes over concatenation. */
  lemma {:induction false} SerializeAppend(s: seq<Pixel>, t: seq<Pixel>)
    ensures Serialize(s + t) == Serialize(s) + Serialize(t)
  {
    if s != [] {
      SerializeAppend(s[1..], t);
      assert (s + t)[1..] == s[1..] + t;
    } else {
      assert s + t == t;
    }
  }

  /** Transferring the byte range `[4*lo, 4*hi)` of a pixel buffer is the same
      as transferring pixels `[lo, hi)`: every byte count and displacement the
      engine uses is a multiple of `PixelSize`, so the model moves pixels. */
  lemma SerializeSlice(s: seq<Pixel>, lo: nat, hi: nat)
    requires lo <= hi <= |s|
    ensures |Serialize(s)| == PixelSize * |s|
    ensures Serialize(s)[PixelSize * lo .. PixelSize * hi] == Serialize(s[lo..hi])
  {
    var a, b, c := s[..lo], s[lo..hi], s[hi..];
    assert s == a + b + c;
    SerializeAppend(a + b, c);
    SerializeAppend(a, b);
    SerializeLength(a);
    SerializeLength(b);
    SerializeLength(s);
  }

  /** Row-major addressing: pixel `(y, x)` of a `width`-wide buffer sits at
      `y*width + x`, inside a buffer of `height` rows. */
  lemma RowMajorIndex(y: nat, x: nat, width: nat, height: nat)
    requires y < height && x < width
    ensures y * width + x < width * height
  {
    assert y * width + x < (y + 1) * width;
    assert (y + 1) * width <= height * width by {
      MulLeq(y + 1, height, width);
    }
  }

  /** A row-major index determines its row and column. */
  lemma RowMajorDivMod(y: nat, x: nat, width: nat)
    requires x < width
    ensures (y * width + x) / width == y && (y * width + x) % width == x
  {
    var i := y * width + x;
    var q, r := i / width, i % width;
    assert q * width + r == y * width + x;
    if q < y {
      MulLeq(q + 1, y, width);
    } else if q > y {
      MulLeq(y + 1, q, width);
    }
  }

  lemma MulLeq(a: nat, b: nat, k: nat)
    requires a <= b
    ensures a * k <= b * k
  {
  }

  lemma ScaleLeq(k: nat, a: nat, b: nat)
    requires a <= b
    ensures k * a <= k * b
  {
    MulLeq(a, b, k);
  }
}
