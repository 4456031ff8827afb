/** The colour-ID codec of the point picker: a point index becomes an id one
    larger, the id is split into three byte channels for the picking buffer,
    and a pixel read back from the picking target is turned into an index
    again, gated by its alpha byte and by the current point count. */
module ColorId {

  datatype Option<+T> = None | Some(value: T)

  /** One 8-bit channel, as stored in the picking target and the read-back buffer. */
  type Byte = x: int | 0 <= x < 256

  /** Three components of one point: a position or a colour. */
  datatype Triple<T> = Triple(c0: T, c1: T, c2: T) {
    /** Component k, as in `point[k]` and `colors[i * 3 + k]`. */
    function At(k: nat): T
      requires k < 3
    {
      if k == 0 then c0 else if k == 1 then c1 else c2
    }
  }

  type Rgb = Triple<Byte>

  /** The four bytes `readRenderTargetPixels` writes for one pixel. */
  datatype Pixel = Pixel(r: Byte, g: Byte, b: Byte, a: Byte) {
    function Color(): Rgb { Triple(r, g, b) }
  }

  const Two24: int := 0x100_0000
  const Two32: int := 0x1_0000_0000

  /** The picking id of point i: zero is kept for "nothing drawn here". */
  function IdOf(i: nat): (id: nat)
    ensures id > 0 && id - 1 == i
  {
    i + 1
  }

  /** Byte `k` (0, 1 or 2) of a non-negative id, as JavaScript computes
      `(id >> (8 * k)) & 0xff`: the operands are first taken to 32 bits, which
      leaves bits 0 to 23 alone, so this is the k-th base-256 digit of id. */
  function Channel(id: nat, k: nat): (c: Byte)
    requires k < 3
  {
    var w := id % Two32;
    if k == 0 then w % 256
    else if k == 1 then (w / 256) % 256
    else (w / 65536) % 256
  }

  /** The picking colour of point i: the three channels of its id. */
  function Encode(i: nat): (c: Rgb)
    ensures c.c0 + 256 * c.c1 + 65536 * c.c2 == IdOf(i) % Two24
  {
    var id := IdOf(i);
    PackDigits(id % Two32);
    TruncateTwice(id);
    Triple(Channel(id, 0), Channel(id, 1), Channel(id, 2))
  }

  /** The id a pixel carries: `r + (g << 8) + (b << 16) - 1`. The bytes are
      small, so the shifts never overflow and this is exact. */
  function PixelId(p: Pixel): (id: int)
    ensures -1 <= id < Two24 - 1
  {
    p.r + 256 * p.g + 65536 * p.b - 1
  }

  /** What one read-back pixel means for a picture of n points: nothing when
      the alpha byte is zero (no point drawn there), nothing when the id is
      not that of a current point, and otherwise the index of the point. */
  function Decode(p: Pixel, n: nat): (r: Option<nat>)
    ensures p.a == 0 ==> r == None
    ensures r.Some? ==> r.value < n && r.value + 1 < Two24
    ensures r.Some? ==> Encode(r.value) == p.Color()
  {
    if p.a > 0 then
      var id := PixelId(p);
      if id >= 0 && id < n then
        EncodeOfDigits(p.r, p.g, p.b);
        Some(id)
      else None
    else None
  }

  // ---- arithmetic on base-256 digits ----

  /** Three base-256 digits put back together give the number modulo 2^24. */
  lemma PackDigits(x: nat)
    ensures x % 256 + 256 * ((x / 256) % 256) + 65536 * ((x / 65536) % 256) == x % Two24
  {
    var q1 := x / 256;
    var q2 := q1 / 256;
    assert x == 256 * q1 + x % 256;
    assert q1 == 256 * q2 + q1 % 256;
    assert x / 65536 == q2;
    var q3 := q2 / 256;
    assert q2 == 256 * q3 + q2 % 256;
    assert x == x % 256 + 256 * (q1 % 256) + 65536 * (q2 % 256) + Two24 * q3;
  }

  /** Taking 32 bits first does not change the value modulo 2^24. */
  lemma TruncateTwice(x: nat)
    ensures (x % Two32) % Two24 == x % Two24
  {
    var q := x / Two32;
    assert x == Two32 * q + x % Two32;
    assert Two32 * q == Two24 * (256 * q);
  }

  /** The digits of `r + 256 g + 65536 b` are r, g and b. */
  lemma UnpackDigits(r: Byte, g: Byte, b: Byte)
    ensures var x := r + 256 * g + 65536 * b;
      x < Two24 && x % 256 == r && (x / 256) % 256 == g && (x / 65536) % 256 == b
  {
    var x := r + 256 * g + 65536 * b;
    assert x / 256 == g + 256 * b;
    assert x / 65536 == b;
  }

  /** A triple of bytes is fixed by the number it packs to. */
  lemma DigitsDetermine(c: Rgb, d: Rgb)
    requires c.c0 + 256 * c.c1 + 65536 * c.c2 == d.c0 + 256 * d.c1 + 65536 * d.c2
    ensures c == d
  {
    UnpackDigits(c.c0, c.c1, c.c2);
    UnpackDigits(d.c0, d.c1, d.c2);
  }

  /** The point whose id packs to the bytes r, g, b has exactly them as colour. */
  lemma EncodeOfDigits(r: Byte, g: Byte, b: Byte)
    requires r + 256 * g + 65536 * b > 0
    ensures Encode(r + 256 * g + 65536 * b - 1) == Triple(r, g, b)
  {
    var x := r + 256 * g + 65536 * b;
    UnpackDigits(r, g, b);
    assert IdOf(x - 1) % Two24 == x;
    DigitsDetermine(Encode(x - 1), Triple(r, g, b));
  }

  // ---- properties of the codec ----

  /** Decoding the picking colour of point i, drawn with any non-zero alpha,
      gives i back whenever i is a current point and its id fits in 24 bits. */
  lemma RoundTrip(i: nat, a: Byte, n: nat)
    requires i < n && i + 1 < Two24 && a > 0
    ensures Decode(Pixel(Encode(i).c0, Encode(i).c1, Encode(i).c2, a), n) == Some(i)
  {
    var c := Encode(i);
    assert c.c0 + 256 * c.c1 + 65536 * c.c2 == i + 1;
  }

  /** Decode yields point i exactly when the pixel is drawn, i is a current
      point whose id fits in 24 bits, and the pixel has i's picking colour. */
  lemma DecodeExactly(p: Pixel, n: nat, i: nat)
    ensures Decode(p, n) == Some(i) <==>
      (p.a > 0 && i < n && i + 1 < Two24 && Encode(i) == p.Color())
  {
    if p.a > 0 && i < n && i + 1 < Two24 && Encode(i) == p.Color() {
      RoundTrip(i, p.a, n);
    }
  }

  /** Points whose ids fit in 24 bits get pairwise different picking colours. */
  lemma EncodeInjective(i: nat, j: nat)
    requires i + 1 < Two24 && j + 1 < Two24
    requires Encode(i) == Encode(j)
    ensures i == j
  {
    RoundTrip(i, 255, Two24);
    RoundTrip(j, 255, Two24);
  }

  /** No channel triple of an id fitting in 24 bits is the cleared background. */
  lemma EncodeNotBackground(i: nat)
    requires i + 1 < Two24
    ensures Encode(i) != Triple(0, 0, 0)
  {
    assert IdOf(i) % Two24 == i + 1;
  }

  /** A drawn pixel whose id is not that of a current point names nothing;
      this covers the all-zero colour, whose id is -1. */
  lemma OutOfRangeMisses(p: Pixel, n: nat)
    requires PixelId(p) < 0 || PixelId(p) >= n
    ensures Decode(p, n) == None
  {
  }

  /** With no bound on the point count, the ids wrap: point 2^24 - 1 gets the
      background colour and can never be picked, and point i + 2^24 - 1 shares
      point i - 1's colour. */
  lemma EncodeWraps(i: nat, a: Byte, n: nat)
    ensures Encode(Two24 - 1) == Triple(0, 0, 0)
    ensures Decode(Pixel(0, 0, 0, a), n) == None
    ensures i > 0 ==> Encode(i + Two24 - 1) == Encode(i - 1)
  {
    DigitsDetermine(Encode(Two24 - 1), Triple(0, 0, 0));
    if i > 0 {
      assert (i + Two24) % Two24 == i % Two24;
      DigitsDetermine(Encode(i + Two24 - 1), Encode(i - 1));
    }
  }
}
