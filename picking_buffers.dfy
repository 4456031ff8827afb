/** The three flat attribute buffers the point cloud is drawn from: one
    position, one picking colour and one visible colour per point, three
    entries each, side by side in one array per attribute. */
module PickingBuffers {
  import opened ColorId

  /** A point as the component receives it: `[x, y, z]`. */
  type Point = Triple<real>

  /** The visible colour of every point, `#800080`, as its three hex bytes. */
  const Purple: Rgb := Triple(0x80, 0x00, 0x80)

  /** The triples of s laid out one after another, three entries per triple. */
  function Flatten<T>(s: seq<Triple<T>>): (r: seq<T>)
    ensures |r| == 3 * |s|
  {
    if s == [] then [] else [s[0].c0, s[0].c1, s[0].c2] + Flatten(s[1..])
  }

  /** Entry p of the flat layout is component p % 3 of triple p / 3. */
  lemma {:induction false} FlattenAt<T>(s: seq<Triple<T>>, p: nat)
    requires p < 3 * |s|
    ensures Flatten(s)[p] == s[p / 3].At(p % 3)
  {
    if p >= 3 {
      FlattenAt(s[1..], p - 3);
      assert (p - 3) / 3 == p / 3 - 1 && (p - 3) % 3 == p % 3;
    }
  }

  /** The picking colour of every point of a picture of n points, in order. */
  function PickingColors(n: nat): seq<Rgb>
  {
    seq(n, i requires 0 <= i => Encode(i))
  }

  /** The visible colour of every point of a picture of n points. */
  function VisibleColors(n: nat): seq<Rgb>
  {
    seq(n, _ => Purple)
  }

  /** The first 3 m entries of a hold the triples s[..m], laid out flat. */
  ghost predicate Filled<T>(a: array<T>, s: seq<Triple<T>>, m: nat)
    reads a
  {
    m <= |s| && 3 * m <= a.Length &&
    forall p :: 0 <= p < 3 * m ==> a[p] == s[p / 3].At(p % 3)
  }

  /** Writes triple t at `a[i * 3]`, `a[i * 3 + 1]`, `a[i * 3 + 2]`, extending
      the filled prefix by one triple and leaving the other entries alone. */
  method PutTriple<T>(a: array<T>, i: nat, t: Triple<T>, ghost s: seq<Triple<T>>)
    requires Filled(a, s, i) && i < |s| && s[i] == t && 3 * i + 3 <= a.Length
    modifies a
    ensures Filled(a, s, i + 1)
    ensures forall p :: 3 * i + 3 <= p < a.Length ==> a[p] == old(a[p])
  {
    a[i * 3] := t.c0;
    a[i * 3 + 1] := t.c1;
    a[i * 3 + 2] := t.c2;
    forall p | 3 * i <= p < 3 * i + 3
      ensures p / 3 == i && p % 3 == p - 3 * i
    {
    }
  }

  /** A fully filled array is the flat layout of its triples. */
  lemma FilledIsFlatten<T>(a: array<T>, s: seq<Triple<T>>)
    requires a.Length == 3 * |s| && Filled(a, s, |s|)
    ensures a[..] == Flatten(s)
  {
    forall p | 0 <= p < a.Length
      ensures a[..][p] == Flatten(s)[p]
    {
      FlattenAt(s, p);
    }
  }

  /** Fills the three buffers for the ordered point list `data` in one pass;
      the arrays are new, and nothing that existed before is written. */
  method BuildBuffers(data: seq<Point>)
    returns (positions: array<real>, pickingColors: array<Byte>, visibleColors: array<Byte>)
    ensures fresh(positions) && fresh(pickingColors) && fresh(visibleColors)
    ensures positions[..] == Flatten(data)
    ensures pickingColors[..] == Flatten(PickingColors(|data|))
    ensures visibleColors[..] == Flatten(VisibleColors(|data|))
  {
    var n := |data|;
    positions := new real[n * 3];
    pickingColors := new Byte[n * 3];
    visibleColors := new Byte[n * 3];
    ghost var picking, visible := PickingColors(n), VisibleColors(n);
    for i := 0 to n
      invariant Filled(positions, data, i)
      invariant Filled(pickingColors, picking, i)
      invariant Filled(visibleColors, visible, i)
    {
      PutTriple(positions, i, data[i], data);
      PutTriple(pickingColors, i, Encode(i), picking);
      PutTriple(visibleColors, i, Purple, visible);
    }
    FilledIsFlatten(positions, data);
    FilledIsFlatten(pickingColors, picking);
    FilledIsFlatten(visibleColors, visible);
  }

  /** Entry i * 3 + k of the position buffer is coordinate k of point i. */
  lemma PositionsAt(data: seq<Point>, i: nat, k: nat)
    requires i < |data| && k < 3
    ensures Flatten(data)[3 * i + k] == data[i].At(k)
  {
    FlattenAt(data, 3 * i + k);
    assert (3 * i + k) / 3 == i && (3 * i + k) % 3 == k;
  }

  /** Entry i * 3 + k of the picking buffer is channel k of point i's id. */
  lemma PickingColorsAt(n: nat, i: nat, k: nat)
    requires i < n && k < 3
    ensures Flatten(PickingColors(n))[3 * i + k] == Channel(IdOf(i), k)
  {
    FlattenAt(PickingColors(n), 3 * i + k);
    assert (3 * i + k) / 3 == i && (3 * i + k) % 3 == k;
  }

  /** Every triple of the visible buffer is the base colour. */
  lemma VisibleColorsAt(n: nat, i: nat, k: nat)
    requires i < n && k < 3
    ensures Flatten(VisibleColors(n))[3 * i + k] == Purple.At(k)
  {
    FlattenAt(VisibleColors(n), 3 * i + k);
    assert (3 * i + k) / 3 == i && (3 * i + k) % 3 == k;
  }

  /** Reading back the picking buffer's colour of point i, drawn with any
      non-zero alpha, names point i, as long as the ids fit in 24 bits. */
  lemma PickingBufferDecodes(n: nat, i: nat, a: Byte)
    requires n < Two24 && i < n && a > 0
    ensures var cs := Flatten(PickingColors(n));
      Decode(Pixel(cs[3 * i], cs[3 * i + 1], cs[3 * i + 2], a), n) == Some(i)
  {
    PickingColorsAt(n, i, 0);
    PickingColorsAt(n, i, 1);
    PickingColorsAt(n, i, 2);
    RoundTrip(i, a, n);
  }

  /** Different points of one picture, whose ids fit in 24 bits, have different
      picking colours in the buffer. */
  lemma PickingBufferDistinct(n: nat, i: nat, j: nat)
    requires n < Two24 && i < n && j < n && i != j
    ensures var cs := Flatten(PickingColors(n));
      Triple(cs[3 * i], cs[3 * i + 1], cs[3 * i + 2]) != Triple(cs[3 * j], cs[3 * j + 1], cs[3 * j + 2])
  {
    PickingColorsAt(n, i, 0);
    PickingColorsAt(n, i, 1);
    PickingColorsAt(n, i, 2);
    PickingColorsAt(n, j, 0);
    PickingColorsAt(n, j, 1);
    PickingColorsAt(n, j, 2);
    if Encode(i) == Encode(j) {
      EncodeInjective(i, j);
    }
  }
}
