/** The geometry a town derives from its marker polygon: the area in
    chunks, the bounding box and the midpoint of that box.

    The source hands the vertex lists to a polygon library; this model
    computes the same quantities over integer vertices: the area by the
    shoelace formula on the closed ring, the box as the minimum and maximum
    of each coordinate. */
module Geometry {

  /** `Bounds(min_x, min_y, max_x, max_y)`; the second axis is the map's z. */
  datatype Bounds = Bounds(minX: int, minY: int, maxX: int, maxY: int)

  type Vertex = (int, int)

  function Min(a: int, b: int): int { if a <= b then a else b }

  /** `zip(x, z)`: vertex pairs, as many as the shorter list has entries. */
  function Zip(xs: seq<int>, zs: seq<int>): (vs: seq<Vertex>)
    ensures |vs| == Min(|xs|, |zs|)
    ensures forall i :: 0 <= i < |vs| ==> vs[i] == (xs[i], zs[i])
  {
    seq(Min(|xs|, |zs|), i requires 0 <= i < Min(|xs|, |zs|) => (xs[i], zs[i]))
  }

  function Cross(a: Vertex, b: Vertex): int {
    a.0 * b.1 - b.0 * a.1
  }

  /** Sum of the cross products of the edges from vertex i on, the last
      vertex joined back to the first. */
  function ShoelaceFrom(vs: seq<Vertex>, i: nat): int
    requires i <= |vs|
    decreases |vs| - i
  {
    if i == |vs| then 0
    else Cross(vs[i], vs[(i + 1) % |vs|]) + ShoelaceFrom(vs, i + 1)
  }

  /** Twice the polygon's area: the absolute value of the shoelace sum. */
  function TwiceArea(vs: seq<Vertex>): (a: nat)
    ensures |vs| < 3 ==> a == 0
  {
    if |vs| < 3 then DegenerateRing(vs); 0
    else
      var s := ShoelaceFrom(vs, 0);
      if s < 0 then -s else s
  }

  /** A ring of fewer than three vertices runs each edge there and back:
      its shoelace sum is zero. */
  lemma DegenerateRing(vs: seq<Vertex>)
    requires |vs| < 3
    ensures ShoelaceFrom(vs, 0) == 0
  {
    if |vs| == 1 {
      assert ShoelaceFrom(vs, 1) == 0;
    } else if |vs| == 2 {
      assert ShoelaceFrom(vs, 2) == 0;
      assert ShoelaceFrom(vs, 1) == Cross(vs[1], vs[0]);
    }
  }

  /** The ring moved by (dx, dz). */
  function Translate(vs: seq<Vertex>, dx: int, dz: int): (ws: seq<Vertex>)
    ensures |ws| == |vs|
    ensures forall i :: 0 <= i < |vs| ==> ws[i] == (vs[i].0 + dx, vs[i].1 + dz)
  {
    seq(|vs|, i requires 0 <= i < |vs| => (vs[i].0 + dx, vs[i].1 + dz))
  }

  /** Moving both ends of an edge by (dx, dz) adds to its cross product
      a term that depends only on the edge's direction. */
  lemma CrossTranslate(a: Vertex, b: Vertex, dx: int, dz: int)
    ensures Cross((a.0 + dx, a.1 + dz), (b.0 + dx, b.1 + dz))
         == Cross(a, b) + dx * (b.1 - a.1) - dz * (b.0 - a.0)
  {
    calc {
      Cross((a.0 + dx, a.1 + dz), (b.0 + dx, b.1 + dz));
      (a.0 + dx) * (b.1 + dz) - (b.0 + dx) * (a.1 + dz);
      a.0 * b.1 + a.0 * dz + dx * b.1 + dx * dz - b.0 * a.1 - b.0 * dz - dx * a.1 - dx * dz;
      Cross(a, b) + dx * (b.1 - a.1) - dz * (b.0 - a.0);
    }
  }

  /** The added terms telescope along the ring: from vertex i on they sum
      to the step from vertex i back to vertex 0. */
  lemma {:induction false} ShoelaceTranslate(vs: seq<Vertex>, dx: int, dz: int, i: nat)
    requires i < |vs|
    ensures ShoelaceFrom(Translate(vs, dx, dz), i)
         == ShoelaceFrom(vs, i) + dx * (vs[0].1 - vs[i].1) - dz * (vs[0].0 - vs[i].0)
    decreases |vs| - i
  {
    var ws := Translate(vs, dx, dz);
    var n := (i + 1) % |vs|;
    CrossTranslate(vs[i], vs[n], dx, dz);
    if i + 1 == |vs| {
      assert n == 0;
      assert ShoelaceFrom(ws, i + 1) == 0 && ShoelaceFrom(vs, i + 1) == 0;
    } else {
      assert n == i + 1;
      ShoelaceTranslate(vs, dx, dz, i + 1);
    }
  }

  /** Moving a polygon does not change its area. */
  lemma TranslateKeepsArea(vs: seq<Vertex>, dx: int, dz: int)
    ensures TwiceArea(Translate(vs, dx, dz)) == TwiceArea(vs)
  {
    if |vs| >= 3 {
      ShoelaceTranslate(vs, dx, dz, 0);
    }
  }

  /** A w x h rectangle anywhere on the map has area w * h. */
  lemma RectangleArea(x: int, z: int, w: nat, h: nat)
    ensures TwiceArea([(x, z), (x + w, z), (x + w, z + h), (x, z + h)]) == 2 * w * h
  {
    var vs := [(x, z), (x + w, z), (x + w, z + h), (x, z + h)];
    var os := [(0, 0), (w as int, 0), (w as int, h as int), (0, h as int)];
    assert Translate(os, x, z) == vs;
    TranslateKeepsArea(os, x, z);
    assert ShoelaceFrom(os, 3) == 0;
    assert ShoelaceFrom(os, 2) == w * h;
    assert ShoelaceFrom(os, 1) == 2 * w * h;
    assert ShoelaceFrom(os, 0) == 2 * w * h;
  }

  /** `int(polygon.area // 256)`: whole chunks of 16 x 16 blocks. */
  function ChunkArea(vs: seq<Vertex>): (a: nat)
    ensures a * 512 <= TwiceArea(vs) < (a + 1) * 512
  {
    TwiceArea(vs) / 512
  }

  /** The smallest of a non-empty list. */
  function MinOf(s: seq<int>): (m: int)
    requires |s| > 0
    ensures m in s && forall x :: x in s ==> m <= x
  {
    if |s| == 1 then s[0]
    else
      var r := MinOf(s[1..]);
      assert s == [s[0]] + s[1..];
      if s[0] <= r then s[0] else r
  }

  /** The largest of a non-empty list. */
  function MaxOf(s: seq<int>): (m: int)
    requires |s| > 0
    ensures m in s && forall x :: x in s ==> x <= m
  {
    if |s| == 1 then s[0]
    else
      var r := MaxOf(s[1..]);
      assert s == [s[0]] + s[1..];
      if s[0] >= r then s[0] else r
  }

  function Xs(vs: seq<Vertex>): seq<int> {
    seq(|vs|, i requires 0 <= i < |vs| => vs[i].0)
  }

  function Zs(vs: seq<Vertex>): seq<int> {
    seq(|vs|, i requires 0 <= i < |vs| => vs[i].1)
  }

  /** `polygon.bounds` of the vertices: the smallest box holding them all. */
  function BoundsOf(vs: seq<Vertex>): (b: Bounds)
    requires |vs| > 0
    ensures b.minX <= b.maxX && b.minY <= b.maxY
    ensures forall v :: v in vs ==> b.minX <= v.0 <= b.maxX && b.minY <= v.1 <= b.maxY
    ensures exists v :: v in vs && v.0 == b.minX
    ensures exists v :: v in vs && v.0 == b.maxX
    ensures exists v :: v in vs && v.1 == b.minY
    ensures exists v :: v in vs && v.1 == b.maxY
  {
    var xs, zs := Xs(vs), Zs(vs);
    assert vs[0].0 == xs[0] && vs[0].1 == zs[0];
    forall v | v in vs
      ensures v.0 in xs && v.1 in zs
    {
      var i :| 0 <= i < |vs| && vs[i] == v;
      assert xs[i] == v.0 && zs[i] == v.1;
    }
    var b := Bounds(MinOf(xs), MinOf(zs), MaxOf(xs), MaxOf(zs));
    ghost var i1 :| 0 <= i1 < |xs| && xs[i1] == b.minX;
    ghost var i2 :| 0 <= i2 < |xs| && xs[i2] == b.maxX;
    ghost var i3 :| 0 <= i3 < |zs| && zs[i3] == b.minY;
    ghost var i4 :| 0 <= i4 < |zs| && zs[i4] == b.maxY;
    assert vs[i1] in vs && vs[i2] in vs && vs[i3] in vs && vs[i4] in vs;
    b
  }

  /** `((max_x + min_x) // 2, (max_y + min_y) // 2)`; Python's floor division
      by 2 is Dafny's `/` on int. */
  function Midpoint(b: Bounds): (m: (int, int))
    ensures 2 * m.0 <= b.maxX + b.minX < 2 * m.0 + 2
    ensures 2 * m.1 <= b.maxY + b.minY < 2 * m.1 + 2
  {
    ((b.maxX + b.minX) / 2, (b.maxY + b.minY) / 2)
  }

  /** The midpoint of a box lies in the box. */
  lemma MidpointWithinBounds(b: Bounds)
    requires b.minX <= b.maxX && b.minY <= b.maxY
    ensures b.minX <= Midpoint(b).0 <= b.maxX
    ensures b.minY <= Midpoint(b).1 <= b.maxY
  {
  }

  /** A 16 x 16 square, 256 square blocks, is one chunk. */
  lemma SquareOfSixteenIsOneChunk()
    ensures ChunkArea(Zip([0, 16, 16, 0], [0, 0, 16, 16])) == 1
  {
    var vs := Zip([0, 16, 16, 0], [0, 0, 16, 16]);
    assert vs == [(0, 0), (16, 0), (16, 16), (0, 16)];
    assert ShoelaceFrom(vs, 3) == 0;
    assert ShoelaceFrom(vs, 2) == 256;
    assert ShoelaceFrom(vs, 1) == 512;
    assert ShoelaceFrom(vs, 0) == 512;
  }
}
