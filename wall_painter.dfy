/**
 * The interactive paint tool of `WallPainter.jsx`: a click reads the colour under the
 * pointer and runs a stack-based, 4-connected flood fill over the canvas's RGBA bytes.
 */
module WallPainter {
  import opened Wrappers
  import opened Pixels
  import HexColor

  /** The tolerance `floodFill` uses when its caller passes none. */
  const DefaultTolerance: int := 30

  /** An RGBA colour, one byte per channel. */
  datatype Rgba = Rgba(r: Byte, g: Byte, b: Byte, a: Byte)

  /** Canvas `ImageData`: row-major RGBA bytes, four per pixel. */
  datatype ImageData = ImageData(width: nat, height: nat, data: seq<Byte>) {
    predicate Valid() {
      |data| == width * height * 4
    }
  }

  /** A pixel coordinate `[x, y]` as the fill's stack holds it; it may lie outside the image. */
  datatype Point = Point(x: int, y: int)

  function Right(p: Point): Point { Point(p.x + 1, p.y) }
  function Left(p: Point): Point { Point(p.x - 1, p.y) }
  function Down(p: Point): Point { Point(p.x, p.y + 1) }
  function Up(p: Point): Point { Point(p.x, p.y - 1) }

  /** 4-connectivity: `q` is the right, left, lower or upper neighbour of `p`. */
  predicate Adjacent(p: Point, q: Point) {
    q == Right(p) || q == Left(p) || q == Down(p) || q == Up(p)
  }

  predicate InBounds(width: nat, height: nat, p: Point) {
    0 <= p.x < width && 0 <= p.y < height
  }

  /** `getIndex`: the pixel number of `p`, its position in the `visited` array. */
  function GetIndex(width: nat, p: Point): int {
    p.y * width + p.x
  }

  /** The pixel whose number is `k`. */
  function PointAt(width: nat, k: int): Point {
    if width == 0 then Point(0, 0) else Point(k % width, k / width)
  }

  /** Numbering the pixels of a width x height image is a bijection onto 0 .. width * height - 1. */
  lemma IndexInRange(width: nat, height: nat, p: Point)
    requires InBounds(width, height, p)
    ensures 0 <= GetIndex(width, p) < width * height
    ensures PointAt(width, GetIndex(width, p)) == p
  {
    RowMajorBound(p.y, p.x, height, width);
    DivModUnique(GetIndex(width, p), width, p.y, p.x);
  }

  lemma PointAtInRange(width: nat, height: nat, k: int)
    requires 0 <= k < width * height
    ensures InBounds(width, height, PointAt(width, k))
    ensures GetIndex(width, PointAt(width, k)) == k
  {
    RowMajorSplit(k, height, width);
  }

  /** The four bytes starting at `index`. */
  function PixelColor(data: seq<Byte>, index: int): Rgba
    requires 0 <= index && index + 4 <= |data|
  {
    Rgba(data[index], data[index + 1], data[index + 2], data[index + 3])
  }

  /** The colour of pixel `p` of the image. */
  function ColorOf(img: ImageData, p: Point): Rgba
    requires img.Valid() && InBounds(img.width, img.height, p)
  {
    IndexInRange(img.width, img.height, p);
    PixelColor(img.data, GetIndex(img.width, p) * 4)
  }

  /**
   * `getColorAtPos`: the colour at byte `(y * width + x) * 4`. Reads past either end of the
   * buffer give `undefined`, modelled as `None`; because the buffer holds whole pixels, that
   * happens exactly when the pixel number lies outside the image. An `x` beyond the row's end
   * still reads a real pixel, the one with the same pixel number in the next row.
   */
  function GetColorAtPos(img: ImageData, x: int, y: int): (c: Option<Rgba>)
    requires img.Valid()
    ensures c.Some? <==> 0 <= y * img.width + x < img.width * img.height
    ensures c.Some? ==> var p := PointAt(img.width, y * img.width + x);
      InBounds(img.width, img.height, p) && c.value == ColorOf(img, p)
    ensures InBounds(img.width, img.height, Point(x, y)) ==> c == Some(ColorOf(img, Point(x, y)))
  {
    var index := (y * img.width + x) * 4;
    ByteRange(img.width * img.height, |img.data|, y * img.width + x);
    InBoundsNumbered(img.width, img.height, Point(x, y));
    if 0 <= index && index + 4 <= |img.data| then
      PointAtInRange(img.width, img.height, y * img.width + x);
      Some(PixelColor(img.data, index))
    else
      None
  }

  /** The four bytes of pixel number `k` lie inside a buffer of `n` pixels exactly when `k` does. */
  lemma ByteRange(n: int, len: int, k: int)
    requires len == n * 4
    ensures (0 <= k * 4 && k * 4 + 4 <= len) <==> 0 <= k < n
  {
  }

  lemma InBoundsNumbered(width: nat, height: nat, p: Point)
    ensures InBounds(width, height, p) ==> 0 <= GetIndex(width, p) < width * height
  {
    if InBounds(width, height, p) {
      IndexInRange(width, height, p);
    }
  }

  /** `Math.abs(a - b)`. */
  function AbsDiff(a: int, b: int): nat {
    if a < b then b - a else a - b
  }

  /** The largest per-channel difference between two colours, alpha included. */
  function ColorDistance(c: Rgba, d: Rgba): (n: nat)
    ensures n == 0 <==> c == d
  {
    var m1 := if AbsDiff(c.r, d.r) < AbsDiff(c.g, d.g) then AbsDiff(c.g, d.g) else AbsDiff(c.r, d.r);
    var m2 := if AbsDiff(c.b, d.b) < AbsDiff(c.a, d.a) then AbsDiff(c.a, d.a) else AbsDiff(c.b, d.b);
    if m1 < m2 then m2 else m1
  }

  /**
   * `matchColor`: each of the four channels at `index`, alpha included, differs from `color`
   * by at most `tolerance`.
   */
  function MatchColor(data: seq<Byte>, index: int, color: Rgba, tolerance: int): (m: bool)
    requires 0 <= index && index + 4 <= |data|
    ensures m <==> ColorDistance(PixelColor(data, index), color) <= tolerance
  {
    AbsDiff(data[index], color.r) <= tolerance &&
    AbsDiff(data[index + 1], color.g) <= tolerance &&
    AbsDiff(data[index + 2], color.b) <= tolerance &&
    AbsDiff(data[index + 3], color.a) <= tolerance
  }

  /** What `setColor` writes: the colour's red, green and blue with alpha forced to 255. */
  function Opaque(color: Rgba): Rgba {
    Rgba(color.r, color.g, color.b, 255)
  }

  /** Channel `i` of a colour in R, G, B, A order. */
  function Channel(c: Rgba, i: int): Byte
    requires 0 <= i < 4
  {
    if i == 0 then c.r else if i == 1 then c.g else if i == 2 then c.b else c.a
  }

  /** `setColor`: overwrite the four bytes at `index` with `color`, alpha 255. */
  method SetColor(data: array<Byte>, index: int, color: Rgba)
    requires 0 <= index && index + 4 <= data.Length
    modifies data
    ensures forall i :: 0 <= i < data.Length ==>
      data[i] == if index <= i < index + 4 then Channel(Opaque(color), i - index) else old(data[i])
  {
    data[index] := color.r;
    data[index + 1] := color.g;
    data[index + 2] := color.b;
    data[index + 3] := 255;
  }

  /** One fill request: the seed, the colour read at the seed, and the tolerance. */
  datatype Request = Request(seed: Point, target: Rgba, tolerance: int)

  /** A pixel the fill may paint: inside the image and, in the ORIGINAL image, within tolerance of the target. */
  predicate Fillable(img: ImageData, req: Request, p: Point)
    requires img.Valid()
  {
    InBounds(img.width, img.height, p) &&
    (IndexInRange(img.width, img.height, p);
     MatchColor(img.data, GetIndex(img.width, p) * 4, req.target, req.tolerance))
  }

  /** A 4-connected walk from the seed every step of which, except possibly the last, is fillable. */
  ghost predicate IsTrail(img: ImageData, req: Request, trail: seq<Point>)
    requires img.Valid()
  {
    && |trail| > 0
    && trail[0] == req.seed
    && (forall i :: 0 <= i < |trail| - 1 ==> Fillable(img, req, trail[i]) && Adjacent(trail[i], trail[i + 1]))
  }

  ghost predicate LeadsTo(img: ImageData, req: Request, trail: seq<Point>, p: Point)
    requires img.Valid()
  {
    IsTrail(img, req, trail) && trail[|trail| - 1] == p
  }

  /** `trail` shows that `p` belongs to the region: it reaches `p` through fillable pixels and `p` is fillable. */
  ghost predicate Reaches(img: ImageData, req: Request, trail: seq<Point>, p: Point)
    requires img.Valid()
  {
    LeadsTo(img, req, trail, p) && Fillable(img, req, p)
  }

  /** The fill region: the 4-connected closure, from the seed, of the fillable pixels. */
  ghost predicate InRegion(img: ImageData, req: Request, p: Point)
    requires img.Valid()
  {
    exists trail :: Reaches(img, req, trail, p)
  }

  lemma ExtendTrail(img: ImageData, req: Request, trail: seq<Point>, p: Point, q: Point)
    requires img.Valid() && Reaches(img, req, trail, p) && Adjacent(p, q)
    ensures LeadsTo(img, req, trail + [q], q)
  {
    var t := trail + [q];
    forall i | 0 <= i < |t| - 1
      ensures Fillable(img, req, t[i]) && Adjacent(t[i], t[i + 1])
    {
      if i < |trail| - 1 {
        assert t[i] == trail[i] && t[i + 1] == trail[i + 1];
      }
    }
  }

  /** `visited[getIndex(p)]`, false for a pixel outside the image. */
  ghost predicate IsVisited(width: nat, height: nat, visited: seq<bool>, p: Point)
    requires |visited| == width * height
  {
    InBounds(width, height, p) &&
    (IndexInRange(width, height, p); visited[GetIndex(width, p)])
  }

  /** Marking pixel `c` visits `c` and nothing else. */
  lemma MarkVisited(width: nat, height: nat, visited: seq<bool>, c: Point)
    requires |visited| == width * height && InBounds(width, height, c)
    ensures 0 <= GetIndex(width, c) < |visited|
    ensures forall q ::
      IsVisited(width, height, visited[GetIndex(width, c) := true], q) <==> IsVisited(width, height, visited, q) || q == c
  {
    IndexInRange(width, height, c);
    var marked := visited[GetIndex(width, c) := true];
    forall q
      ensures IsVisited(width, height, marked, q) <==> IsVisited(width, height, visited, q) || q == c
    {
      if InBounds(width, height, q) {
        IndexInRange(width, height, q);
        assert GetIndex(width, q) == GetIndex(width, c) ==> q == PointAt(width, GetIndex(width, c));
      }
    }
  }

  /** A pending pixel is handled: it is still on the stack, cannot be painted, or was painted. */
  ghost predicate Covered(img: ImageData, req: Request, stack: seq<Point>, visited: seq<bool>, q: Point)
    requires img.Valid() && |visited| == img.width * img.height
  {
    q in stack || !Fillable(img, req, q) || IsVisited(img.width, img.height, visited, q)
  }

  ghost predicate NeighboursCovered(img: ImageData, req: Request, stack: seq<Point>, visited: seq<bool>, p: Point)
    requires img.Valid() && |visited| == img.width * img.height
  {
    && Covered(img, req, stack, visited, Right(p))
    && Covered(img, req, stack, visited, Left(p))
    && Covered(img, req, stack, visited, Down(p))
    && Covered(img, req, stack, visited, Up(p))
  }

  /**
   * Once the stack is empty, the visited pixels are closed: the seed is covered and the
   * neighbours of every visited pixel are covered, so every pixel of the region was visited.
   */
  lemma {:induction false} ClosedContainsRegion(img: ImageData, req: Request, visited: seq<bool>, trail: seq<Point>, p: Point)
    requires img.Valid() && |visited| == img.width * img.height
    requires Covered(img, req, [], visited, req.seed)
    requires forall q :: IsVisited(img.width, img.height, visited, q) ==> NeighboursCovered(img, req, [], visited, q)
    requires Reaches(img, req, trail, p)
    ensures IsVisited(img.width, img.height, visited, p)
    decreases |trail|
  {
    if |trail| > 1 {
      var front := trail[..|trail| - 1];
      var prev := trail[|trail| - 2];
      assert Reaches(img, req, front, prev) by {
        forall i | 0 <= i < |front| - 1
          ensures Fillable(img, req, front[i]) && Adjacent(front[i], front[i + 1])
        {
          assert front[i] == trail[i] && front[i + 1] == trail[i + 1];
        }
      }
      ClosedContainsRegion(img, req, visited, front, prev);
      assert Adjacent(prev, p);
    }
  }

  /** Number of pixels not yet visited. */
  function CountUnvisited(visited: seq<bool>): (n: nat)
    ensures n <= |visited|
  {
    if visited == [] then 0 else (if visited[0] then 0 else 1) + CountUnvisited(visited[1..])
  }

  lemma {:induction false} CountUnvisitedAll(n: nat)
    ensures CountUnvisited(seq(n, _ => false)) == n
  {
    if n > 0 {
      assert seq(n, _ => false)[1..] == seq(n - 1, _ => false);
      CountUnvisitedAll(n - 1);
    }
  }

  lemma {:induction false} CountUnvisitedMark(visited: seq<bool>, k: int)
    requires 0 <= k < |visited| && !visited[k]
    ensures CountUnvisited(visited[k := true]) == CountUnvisited(visited) - 1
  {
    if k > 0 {
      assert visited[k := true][1..] == visited[1..][k - 1 := true];
      CountUnvisitedMark(visited[1..], k - 1);
    } else {
      assert visited[k := true][1..] == visited[1..];
    }
  }

  // The invariant of the fill loop, in four parts, with one lemma per part and kind of step.

  /** The canvas bytes: a visited pixel holds the fill colour with alpha 255, every other byte its original value. */
  ghost predicate Painting(img: ImageData, fill: Rgba, data: seq<Byte>, visited: seq<bool>)
    requires img.Valid() && |visited| == img.width * img.height
  {
    |data| == |img.data| &&
    forall i :: 0 <= i < |data| ==> data[i] == if visited[i / 4] then Channel(Opaque(fill), i % 4) else img.data[i]
  }

  /** Every pending coordinate has a trail from the seed, and every visited pixel a trail witnessing it is in the region. */
  ghost predicate Sound(img: ImageData, req: Request, stack: seq<Point>, trails: seq<seq<Point>>,
                        visited: seq<bool>, route: map<Point, seq<Point>>)
    requires img.Valid() && |visited| == img.width * img.height
  {
    && |trails| == |stack|
    && (forall j :: 0 <= j < |stack| ==> LeadsTo(img, req, trails[j], stack[j]))
    && (forall p :: IsVisited(img.width, img.height, visited, p) ==> p in route && Reaches(img, req, route[p], p))
  }

  /** Nothing is lost: the seed and every neighbour of a visited pixel are covered. */
  ghost predicate Complete(img: ImageData, req: Request, stack: seq<Point>, visited: seq<bool>)
    requires img.Valid() && |visited| == img.width * img.height
  {
    && Covered(img, req, stack, visited, req.seed)
    && forall p :: IsVisited(img.width, img.height, visited, p) ==> NeighboursCovered(img, req, stack, visited, p)
  }

  /** The ghost accounting: the painted list holds each visited pixel once, and pops balance pushes. */
  ghost predicate Ledger(width: nat, height: nat, visited: seq<bool>, painted: seq<Point>, pops: nat, pending: nat)
    requires |visited| == width * height
  {
    && (forall p :: p in painted <==> IsVisited(width, height, visited, p))
    && (forall i, j :: 0 <= i < j < |painted| ==> painted[i] != painted[j])
    && |painted| + CountUnvisited(visited) == width * height
    && pops + pending == 4 * |painted| + 1
  }

  lemma PaintingStart(img: ImageData, fill: Rgba, visited: seq<bool>)
    requires img.Valid() && visited == seq(img.width * img.height, _ => false)
    ensures Painting(img, fill, img.data, visited)
  {
  }

  /** Unvisited pixels still hold their original bytes, so `matchColor` on the canvas agrees with the original image. */
  lemma PaintingUnvisited(img: ImageData, fill: Rgba, data: seq<Byte>, visited: seq<bool>, c: Point)
    requires img.Valid() && |visited| == img.width * img.height && Painting(img, fill, data, visited)
    requires InBounds(img.width, img.height, c) && !IsVisited(img.width, img.height, visited, c)
    ensures 0 <= GetIndex(img.width, c) < img.width * img.height
    ensures PixelColor(data, GetIndex(img.width, c) * 4) == PixelColor(img.data, GetIndex(img.width, c) * 4)
  {
    IndexInRange(img.width, img.height, c);
    var index := GetIndex(img.width, c) * 4;
    assert forall j :: index <= j < index + 4 ==> j / 4 == GetIndex(img.width, c);
  }

  lemma PaintingVisit(img: ImageData, fill: Rgba, data: seq<Byte>, visited: seq<bool>, k: int, data': seq<Byte>)
    requires img.Valid() && |visited| == img.width * img.height && Painting(img, fill, data, visited)
    requires 0 <= k < |visited| && |data'| == |data|
    requires forall i :: 0 <= i < |data'| ==>
      data'[i] == if k * 4 <= i < k * 4 + 4 then Channel(Opaque(fill), i - k * 4) else data[i]
    ensures Painting(img, fill, data', visited[k := true])
  {
    forall i | 0 <= i < |data'|
      ensures data'[i] == if visited[k := true][i / 4] then Channel(Opaque(fill), i % 4) else img.data[i]
    {
      if k * 4 <= i < k * 4 + 4 {
        assert i / 4 == k && i % 4 == i - k * 4;
      } else {
        assert i / 4 != k;
      }
    }
  }

  lemma CompleteSkip(img: ImageData, req: Request, stack: seq<Point>, visited: seq<bool>, c: Point)
    requires img.Valid() && |visited| == img.width * img.height
    requires Complete(img, req, stack + [c], visited)
    requires !Fillable(img, req, c) || IsVisited(img.width, img.height, visited, c)
    ensures Complete(img, req, stack, visited)
  {
    forall q | Covered(img, req, stack + [c], visited, q)
      ensures Covered(img, req, stack, visited, q)
    {
      if q in stack + [c] && q != c {
        assert q in stack;
      }
    }
  }

  lemma CoveredAfterVisit(img: ImageData, req: Request, stack: seq<Point>, visited: seq<bool>, c: Point, q: Point)
    requires img.Valid() && |visited| == img.width * img.height && InBounds(img.width, img.height, c)
    requires Covered(img, req, stack + [c], visited, q)
    ensures 0 <= GetIndex(img.width, c) < |visited|
    ensures Covered(img, req, stack + [Right(c), Left(c), Down(c), Up(c)], visited[GetIndex(img.width, c) := true], q)
  {
    MarkVisited(img.width, img.height, visited, c);
    if q in stack + [c] && q != c {
      assert q in stack;
    }
  }

  lemma CompleteVisit(img: ImageData, req: Request, stack: seq<Point>, visited: seq<bool>, c: Point)
    requires img.Valid() && |visited| == img.width * img.height
    requires Complete(img, req, stack + [c], visited) && InBounds(img.width, img.height, c)
    ensures 0 <= GetIndex(img.width, c) < |visited|
    ensures Complete(img, req, stack + [Right(c), Left(c), Down(c), Up(c)], visited[GetIndex(img.width, c) := true])
  {
    MarkVisited(img.width, img.height, visited, c);
    var stack' := stack + [Right(c), Left(c), Down(c), Up(c)];
    var visited' := visited[GetIndex(img.width, c) := true];
    CoveredAfterVisit(img, req, stack, visited, c, req.seed);
    forall p | IsVisited(img.width, img.height, visited', p)
      ensures NeighboursCovered(img, req, stack', visited', p)
    {
      if p != c {
        assert NeighboursCovered(img, req, stack + [c], visited, p);
        CoveredAfterVisit(img, req, stack, visited, c, Right(p));
        CoveredAfterVisit(img, req, stack, visited, c, Left(p));
        CoveredAfterVisit(img, req, stack, visited, c, Down(p));
        CoveredAfterVisit(img, req, stack, visited, c, Up(p));
      } else {
        assert Right(c) in stack' && Left(c) in stack' && Down(c) in stack' && Up(c) in stack';
      }
    }
  }

  lemma SoundStart(img: ImageData, req: Request, visited: seq<bool>)
    requires img.Valid() && visited == seq(img.width * img.height, _ => false)
    ensures Sound(img, req, [req.seed], [[req.seed]], visited, map[])
  {
    forall p ensures !IsVisited(img.width, img.height, visited, p) {
      InBoundsNumbered(img.width, img.height, p);
    }
  }

  lemma SoundPop(img: ImageData, req: Request, stack: seq<Point>, trails: seq<seq<Point>>,
                 visited: seq<bool>, route: map<Point, seq<Point>>)
    requires img.Valid() && |visited| == img.width * img.height
    requires Sound(img, req, stack, trails, visited, route) && |stack| > 0
    ensures LeadsTo(img, req, trails[|trails| - 1], stack[|stack| - 1])
    ensures Sound(img, req, stack[..|stack| - 1], trails[..|trails| - 1], visited, route)
  {
  }

  lemma SoundVisit(img: ImageData, req: Request, stack: seq<Point>, trails: seq<seq<Point>>,
                   visited: seq<bool>, route: map<Point, seq<Point>>, c: Point, trail: seq<Point>)
    requires img.Valid() && |visited| == img.width * img.height
    requires Sound(img, req, stack, trails, visited, route) && InBounds(img.width, img.height, c)
    requires Reaches(img, req, trail, c)
    ensures 0 <= GetIndex(img.width, c) < |visited|
    ensures Sound(img, req, stack + [Right(c), Left(c), Down(c), Up(c)],
                  trails + [trail + [Right(c)], trail + [Left(c)], trail + [Down(c)], trail + [Up(c)]],
                  visited[GetIndex(img.width, c) := true], route[c := trail])
  {
    MarkVisited(img.width, img.height, visited, c);
    ExtendTrail(img, req, trail, c, Right(c));
    ExtendTrail(img, req, trail, c, Left(c));
    ExtendTrail(img, req, trail, c, Down(c));
    ExtendTrail(img, req, trail, c, Up(c));
  }

  lemma LedgerVisit(width: nat, height: nat, visited: seq<bool>, painted: seq<Point>, pops: nat, pending: nat, c: Point)
    requires |visited| == width * height && Ledger(width, height, visited, painted, pops, pending)
    requires InBounds(width, height, c) && !IsVisited(width, height, visited, c)
    ensures 0 <= GetIndex(width, c) < |visited|
    ensures Ledger(width, height, visited[GetIndex(width, c) := true], painted + [c], pops, pending + 4)
  {
    MarkVisited(width, height, visited, c);
    CountUnvisitedMark(visited, GetIndex(width, c));
  }

  /** When the visited pixels are the region, the canvas holds the fill colour exactly on the region. */
  lemma PaintingFinal(img: ImageData, req: Request, fill: Rgba, data: seq<Byte>, visited: seq<bool>)
    requires img.Valid() && |visited| == img.width * img.height && Painting(img, fill, data, visited)
    requires forall p :: IsVisited(img.width, img.height, visited, p) <==> InRegion(img, req, p)
    ensures forall i :: 0 <= i < |data| ==>
      data[i] == if InRegion(img, req, PointAt(img.width, i / 4)) then Channel(Opaque(fill), i % 4) else img.data[i]
  {
    forall i | 0 <= i < |data|
      ensures visited[i / 4] <==> InRegion(img, req, PointAt(img.width, i / 4))
    {
      PointAtInRange(img.width, img.height, i / 4);
      assert IsVisited(img.width, img.height, visited, PointAt(img.width, i / 4)) <==> visited[i / 4];
    }
  }

  /** With the stack empty, the visited pixels are exactly the region. */
  lemma VisitedIsRegion(img: ImageData, req: Request, trails: seq<seq<Point>>, visited: seq<bool>, route: map<Point, seq<Point>>)
    requires img.Valid() && |visited| == img.width * img.height
    requires Sound(img, req, [], trails, visited, route) && Complete(img, req, [], visited)
    ensures forall p :: IsVisited(img.width, img.height, visited, p) <==> InRegion(img, req, p)
  {
    forall p | InRegion(img, req, p)
      ensures IsVisited(img.width, img.height, visited, p)
    {
      var trail :| Reaches(img, req, trail, p);
      ClosedContainsRegion(img, req, visited, trail, p);
    }
  }

  /**
   * The test that drops a popped coordinate, evaluated on the canvas as it is at that moment:
   * the coordinate lies off the image, its pixel was painted already, or `matchColor` fails.
   */
  function ShouldSkip(width: nat, height: nat, data: seq<Byte>, visited: seq<bool>,
                      target: Rgba, tolerance: int, c: Point): (skip: bool)
    requires |data| == width * height * 4 && |visited| == width * height
    ensures !InBounds(width, height, c) ==> skip
    ensures !skip <==>
      && InBounds(width, height, c) && 0 <= GetIndex(width, c) < |visited|
      && !visited[GetIndex(width, c)] && MatchColor(data, GetIndex(width, c) * 4, target, tolerance)
  {
    c.x < 0 || c.y < 0 || c.x >= width || c.y >= height ||
    (IndexInRange(width, height, c);
     visited[GetIndex(width, c)] || !MatchColor(data, (c.y * width + c.x) * 4, target, tolerance))
  }

  /** The invariant of the fill loop. */
  ghost predicate FillInvariant(img: ImageData, req: Request, fill: Rgba, data: seq<Byte>, stack: seq<Point>,
                                trails: seq<seq<Point>>, visited: seq<bool>, route: map<Point, seq<Point>>,
                                painted: seq<Point>, pops: nat)
    requires img.Valid() && |visited| == img.width * img.height
  {
    && Painting(img, fill, data, visited)
    && Sound(img, req, stack, trails, visited, route)
    && Complete(img, req, stack, visited)
    && Ledger(img.width, img.height, visited, painted, pops, |stack|)
  }

  lemma FillStart(img: ImageData, req: Request, fill: Rgba, visited: seq<bool>)
    requires img.Valid() && visited == seq(img.width * img.height, _ => false)
    ensures FillInvariant(img, req, fill, img.data, [req.seed], [[req.seed]], visited, map[], [], 0)
  {
    CountUnvisitedAll(img.width * img.height);
    PaintingStart(img, fill, visited);
    SoundStart(img, req, visited);
  }

  /** A skipped pop changes nothing but the stack and the pop count. */
  lemma FillSkip(img: ImageData, req: Request, fill: Rgba, data: seq<Byte>, stack: seq<Point>,
                 trails: seq<seq<Point>>, visited: seq<bool>, route: map<Point, seq<Point>>,
                 painted: seq<Point>, pops: nat)
    requires img.Valid() && |visited| == img.width * img.height && |stack| > 0
    requires FillInvariant(img, req, fill, data, stack, trails, visited, route, painted, pops)
    requires ShouldSkip(img.width, img.height, data, visited, req.target, req.tolerance, stack[|stack| - 1])
    ensures FillInvariant(img, req, fill, data, stack[..|stack| - 1], trails[..|trails| - 1], visited, route, painted, pops + 1)
  {
    var c := stack[|stack| - 1];
    assert stack == stack[..|stack| - 1] + [c];
    SoundPop(img, req, stack, trails, visited, route);
    if InBounds(img.width, img.height, c) && !IsVisited(img.width, img.height, visited, c) {
      PaintingUnvisited(img, fill, data, visited, c);
    }
    CompleteSkip(img, req, stack[..|stack| - 1], visited, c);
  }

  /** A pop that paints: the pixel becomes visited and painted, and its four neighbours are pushed. */
  lemma FillVisit(img: ImageData, req: Request, fill: Rgba, data: seq<Byte>, stack: seq<Point>,
                  trails: seq<seq<Point>>, visited: seq<bool>, route: map<Point, seq<Point>>,
                  painted: seq<Point>, pops: nat, data': seq<Byte>)
    requires img.Valid() && |visited| == img.width * img.height && |stack| > 0
    requires FillInvariant(img, req, fill, data, stack, trails, visited, route, painted, pops)
    requires !ShouldSkip(img.width, img.height, data, visited, req.target, req.tolerance, stack[|stack| - 1])
    requires var k := GetIndex(img.width, stack[|stack| - 1]);
      |data'| == |data| &&
      forall i :: 0 <= i < |data'| ==>
        data'[i] == if k * 4 <= i < k * 4 + 4 then Channel(Opaque(fill), i - k * 4) else data[i]
    ensures var c := stack[|stack| - 1];
      && 0 <= GetIndex(img.width, c) < |visited|
      && FillInvariant(img, req, fill, data', stack[..|stack| - 1] + [Right(c), Left(c), Down(c), Up(c)],
                       trails[..|trails| - 1] + [trails[|trails| - 1] + [Right(c)], trails[|trails| - 1] + [Left(c)],
                                                 trails[|trails| - 1] + [Down(c)], trails[|trails| - 1] + [Up(c)]],
                       visited[GetIndex(img.width, c) := true], route[c := trails[|trails| - 1]],
                       painted + [c], pops + 1)
  {
    var c := stack[|stack| - 1];
    var rest := stack[..|stack| - 1];
    assert stack == rest + [c];
    SoundPop(img, req, stack, trails, visited, route);
    IndexInRange(img.width, img.height, c);
    PaintingUnvisited(img, fill, data, visited, c);
    assert Reaches(img, req, trails[|trails| - 1], c);
    CompleteVisit(img, req, rest, visited, c);
    SoundVisit(img, req, rest, trails[..|trails| - 1], visited, route, c, trails[|trails| - 1]);
    LedgerVisit(img.width, img.height, visited, painted, pops + 1, |rest|, c);
    PaintingVisit(img, fill, data, visited, GetIndex(img.width, c), data');
  }

  /** With the stack empty, the canvas holds the fill colour exactly on the region and the painted list is the region. */
  lemma FillEnd(img: ImageData, req: Request, fill: Rgba, data: seq<Byte>, trails: seq<seq<Point>>,
                visited: seq<bool>, route: map<Point, seq<Point>>, painted: seq<Point>, pops: nat)
    requires img.Valid() && |visited| == img.width * img.height
    requires FillInvariant(img, req, fill, data, [], trails, visited, route, painted, pops)
    ensures forall i :: 0 <= i < |data| ==>
      data[i] == if InRegion(img, req, PointAt(img.width, i / 4)) then Channel(Opaque(fill), i % 4) else img.data[i]
    ensures forall p :: p in painted <==> InRegion(img, req, p)
    ensures forall i, j :: 0 <= i < j < |painted| ==> painted[i] != painted[j]
    ensures |painted| <= img.width * img.height && pops == 4 * |painted| + 1
  {
    VisitedIsRegion(img, req, trails, visited, route);
    PaintingFinal(img, req, fill, data, visited);
  }

  /**
   * `floodFill` on the canvas bytes `data`, in place. The painted pixels are exactly the region
   * of the request `(x, y)`, `targetColor`, `tolerance`, judged on the bytes as they were before the
   * fill; each painted pixel gets `fillColor` with alpha 255 and every other byte keeps its value.
   * The ghost results account for the work: `painted` lists the pixels in the order they are painted
   * (each once), and `pops` counts the stack pops.
   */
  method FloodFill(data: array<Byte>, width: nat, height: nat, x: int, y: int,
                   targetColor: Rgba, fillColor: Rgba, tolerance: int)
    returns (ghost painted: seq<Point>, ghost pops: nat)
    requires data.Length == width * height * 4
    modifies data
    ensures var img := ImageData(width, height, old(data[..]));
      forall i :: 0 <= i < data.Length ==>
        data[i] == if InRegion(img, Request(Point(x, y), targetColor, tolerance), PointAt(width, i / 4))
                   then Channel(Opaque(fillColor), i % 4) else old(data[i])
    ensures var img := ImageData(width, height, old(data[..]));
      forall p :: p in painted <==> InRegion(img, Request(Point(x, y), targetColor, tolerance), p)
    ensures forall i, j :: 0 <= i < j < |painted| ==> painted[i] != painted[j]
    ensures |painted| <= width * height
    ensures pops == 4 * |painted| + 1
  {
    ghost var img := ImageData(width, height, data[..]);
    ghost var req := Request(Point(x, y), targetColor, tolerance);
    var stack: seq<Point> := [Point(x, y)];
    var visited := new bool[width * height](_ => false);
    ghost var trails: seq<seq<Point>> := [[Point(x, y)]];
    ghost var route: map<Point, seq<Point>> := map[];
    painted, pops := [], 0;
    assert visited[..] == seq(width * height, _ => false);
    FillStart(img, req, fillColor, visited[..]);

    while |stack| > 0
      invariant visited.Length == width * height
      invariant FillInvariant(img, req, fillColor, data[..], stack, trails, visited[..], route, painted, pops)
      decreases CountUnvisited(visited[..]), |stack|
    {
      ghost var before, seen, pending, trailsBefore := data[..], visited[..], stack, trails;
      ghost var trail := trails[|trails| - 1];
      var c := stack[|stack| - 1];
      stack := stack[..|stack| - 1];
      trails := trails[..|trails| - 1];

      // A coordinate off the image, already painted, or too far from the target is dropped.
      if ShouldSkip(width, height, data[..], visited[..], targetColor, tolerance, c) {
        FillSkip(img, req, fillColor, before, pending, trailsBefore, seen, route, painted, pops);
        pops := pops + 1;
        continue;
      }
      IndexInRange(width, height, c);
      var index := (c.y * width + c.x) * 4;

      // Otherwise the pixel is recorded, painted, and its four neighbours are pushed.
      visited[GetIndex(width, c)] := true;
      SetColor(data, index, fillColor);
      assert visited[..] == seen[GetIndex(width, c) := true];
      FillVisit(img, req, fillColor, before, pending, trailsBefore, seen, route, painted, pops, data[..]);
      CountUnvisitedMark(seen, GetIndex(width, c));
      stack := stack + [Right(c), Left(c), Down(c), Up(c)];
      trails := trails + [trail + [Right(c)], trail + [Left(c)], trail + [Down(c)], trail + [Up(c)]];
      route := route[c := trail];
      painted, pops := painted + [c], pops + 1;
    }

    FillEnd(img, req, fillColor, data[..], trails, visited[..], route, painted, pops);
  }

  /** Every trail starts at the seed, so a non-empty region needs a fillable seed. */
  lemma RegionNeedsSeed(img: ImageData, req: Request, p: Point)
    requires img.Valid()
    ensures InRegion(img, req, p) ==> Fillable(img, req, req.seed)
  {
    if InRegion(img, req, p) {
      var trail :| Reaches(img, req, trail, p);
      if |trail| > 1 {
        assert Fillable(img, req, trail[0]);
      }
    }
  }

  /** A seed outside the image has an empty region. */
  lemma OutOfBoundsSeed(img: ImageData, req: Request)
    requires img.Valid() && !InBounds(img.width, img.height, req.seed)
    ensures forall p :: !InRegion(img, req, p)
  {
    forall p
      ensures !InRegion(img, req, p)
    {
      RegionNeedsSeed(img, req, p);
    }
  }

  /** A seed inside the image whose target colour was read at the seed lies in its own region. */
  lemma SeedInRegion(img: ImageData, req: Request)
    requires img.Valid() && InBounds(img.width, img.height, req.seed)
    requires req.target == ColorOf(img, req.seed) && req.tolerance >= 0
    ensures InRegion(img, req, req.seed)
  {
    assert Reaches(img, req, [req.seed], req.seed);
  }

  /** Any other pixel of the region is reached through a fillable neighbour of the seed. */
  lemma RegionLeavesSeed(img: ImageData, req: Request, p: Point)
    requires img.Valid() && InRegion(img, req, p) && p != req.seed
    ensures || Fillable(img, req, Right(req.seed)) || Fillable(img, req, Left(req.seed))
            || Fillable(img, req, Down(req.seed)) || Fillable(img, req, Up(req.seed))
  {
    var trail :| Reaches(img, req, trail, p);
    assert |trail| > 1;
    assert Adjacent(trail[0], trail[1]);
    assert Fillable(img, req, trail[1]);
  }

  /** A fillable seed none of whose four neighbours is fillable is the whole region. */
  lemma IsolatedSeed(img: ImageData, req: Request, p: Point)
    requires img.Valid() && Fillable(img, req, req.seed)
    requires !Fillable(img, req, Right(req.seed)) && !Fillable(img, req, Left(req.seed))
    requires !Fillable(img, req, Down(req.seed)) && !Fillable(img, req, Up(req.seed))
    ensures InRegion(img, req, p) <==> p == req.seed
  {
    if p == req.seed {
      assert Reaches(img, req, [req.seed], req.seed);
    } else if InRegion(img, req, p) {
      RegionLeavesSeed(img, req, p);
    }
  }

  /** `hexToRgba`: the three low bytes of `parseInt(hex.slice(1), 16)` as red, green and blue, alpha 255. */
  function HexToRgba(hex: string): (c: Rgba)
    ensures c.a == 255
  {
    var bigint := HexColor.ParseInt16(HexColor.SliceFrom1(hex));
    Rgba(HexColor.ByteOf(bigint, 16), HexColor.ByteOf(bigint, 8), HexColor.ByteOf(bigint, 0), 255)
  }

  /** For `#RRGGBB` the channels are the values of the three digit pairs. */
  lemma HexToRgbaDigits(hex: string)
    requires |hex| == 7 && HexColor.AllHexDigits(hex[1..])
    ensures HexToRgba(hex) == Rgba(HexColor.Pair(hex[1], hex[2]), HexColor.Pair(hex[3], hex[4]),
                                   HexColor.Pair(hex[5], hex[6]), 255)
  {
    var digits := hex[1..];
    assert HexColor.SliceFrom1(hex) == digits;
    HexColor.SixDigitBytes(digits);
  }

  /** The colour picker's `#rrggbb` string of a colour parses back to that colour, opaque. */
  lemma HexToRgbaRoundTrip(r: Byte, g: Byte, b: Byte)
    ensures HexToRgba(HexColor.FormatHex(r, g, b)) == Rgba(r, g, b, 255)
  {
    HexToRgbaDigits(HexColor.FormatHex(r, g, b));
  }

  /** A string with no hexadecimal digits after its first character parses to NaN, which yields opaque black. */
  lemma HexToRgbaNaN(hex: string)
    requires HexColor.ParseInt16(HexColor.SliceFrom1(hex)) == None
    ensures HexToRgba(hex) == Rgba(0, 0, 0, 255)
  {
  }

  /**
   * `handleStageClick` on the canvas bytes: read the colour under the pointer, then fill from
   * there with the selected colour and the default tolerance. When the read is `undefined` the
   * pointer lies outside the image and the fill would skip its only pop, so nothing is painted.
   */
  method HandleStageClick(data: array<Byte>, width: nat, height: nat, x: int, y: int, selectedColor: string)
    requires data.Length == width * height * 4
    modifies data
    ensures !InBounds(width, height, Point(x, y)) ==> data[..] == old(data[..])
    ensures var img := ImageData(width, height, old(data[..]));
      InBounds(width, height, Point(x, y)) ==>
        var req := Request(Point(x, y), ColorOf(img, Point(x, y)), DefaultTolerance);
        forall i :: 0 <= i < data.Length ==>
          data[i] == if InRegion(img, req, PointAt(width, i / 4))
                     then Channel(Opaque(HexToRgba(selectedColor)), i % 4) else old(data[i])
    ensures InBounds(width, height, Point(x, y)) ==>
      ColorOf(ImageData(width, height, data[..]), Point(x, y)) == Opaque(HexToRgba(selectedColor))
  {
    ghost var img := ImageData(width, height, data[..]);
    var targetColor := GetColorAtPos(ImageData(width, height, data[..]), x, y);
    match targetColor
    case None =>
    case Some(target) =>
      ghost var painted, pops := FloodFill(data, width, height, x, y, target, HexToRgba(selectedColor), DefaultTolerance);
      ghost var req := Request(Point(x, y), target, DefaultTolerance);
      if InBounds(width, height, Point(x, y)) {
        SeedInRegion(img, req);
        SeedPainted(img, req, HexToRgba(selectedColor), data[..]);
      } else {
        OutOfBoundsSeed(img, req);
        assert data[..] == old(data[..]);
      }
  }

  /** The bytes of a seed in the region are the fill colour, opaque. */
  lemma SeedPainted(img: ImageData, req: Request, fill: Rgba, data: seq<Byte>)
    requires img.Valid() && InBounds(img.width, img.height, req.seed) && InRegion(img, req, req.seed)
    requires |data| == |img.data|
    requires forall i :: 0 <= i < |data| ==>
      data[i] == if InRegion(img, req, PointAt(img.width, i / 4)) then Channel(Opaque(fill), i % 4) else img.data[i]
    ensures ColorOf(ImageData(img.width, img.height, data), req.seed) == Opaque(fill)
  {
    IndexInRange(img.width, img.height, req.seed);
    var k := GetIndex(img.width, req.seed);
    assert (k * 4) / 4 == k && (k * 4 + 1) / 4 == k && (k * 4 + 2) / 4 == k && (k * 4 + 3) / 4 == k;
  }
}
