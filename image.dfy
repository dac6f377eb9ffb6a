/**
 * The RGBA byte surface shared by src/image.ts and src/tiny-renderer.ts: four
 * bytes per pixel, rows stored one after another, and the pixel read of
 * `getPixel`.
 */
module Image {
  import opened Bytes

  const BytesPerPixel: int := 4

  /** `[r, g, b, a]`, each channel one byte of the surface. */
  datatype Color = Color(r: Byte, g: Byte, b: Byte, a: Byte)

  /** `color[i]` for the channel index `i` of `[r, g, b, a]`. */
  function Channel(c: Color, i: int): Byte
    requires 0 <= i < 4
  {
    if i == 0 then c.r else if i == 1 then c.g else if i == 2 then c.b else c.a
  }

  /** `Math.trunc`: the integer part, rounding toward zero. */
  function Trunc(x: real): (t: int)
    ensures 0.0 <= x ==> 0 <= t && t as real <= x < t as real + 1.0
    ensures x < 0.0 ==> t <= 0 && t as real - 1.0 < x <= t as real
  {
    if x >= 0.0 then x.Floor else -((-x).Floor)
  }

  /** The index `y * width + x` of the cell in column x of row y. */
  function Cell(width: int, x: int, y: int): int
  {
    y * width + x
  }

  /** Index of the first byte of the pixel a point falls in. */
  function PixelOffset(width: int, x: real, y: real): int
  {
    Cell(width, Trunc(x), Trunc(y)) * BytesPerPixel
  }

  /** The four bytes of a pixel lie inside the surface. */
  predicate PixelInside(data: seq<Byte>, offset: int)
  {
    0 <= offset && offset + BytesPerPixel <= |data|
  }

  /** `getPixel`: the four bytes of the pixel under a point, in buffer order. */
  function GetPixel(data: seq<Byte>, width: int, x: real, y: real): Color
    requires PixelInside(data, PixelOffset(width, x, y))
  {
    var i := PixelOffset(width, x, y);
    Color(data[i], data[i + 1], data[i + 2], data[i + 3])
  }

  /**
   * The four stores `data[offset + k] = color[k]` into a typed array: a store
   * to an index outside the array is dropped.
   */
  function WritePixel(data: seq<Byte>, offset: int, c: Color): (r: seq<Byte>)
    ensures |r| == |data|
  {
    seq(|data|, j requires 0 <= j < |data| => if offset <= j < offset + BytesPerPixel then Channel(c, j - offset) else data[j])
  }

  /** Truncation leaves an integer coordinate as it is. */
  lemma TruncInt(n: int)
    ensures Trunc(n as real) == n
  {
  }

  /** A cell of a surface `width` wide and `height` high has an index below `width * height`. */
  lemma CellInRange(width: int, height: int, x: int, y: int, size: int)
    requires 0 <= x < width && 0 <= y < height && size == width * height
    ensures 0 <= Cell(width, x, y) < size
  {
    MulMonotone(y, height - 1, width);
    assert (height - 1) * width + width == size;
  }

  lemma MulMonotone(a: int, b: int, n: int)
    requires 0 <= a <= b && 0 <= n
    ensures 0 <= a * n <= b * n
  {
  }

  /** `n * k` as `n` additions, so that a running sum of steps stays linear. */
  function Times(n: nat, k: int): int
  {
    if n == 0 then 0 else Times(n - 1, k) + k
  }
  lemma {:induction false} TimesIsProduct(n: nat, k: int)
    ensures Times(n, k) == n * k
  {
    if n > 0 {
      TimesIsProduct(n - 1, k);
      ProductStep(n, k, n * k, (n - 1) * k);
    }
  }

  lemma ProductStep(n: int, k: int, p: int, q: int)
    requires p == n * k && q == (n - 1) * k
    ensures p == q + k
  {
  }

  /** The column and row of a cell index. */
  lemma CellOf(width: int, height: int, i: int) returns (x: int, y: int)
    requires 0 <= width && 0 <= height && 0 <= i < width * height
    ensures 0 <= x < width && 0 <= y < height && Cell(width, x, y) == i
  {
    x, y := i % width, i / width;
    if y >= height {
      MulMonotone(height, y, width);
    }
  }

  /** Distinct cells of a surface have distinct indices. */
  lemma CellInjective(width: int, x: int, y: int, x': int, y': int)
    requires 0 <= x < width && 0 <= x' < width
    requires Cell(width, x, y) == Cell(width, x', y')
    ensures x == x' && y == y'
  {
    if y < y' {
      MulMonotone(y + 1, y', width);
    } else if y' < y {
      MulMonotone(y' + 1, y, width);
    }
  }

  /** Reading a pixel just written gives back the colour written. */
  lemma GetAfterWrite(data: seq<Byte>, width: int, x: real, y: real, c: Color)
    requires PixelInside(data, PixelOffset(width, x, y))
    ensures GetPixel(WritePixel(data, PixelOffset(width, x, y), c), width, x, y) == c
  {
    var i := PixelOffset(width, x, y);
    var r := WritePixel(data, i, c);
    assert r[i] == Channel(c, 0) && r[i + 1] == Channel(c, 1);
    assert r[i + 2] == Channel(c, 2) && r[i + 3] == Channel(c, 3);
  }

  /** Writing a pixel in one cell leaves the pixel of every other cell as it was. */
  lemma GetAfterWriteElsewhere(data: seq<Byte>, width: int, x: real, y: real, x': real, y': real, c: Color)
    requires 0 <= Trunc(x) < width && 0 <= Trunc(x') < width
    requires Trunc(x) != Trunc(x') || Trunc(y) != Trunc(y')
    requires PixelInside(data, PixelOffset(width, x, y))
    ensures GetPixel(WritePixel(data, PixelOffset(width, x', y'), c), width, x, y) == GetPixel(data, width, x, y)
  {
    var i, i' := Cell(width, Trunc(x), Trunc(y)), Cell(width, Trunc(x'), Trunc(y'));
    if i == i' {
      CellInjective(width, Trunc(x), Trunc(y), Trunc(x'), Trunc(y'));
    }
  }
}
