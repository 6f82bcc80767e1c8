/**
 * Tiling a small image before orientation/script detection: the image is
 * concatenated side by side with copies of itself (`cv2.hconcat([img]*5)`),
 * and the resulting strip is stacked on top of copies of itself
 * (`cv2.vconcat([img_tiled_h]*5)`).
 *
 * An image is a non-empty rectangular grid of rows; the pixel type `T` is
 * opaque, so channels and dtypes play no role.
 */
module Tiling {

  type Image<T> = seq<seq<T>>

  /** The repeat count the script uses along both axes. */
  const SourceRepeat: nat := 5

  /** A decoded image: at least one row, at least one column, all rows equally long. */
  predicate IsImage<T>(img: Image<T>)
  {
    |img| > 0 && |img[0]| > 0 && forall r :: 0 <= r < |img| ==> |img[r]| == |img[0]|
  }

  function Height<T>(img: Image<T>): nat
  {
    |img|
  }

  function Width<T>(img: Image<T>): nat
    requires |img| > 0
  {
    |img[0]|
  }

  /** Python's list repetition `[x] * k`. */
  function Replicate<T>(x: T, k: nat): (r: seq<T>)
    ensures |r| == k
    ensures forall i :: 0 <= i < k ==> r[i] == x
  {
    if k == 0 then [] else [x] + Replicate(x, k - 1)
  }

  /** Joins a list of sequences end to end, in order. */
  function Concat<T>(ss: seq<seq<T>>): seq<T>
  {
    if ss == [] then [] else ss[0] + Concat(ss[1..])
  }

  /** The sum of the lengths of the sequences in `ss`. */
  function TotalLength<T>(ss: seq<seq<T>>): nat
  {
    if ss == [] then 0 else |ss[0]| + TotalLength(ss[1..])
  }

  /** Row `row` of every image in the list, in list order. */
  function Column<T>(imgs: seq<Image<T>>, row: nat): (c: seq<seq<T>>)
    requires forall i :: 0 <= i < |imgs| ==> row < |imgs[i]|
    ensures |c| == |imgs|
  {
    seq(|imgs|, i requires 0 <= i < |imgs| => imgs[i][row])
  }

  /** What `hconcat` accepts here: a non-empty list of images of one height. */
  predicate SameHeight<T>(imgs: seq<Image<T>>)
  {
    |imgs| > 0 && forall i :: 0 <= i < |imgs| ==> IsImage(imgs[i]) && |imgs[i]| == |imgs[0]|
  }

  /** What `vconcat` accepts here: a non-empty list of images of one width. */
  predicate SameWidth<T>(imgs: seq<Image<T>>)
  {
    |imgs| > 0 && IsImage(imgs[0]) && forall i :: 0 <= i < |imgs| ==> IsImage(imgs[i]) && |imgs[i][0]| == |imgs[0][0]|
  }

  /**
   * `cv2.hconcat`: row `row` of the result is row `row` of every input, joined
   * left to right. The result keeps the common height and is as wide as all
   * inputs together.
   */
  function HConcat<T>(imgs: seq<Image<T>>): (r: Image<T>)
    requires SameHeight(imgs)
    ensures IsImage(r) && Height(r) == Height(imgs[0]) && Width(r) == TotalLength(Column(imgs, 0))
  {
    var r := seq(Height(imgs[0]), row requires 0 <= row < Height(imgs[0]) => Concat(Column(imgs, row)));
    assert forall row :: 0 <= row < |r| ==> |r[row]| == TotalLength(Column(imgs, 0)) by {
      forall row | 0 <= row < |r|
        ensures |r[row]| == TotalLength(Column(imgs, 0))
      {
        ConcatLength(Column(imgs, row));
        SameLengths(Column(imgs, row), Column(imgs, 0));
      }
    }
    r
  }

  /**
   * `cv2.vconcat`: the rows of every input, stacked top to bottom. The result
   * keeps the common width and has as many rows as all inputs together.
   */
  function VConcat<T>(imgs: seq<Image<T>>): (r: Image<T>)
    requires SameWidth(imgs)
    ensures IsImage(r) && Height(r) == TotalLength(imgs) && Width(r) == Width(imgs[0])
  {
    ConcatLength(imgs);
    assert |Concat(imgs)| > 0 by {
      ConcatPrefix(imgs);
    }
    forall x | x in Concat(imgs)
      ensures |x| == Width(imgs[0])
    {
      ConcatMember(imgs, x);
    }
    Concat(imgs)
  }

  /** Joining keeps every element: the length of the join is the sum of the lengths. */
  lemma {:induction false} ConcatLength<T>(ss: seq<seq<T>>)
    ensures |Concat(ss)| == TotalLength(ss)
  {
    if ss != [] {
      ConcatLength(ss[1..]);
    }
  }

  /** The join starts with the first sequence. */
  lemma ConcatPrefix<T>(ss: seq<seq<T>>)
    requires |ss| > 0
    ensures Concat(ss)[..|ss[0]|] == ss[0]
  {
  }

  /** Joining adds no elements: each element of the join comes from one of the sequences. */
  lemma {:induction false} ConcatMember<T>(ss: seq<seq<T>>, x: T)
    requires x in Concat(ss)
    ensures exists i :: 0 <= i < |ss| && x in ss[i]
  {
    if x !in ss[0] {
      ConcatMember(ss[1..], x);
      var i :| 0 <= i < |ss[1..]| && x in ss[1..][i];
      assert x in ss[i + 1];
    }
  }

  /** Lists whose sequences have pairwise equal lengths have the same total length. */
  lemma {:induction false} SameLengths<T>(a: seq<seq<T>>, b: seq<seq<T>>)
    requires |a| == |b| && forall i :: 0 <= i < |a| ==> |a[i]| == |b[i]|
    ensures TotalLength(a) == TotalLength(b)
  {
    if a != [] {
      SameLengths(a[1..], b[1..]);
    }
  }

  /** `s` joined with itself `k` times has `k` times its length, and position `i` holds `s[i mod |s|]`. */
  lemma {:induction false} ConcatReplicateAt<T>(s: seq<T>, k: nat)
    requires |s| > 0
    ensures |Concat(Replicate(s, k))| == k * |s|
    ensures forall i :: 0 <= i < k * |s| ==> Concat(Replicate(s, k))[i] == s[i % |s|]
  {
    var n := |s|;
    if k > 0 {
      ConcatReplicateAt(s, k - 1);
      var rest := Concat(Replicate(s, k - 1));
      assert Replicate(s, k)[1..] == Replicate(s, k - 1);
      assert Concat(Replicate(s, k)) == s + rest;
      MulSucc(k - 1, n);
      forall i | 0 <= i < k * n
        ensures (s + rest)[i] == s[i % n]
      {
        if i < n {
          ModUnique(i, n, 0, i);
        } else {
          ModMinus(i, n);
        }
      }
    }
  }

  /** Row `row` of `hconcat([img] * cols)` is row `row` of `img` joined with itself `cols` times. */
  lemma HConcatReplicate<T>(img: Image<T>, cols: nat)
    requires IsImage(img) && cols >= 1
    ensures SameHeight(Replicate(img, cols))
    ensures forall row :: 0 <= row < Height(img) ==>
      |HConcat(Replicate(img, cols))[row]| == cols * Width(img)
    ensures forall row, c :: 0 <= row < Height(img) && 0 <= c < cols * Width(img) ==>
      HConcat(Replicate(img, cols))[row][c] == img[row][c % Width(img)]
  {
    var imgs := Replicate(img, cols);
    forall row | 0 <= row < Height(img)
      ensures |HConcat(imgs)[row]| == cols * Width(img)
      ensures forall c :: 0 <= c < cols * Width(img) ==> HConcat(imgs)[row][c] == img[row][c % Width(img)]
    {
      assert Column(imgs, row) == Replicate(img[row], cols);
      ConcatReplicateAt(img[row], cols);
    }
  }


  /** `cv2.hconcat([img] * cols)`: the image repeated `cols` times side by side. */
  function TileH<T>(img: Image<T>, cols: nat): (r: Image<T>)
    requires IsImage(img) && cols >= 1
    ensures IsImage(r) && Height(r) == Height(img) && Width(r) == cols * Width(img)
    ensures forall row, c :: 0 <= row < |r| && 0 <= c < |r[row]| ==> r[row][c] == img[row][c % Width(img)]
  {
    HConcatReplicate(img, cols);
    HConcat(Replicate(img, cols))
  }

  /**
   * `cv2.vconcat([cv2.hconcat([img] * cols)] * rows)`: the horizontal strip
   * stacked `rows` times, giving a grid of `rows` by `cols` copies of `img`.
   */
  function Tile<T>(img: Image<T>, cols: nat, rows: nat): (r: Image<T>)
    requires IsImage(img) && cols >= 1 && rows >= 1
    ensures IsImage(r) && Height(r) == rows * Height(img) && Width(r) == cols * Width(img)
  {
    var strip := TileH(img, cols);
    ConcatReplicateAt(strip, rows);
    VConcat(Replicate(strip, rows))
  }

  /** The composite the script builds: five by five copies of `img`. */
  function SourceTile<T>(img: Image<T>): (r: Image<T>)
    requires IsImage(img)
    ensures IsImage(r) && Height(r) == SourceRepeat * Height(img) && Width(r) == SourceRepeat * Width(img)
  {
    Tile(img, SourceRepeat, SourceRepeat)
  }

  /** Direct replication on a regular grid: pixel `(r, c)` is `img[r mod h][c mod w]`. */
  function GridTile<T>(img: Image<T>, cols: nat, rows: nat): Image<T>
    requires IsImage(img)
  {
    var h, w := Height(img), Width(img);
    seq(rows * h, r requires 0 <= r < rows * h =>
      seq(cols * w, c requires 0 <= c < cols * w => img[r % h][c % w]))
  }

  /** Every pixel value occurring in an image. */
  ghost function Pixels<T>(img: Image<T>): set<T>
  {
    set r, c | 0 <= r < |img| && 0 <= c < |img[r]| :: img[r][c]
  }

  /** Row `row` of the horizontal strip is row `row` of `img` repeated `cols` times in order. */
  lemma TileHRows<T>(img: Image<T>, cols: nat)
    requires IsImage(img) && cols >= 1
    ensures Height(TileH(img, cols)) == Height(img)
    ensures forall row :: 0 <= row < Height(img) ==> TileH(img, cols)[row] == Concat(Replicate(img[row], cols))
  {
    var imgs := Replicate(img, cols);
    forall row | 0 <= row < Height(img)
      ensures TileH(img, cols)[row] == Concat(Replicate(img[row], cols))
    {
      assert Column(imgs, row) == Replicate(img[row], cols);
    }
  }


  /** Row `r` of the composite is row `r mod h` of the horizontal strip. */
  lemma {:induction false} TileRows<T>(img: Image<T>, cols: nat, rows: nat)
    requires IsImage(img) && cols >= 1 && rows >= 1
    ensures forall r :: 0 <= r < rows * Height(img) ==> Tile(img, cols, rows)[r] == TileH(img, cols)[r % Height(img)]
  {
    ConcatReplicateAt(TileH(img, cols), rows);
  }

  /** Every pixel of the composite is a copy of the original pixel at the wrapped-around position. */
  lemma {:induction false} TilePixel<T>(img: Image<T>, cols: nat, rows: nat)
    requires IsImage(img) && cols >= 1 && rows >= 1
    ensures forall r, c :: 0 <= r < rows * Height(img) && 0 <= c < cols * Width(img) ==>
      Tile(img, cols, rows)[r][c] == img[r % Height(img)][c % Width(img)]
  {
    TileRows(img, cols, rows);
  }

  /** The two-pass construction is pixel-identical to direct replication on a grid. */
  lemma {:induction false} TileIsGrid<T>(img: Image<T>, cols: nat, rows: nat)
    requires IsImage(img) && cols >= 1 && rows >= 1
    ensures Tile(img, cols, rows) == GridTile(img, cols, rows)
  {
    var t, g := Tile(img, cols, rows), GridTile(img, cols, rows);
    TilePixel(img, cols, rows);
    forall r | 0 <= r < |t|
      ensures t[r] == g[r]
    {
    }
  }

  /** The original image is still present, unchanged, as the top-left copy. */
  lemma {:induction false} TileKeepsOriginal<T>(img: Image<T>, cols: nat, rows: nat)
    requires IsImage(img) && cols >= 1 && rows >= 1
    ensures forall r, c :: 0 <= r < Height(img) && 0 <= c < Width(img) ==>
      Tile(img, cols, rows)[r][c] == img[r][c]
  {
    TilePixel(img, cols, rows);
    forall r, c | 0 <= r < Height(img) && 0 <= c < Width(img)
      ensures Tile(img, cols, rows)[r][c] == img[r][c]
    {
      MulAtLeast(rows, Height(img));
      MulAtLeast(cols, Width(img));
      ModUnique(r, Height(img), 0, r);
      ModUnique(c, Width(img), 0, c);
    }
  }

  /** Tiling with one copy along each axis gives back the image itself. */
  lemma {:induction false} TileOnce<T>(img: Image<T>)
    requires IsImage(img)
    ensures Tile(img, 1, 1) == img
  {
    var t := Tile(img, 1, 1);
    TileKeepsOriginal(img, 1, 1);
    forall r | 0 <= r < |img|
      ensures t[r] == img[r]
    {
    }
  }

  /** Tiling is pure replication: the composite holds exactly the pixel values of the original. */
  lemma {:induction false} TilePixels<T>(img: Image<T>, cols: nat, rows: nat)
    requires IsImage(img) && cols >= 1 && rows >= 1
    ensures Pixels(Tile(img, cols, rows)) == Pixels(img)
  {
    var t, h, w := Tile(img, cols, rows), Height(img), Width(img);
    TilePixel(img, cols, rows);
    TileKeepsOriginal(img, cols, rows);
    forall x | x in Pixels(t)
      ensures x in Pixels(img)
    {
      var r, c :| 0 <= r < |t| && 0 <= c < |t[r]| && t[r][c] == x;
      assert img[r % h][c % w] == x;
    }
    forall x | x in Pixels(img)
      ensures x in Pixels(t)
    {
      var r, c :| 0 <= r < |img| && 0 <= c < |img[r]| && img[r][c] == x;
      MulAtLeast(rows, h);
      MulAtLeast(cols, w);
      assert t[r][c] == x;
    }
  }

  /** Tiling a composite again multiplies the repeat counts. */
  lemma {:induction false} TileTwice<T>(img: Image<T>, cols: nat, rows: nat, cols': nat, rows': nat)
    requires IsImage(img) && cols >= 1 && rows >= 1 && cols' >= 1 && rows' >= 1
    ensures Tile(Tile(img, cols, rows), cols', rows') == Tile(img, cols * cols', rows * rows')
  {
    var a := Tile(Tile(img, cols, rows), cols', rows');
    var b := Tile(img, cols * cols', rows * rows');
    TileTwiceShape(img, cols, rows, cols', rows');
    forall r | 0 <= r < |a|
      ensures a[r] == b[r]
    {
      forall c | 0 <= c < |a[r]|
        ensures a[r][c] == b[r][c]
      {
        TileTwiceAt(img, cols, rows, cols', rows', r, c);
      }
    }
  }

  lemma TileTwiceShape<T>(img: Image<T>, cols: nat, rows: nat, cols': nat, rows': nat)
    requires IsImage(img) && cols >= 1 && rows >= 1 && cols' >= 1 && rows' >= 1
    ensures |Tile(Tile(img, cols, rows), cols', rows')| == |Tile(img, cols * cols', rows * rows')|
      == rows' * (rows * Height(img))
    ensures Width(Tile(Tile(img, cols, rows), cols', rows')) == Width(Tile(img, cols * cols', rows * rows'))
      == cols' * (cols * Width(img))
  {
    assert rows' * (rows * Height(img)) == (rows * rows') * Height(img);
    assert cols' * (cols * Width(img)) == (cols * cols') * Width(img);
  }

  lemma TileTwiceAt<T>(img: Image<T>, cols: nat, rows: nat, cols': nat, rows': nat, r: nat, c: nat)
    requires IsImage(img) && cols >= 1 && rows >= 1 && cols' >= 1 && rows' >= 1
    requires r < rows' * (rows * Height(img)) && c < cols' * (cols * Width(img))
    ensures r < |Tile(Tile(img, cols, rows), cols', rows')|
    ensures c < |Tile(Tile(img, cols, rows), cols', rows')[r]|
    ensures r < |Tile(img, cols * cols', rows * rows')|
    ensures c < |Tile(img, cols * cols', rows * rows')[r]|
    ensures Tile(Tile(img, cols, rows), cols', rows')[r][c] == Tile(img, cols * cols', rows * rows')[r][c]
  {
    var h, w := Height(img), Width(img);
    var inner := Tile(img, cols, rows);
    TileTwiceShape(img, cols, rows, cols', rows');
    TilePixelAt(inner, cols', rows', r, c);
    TilePixelAt(img, cols, rows, r % (rows * h), c % (cols * w));
    ModMod(r, rows, h);
    ModMod(c, cols, w);
    TilePixelAt(img, cols * cols', rows * rows', r, c);
  }

  lemma TilePixelAt<T>(img: Image<T>, cols: nat, rows: nat, r: nat, c: nat)
    requires IsImage(img) && cols >= 1 && rows >= 1
    requires r < rows * Height(img) && c < cols * Width(img)
    ensures r < |Tile(img, cols, rows)| && c < |Tile(img, cols, rows)[r]|
    ensures Tile(img, cols, rows)[r][c] == img[r % Height(img)][c % Width(img)]
  {
    TilePixel(img, cols, rows);
  }

  /** The script's composite is `SourceRepeat` times as tall and as wide as `img`, and every pixel comes from `img[r mod h][c mod w]`. */
  lemma {:induction false} SourceTileShape<T>(img: Image<T>)
    requires IsImage(img)
    ensures Height(SourceTile(img)) == SourceRepeat * Height(img)
    ensures forall r :: 0 <= r < Height(SourceTile(img)) ==> |SourceTile(img)[r]| == SourceRepeat * Width(img)
    ensures forall r, c :: 0 <= r < SourceRepeat * Height(img) && 0 <= c < SourceRepeat * Width(img) ==>
      SourceTile(img)[r][c] == img[r % Height(img)][c % Width(img)]
  {
    TilePixel(img, SourceRepeat, SourceRepeat);
  }

  // Arithmetic helpers: Euclidean remainder facts the solver does not find alone.

  lemma MulAtLeast(a: int, n: int)
    requires n > 0 && a >= 1
    ensures a * n >= n
  {
  }

  /** The remainder is determined by any decomposition `x == q * n + m` with `0 <= m < n`. */
  lemma ModUnique(x: int, n: int, q: int, m: int)
    requires n > 0 && 0 <= m < n && x == q * n + m
    ensures x % n == m
  {
    var q', m' := x / n, x % n;
    assert x == q' * n + m';
    assert (q - q') * n == m' - m;
    if q - q' >= 1 {
      MulAtLeast(q - q', n);
    } else if q' - q >= 1 {
      MulAtLeast(q' - q, n);
    }
  }

  lemma MulSucc(a: int, n: int)
    ensures (a + 1) * n == n + a * n
  {
  }

  /** Reducing modulo a multiple of `n` first does not change the remainder modulo `n`. */
  lemma ModMod(x: int, a: int, n: int)
    requires x >= 0 && a > 0 && n > 0
    ensures (x % (a * n)) % n == x % n
  {
    MulAtLeast(a, n);
    var q, m := x / (a * n), x % (a * n);
    assert x == q * (a * n) + m;
    var q', m' := m / n, m % n;
    assert m == q' * n + m';
    assert x == (q * a + q') * n + m';
    ModUnique(x, n, q * a + q', m');
  }

  lemma ModMinus(i: int, n: int)
    requires 0 < n <= i
    ensures (i - n) % n == i % n
  {
    var q, m := i / n, i % n;
    assert i - n == (q - 1) * n + m;
    ModUnique(i - n, n, q - 1, m);
  }
}
