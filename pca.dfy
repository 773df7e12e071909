/** pca.py: assembling the band stack of one or more rasters (`make_stack`) and the
    reshaping around the principal components transform (`run_pca`). */
module Pca {
  import opened Results
  import opened Seqs
  import opened NdArray

  /** An opened GDAL raster: its bands in band order. `RasterCount` is their number. */
  datatype Dataset<T> = Dataset(bands: seq<Matrix<T>>)

  function RasterCount<T>(ds: Dataset<T>): nat
  {
    |ds.bands|
  }

  /** GDAL's `GetRasterBand(k)`: band indices run from 1 to `RasterCount`; any other gives `None`. */
  function GetRasterBand<T>(ds: Dataset<T>, k: int): (band: Option<Matrix<T>>)
    ensures band.Some? <==> 1 <= k <= RasterCount(ds)
  {
    if 1 <= k <= |ds.bands| then Some(ds.bands[k - 1]) else None
  }

  /** A band as it enters the stack: standardised when `std` is set. */
  function Prepare<T>(a: Matrix<T>, std: bool, standardise: Matrix<T> -> Matrix<T>): Matrix<T>
  {
    if std then standardise(a) else a
  }

  /** The bands one image contributes, in band order 1 .. RasterCount. */
  function ImageBands<T>(ds: Dataset<T>, std: bool, standardise: Matrix<T> -> Matrix<T>): (list: seq<Matrix<T>>)
    ensures |list| == RasterCount(ds)
  {
    seq(RasterCount(ds), i requires 0 <= i < RasterCount(ds) => Prepare(ds.bands[i], std, standardise))
  }

  /** The list `make_stack` builds: image by image, each image's bands in band order. */
  function StackList<T>(images: seq<string>, open: string -> Dataset<T>, std: bool,
                        standardise: Matrix<T> -> Matrix<T>): seq<Matrix<T>>
  {
    if images == [] then []
    else StackList(images[..|images| - 1], open, std, standardise)
         + ImageBands(open(images[|images| - 1]), std, standardise)
  }

  /** The total number of bands of the images. */
  function BandTotal<T>(images: seq<string>, open: string -> Dataset<T>): nat
  {
    if images == [] then 0
    else BandTotal(images[..|images| - 1], open) + RasterCount(open(images[|images| - 1]))
  }

  /** `make_stack(images, std)`: reads every band of every image, in order, into a list and
      stacks the list; `np.stack` raises `ValueError` when the list is empty or the bands
      are not all on the same grid. */
  method MakeStack<T>(images: seq<string>, open: string -> Dataset<T>, std: bool,
                      standardise: Matrix<T> -> Matrix<T>) returns (r: Result<Cube<T>>)
    ensures r == Stack(StackList(images, open, std, standardise))
  {
    var stackList: seq<Matrix<T>> := [];
    for j := 0 to |images|
      invariant stackList == StackList(images[..j], open, std, standardise)
    {
      var dataset := open(images[j]);
      ghost var before := stackList;
      for i := 0 to RasterCount(dataset)
        invariant stackList == before + ImageBands(dataset, std, standardise)[..i]
      {
        var band := GetRasterBand(dataset, i + 1).value;
        if std {
          band := standardise(band);
        }
        stackList := stackList + [band];
      }
      assert images[..j + 1][..j] == images[..j];
    }
    assert images[..|images|] == images;
    r := Stack(stackList);
  }

  /** The stack list holds one entry per band of every image. */
  lemma {:induction false} StackListLength<T>(images: seq<string>, open: string -> Dataset<T>, std: bool,
                                              standardise: Matrix<T> -> Matrix<T>)
    ensures |StackList(images, open, std, standardise)| == BandTotal(images, open)
  {
    if images != [] {
      StackListLength(images[..|images| - 1], open, std, standardise);
    }
  }

  /** Band `k` (1-based, as GDAL numbers bands) of image `j` sits at position
      `BandTotal(images[..j]) + k - 1` of the stack list: images in input order,
      bands in band order within each image. */
  lemma {:induction false} StackListAt<T>(images: seq<string>, open: string -> Dataset<T>, std: bool,
                                          standardise: Matrix<T> -> Matrix<T>, j: nat, k: nat)
    requires j < |images| && 1 <= k <= RasterCount(open(images[j]))
    ensures GetRasterBand(open(images[j]), k).Some?
    ensures BandTotal(images[..j], open) + k - 1 < |StackList(images, open, std, standardise)|
    ensures StackList(images, open, std, standardise)[BandTotal(images[..j], open) + k - 1]
            == Prepare(GetRasterBand(open(images[j]), k).value, std, standardise)
  {
    var last := |images| - 1;
    var init := images[..last];
    StackListLength(init, open, std, standardise);
    StackListLength(images, open, std, standardise);
    if j == last {
      assert init == images[..j];
    } else {
      assert init[..j] == images[..j];
      StackListAt(init, open, std, standardise, j, k);
      BandTotalPrefix(init, open, j);
    }
  }

  /** The bands of the first `j` images are no more than those of all of them. */
  lemma {:induction false} BandTotalPrefix<T>(images: seq<string>, open: string -> Dataset<T>, j: nat)
    requires j < |images|
    ensures BandTotal(images[..j], open) + RasterCount(open(images[j])) <= BandTotal(images, open)
  {
    var last := |images| - 1;
    if j < last {
      assert images[..last][..j] == images[..j];
      BandTotalPrefix(images[..last], open, j);
    } else {
      assert images[..last] == images[..j];
    }
  }

  /** `make_stack` succeeds exactly when there is at least one band and every band
      (after the optional standardisation) has the shape of every other. */
  lemma MakeStackSucceeds<T>(images: seq<string>, open: string -> Dataset<T>, std: bool,
                             standardise: Matrix<T> -> Matrix<T>)
    ensures var list := StackList(images, open, std, standardise);
            Stack(list).Ok? <==>
              (BandTotal(images, open) > 0 &&
               forall i, j :: 0 <= i < |list| && 0 <= j < |list| ==>
                 list[i].rows == list[j].rows && list[i].cols == list[j].cols)
  {
    StackListLength(images, open, std, standardise);
  }

  /** With a `standardise` that keeps every band's grid, as `(array - mean) / std` does, `make_stack` succeeds with `std` set exactly when it
      succeeds on the bands as read: success depends only on the bands' grids. */
  lemma StandardiseKeepsSuccess<T>(images: seq<string>, open: string -> Dataset<T>,
                                   standardise: Matrix<T> -> Matrix<T>)
    requires forall a: Matrix<T> :: standardise(a).rows == a.rows && standardise(a).cols == a.cols
    ensures Stack(StackList(images, open, true, standardise)).Ok?
            <==> Stack(StackList(images, open, false, standardise)).Ok?
  {
    SameShapes(images, open, standardise);
  }

  /** The standardised stack list has, entry by entry, the grids of the list as read. */
  lemma {:induction false} SameShapes<T>(images: seq<string>, open: string -> Dataset<T>,
                                         standardise: Matrix<T> -> Matrix<T>)
    requires forall a: Matrix<T> :: standardise(a).rows == a.rows && standardise(a).cols == a.cols
    ensures var prepared := StackList(images, open, true, standardise);
            var read := StackList(images, open, false, standardise);
            |prepared| == |read| &&
            forall i :: 0 <= i < |read| ==> prepared[i].rows == read[i].rows && prepared[i].cols == read[i].cols
  {
    if images != [] {
      var init := images[..|images| - 1];
      var ds := open(images[|images| - 1]);
      SameShapes(init, open, standardise);
      var prepared := ImageBands(ds, true, standardise);
      var read := ImageBands(ds, false, standardise);
      forall i | 0 <= i < |read|
        ensures prepared[i].rows == read[i].rows && prepared[i].cols == read[i].cols
      {
        assert prepared[i] == standardise(ds.bands[i]);
      }
    }
  }

  /** scikit-learn's IncrementalPCA refuses to fit fewer than one feature, or fewer
      samples than components (here components == features == bands). */
  predicate Decomposable(samples: nat, features: nat)
  {
    1 <= features <= samples
  }

  /** `stack.reshape(n, rows * cols)`: plane `b` becomes row `b`, pixel (i, j) column `i * cols + j`. */
  function Flatten<T>(c: Cube<T>): (flat: Matrix<T>)
    ensures flat.rows == c.n && flat.cols == c.rows * c.cols
  {
    Reshape2(Ravel3(c), c.n, c.rows * c.cols)
  }

  /** Pixel (i, j) of plane `b` is entry (b, i * cols + j) of the flattened stack. */
  lemma FlattenAt<T>(c: Cube<T>, b: nat, i: nat, j: nat)
    requires b < c.n && i < c.rows && j < c.cols
    ensures i * c.cols + j < c.rows * c.cols
    ensures Flatten(c).cells[b][i * c.cols + j] == c.cells[b][i][j]
  {
    Ravel3At(c, b, i, j);
    Reshape2At(Ravel3(c), c.n, c.rows * c.cols, b, i * c.cols + j);
  }

  /** `np.transpose(flat_stack)`: one sample (row) per pixel, one feature (column) per band. */
  function Samples<T>(c: Cube<T>): (m: Matrix<T>)
    ensures m.rows == c.rows * c.cols && m.cols == c.n
  {
    Transpose(Flatten(c))
  }

  /** Pixel (i, j) of band `b` is feature `b` of sample `i * cols + j`. */
  lemma SamplesAt<T>(c: Cube<T>, b: nat, i: nat, j: nat)
    requires b < c.n && i < c.rows && j < c.cols
    ensures i * c.cols + j < c.rows * c.cols
    ensures Samples(c).cells[i * c.cols + j][b] == c.cells[b][i][j]
  {
    FlattenAt(c, b, i, j);
  }

  /** `np.transpose(m).reshape(n, rows, cols)` for a (rows * cols, n) matrix of samples. */
  function Unflatten<T>(m: Matrix<T>, n: nat, rows: nat, cols: nat): (c: Cube<T>)
    requires m.rows == rows * cols && m.cols == n
    ensures c.n == n && c.rows == rows && c.cols == cols
  {
    var t := Transpose(m);
    Reshape3(Ravel2(t), n, rows, cols)
  }

  /** Feature `b` of sample `i * cols + j` becomes pixel (i, j) of plane `b`. */
  lemma UnflattenAt<T>(m: Matrix<T>, n: nat, rows: nat, cols: nat, b: nat, i: nat, j: nat)
    requires m.rows == rows * cols && m.cols == n
    requires b < n && i < rows && j < cols
    ensures i * cols + j < rows * cols
    ensures Unflatten(m, n, rows, cols).cells[b][i][j] == m.cells[i * cols + j][b]
  {
    var t := Transpose(m);
    Reshape3At(Ravel2(t), n, rows, cols, b, i, j);
    Ravel2At(t, b, i * cols + j);
  }

  /** Turning the stack into samples and back gives the stack again, element for element. */
  lemma UnflattenSamples<T>(c: Cube<T>)
    ensures Unflatten(Samples(c), c.n, c.rows, c.cols) == c
  {
    var flat := Flatten(c);
    TransposeTwice(flat);
    RavelReshape2(Ravel3(c), c.n, c.rows * c.cols);
    ReshapeRavel3(c);
  }

  /** `run_pca(stack)`: a PCA with as many components as bands, fitted to and applied to
      the pixel samples, its output laid back out in the stack's shape. `fitTransform(k, x)`
      stands for `IncrementalPCA(n_components=k).fit(x)` followed by `.transform(x)`,
      which returns one row per sample and one column per component. */
  function RunPca<T>(c: Cube<T>, fitTransform: (nat, Matrix<T>) -> Matrix<T>): (r: Result<Cube<T>>)
    requires Decomposable(c.rows * c.cols, c.n) ==>
               fitTransform(c.n, Samples(c)).rows == c.rows * c.cols &&
               fitTransform(c.n, Samples(c)).cols == c.n
    ensures r.Ok? <==> 1 <= c.n <= c.rows * c.cols
    ensures r.Err? ==> r.error == ValueError
    ensures r.Ok? ==> r.value.n == c.n && r.value.rows == c.rows && r.value.cols == c.cols
  {
    var nComponents := c.n;
    if !Decomposable(c.rows * c.cols, nComponents) then Err(ValueError)
    else
      var transformed := fitTransform(nComponents, Samples(c));
      Ok(Unflatten(transformed, c.n, c.rows, c.cols))
  }

  /** Component `b` of the output at pixel (i, j) is what the fitted PCA, asked for exactly
      `n` components, gives as feature `b` of sample `i * cols + j`. */
  lemma RunPcaAt<T>(c: Cube<T>, fitTransform: (nat, Matrix<T>) -> Matrix<T>, b: nat, i: nat, j: nat)
    requires Decomposable(c.rows * c.cols, c.n)
    requires fitTransform(c.n, Samples(c)).rows == c.rows * c.cols && fitTransform(c.n, Samples(c)).cols == c.n
    requires b < c.n && i < c.rows && j < c.cols
    ensures RunPca(c, fitTransform).Ok?
    ensures i * c.cols + j < c.rows * c.cols
    ensures RunPca(c, fitTransform).value.cells[b][i][j] == fitTransform(c.n, Samples(c)).cells[i * c.cols + j][b]
  {
    UnflattenAt(fitTransform(c.n, Samples(c)), c.n, c.rows, c.cols, b, i, j);
  }

  /** With a transform that changes nothing, `run_pca` returns its input unchanged. */
  lemma RunPcaIdentity<T>(c: Cube<T>)
    requires Decomposable(c.rows * c.cols, c.n)
    ensures RunPca(c, (k: nat, m: Matrix<T>) => m) == Ok(c)
  {
    UnflattenSamples(c);
  }
}
