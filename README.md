# rsgis-utils band stacking and PCA reshaping, modelled in Dafny

This project models the parts of two raster utilities whose logic can be stated
and proved without floating point or file I/O.

- `pca.py` runs a principal components analysis over the bands of co-registered
  rasters.
  - `make_stack` reads every band of every image, in order, and stacks them with
    `np.stack`.
  - `run_pca` reshapes the (bands, rows, cols) stack into one sample per pixel and
    one feature per band. It fits scikit-learn's `IncrementalPCA` with as many
    components as bands, and transforms the samples. It then lays the result back
    out in the stack's shape.
- `stack_landsat.py` takes a Landsat scene's `MTL.txt` metadata file.
  - It picks the scene's `*.TIF` band files whose paths contain `B<n>.TIF` for a
    requested band number `n`.
  - It names the output after the metadata file and stacks the chosen bands.

Files:

- `results.dfy` (module `Results`): `Result`, `Option` and the Python exceptions
  that are raised (`ValueError`, `IndexError`).
- `seqs.dfy` (module `Seqs`): `Concat` and `Chunk`. These are the two halves of
  numpy's row-major (C-order) reshape, with their index and round-trip lemmas.
- `ndarray.dfy` (module `NdArray`): numpy arrays as `Matrix<T>` (2-D) and `Cube<T>`
  (3-D). Both are subset types that keep the shape, even when a dimension is 0. The
  module also has `ravel`, `reshape`, `transpose` and `np.stack`.
- `pca.dfy` (module `Pca`): `MakeStack` is a method with the source's nested loops.
  The `run_pca` chain is written as functions: `Flatten`, `Samples`, `Unflatten`
  and `RunPca`.
- `pystr.dfy` (module `PyStr`): the Python builtins the Landsat script relies on:
  `sub in s`, `str.replace`, `str.split()` and `posixpath.basename`. It also has
  `Join` (`" ".join`), which the script does not call: it is a helper for the
  split lemmas, which state that `split()` undoes it.
- `stack_landsat.dfy` (module `StackLandsat`): band ids, the `GetBands` method and
  the `FilterBands` method that holds its filtering loop, the image directory, the
  default bands, the output name and `StackBands`.

Inputs taken as parameters, because they are I/O or foreign code:

- `open: string -> Dataset<T>`: `gdal.Open` followed by reading the bands.
- `standardise`: the per-band standardisation.
- `fitTransform(k, samples)`: `IncrementalPCA(n_components=k)`, fitted to
  `samples`, then `transform(samples)`.
- `absPath`: `os.path.abspath(input_mtl)`.
- `glob`: from a pattern to the list of matching paths.
- `read`: `gdal2array`.

Errors the PCA script raises:

- `make_stack` lets `np.stack` raise and re-raises a bare `ValueError` when the
  bands differ in shape. It raises the same `ValueError` when there are no bands
  at all, because `np.stack([])` raises it too.
- `run_pca` relies on `IncrementalPCA.fit`, which raises `ValueError` when there
  are no bands, or fewer pixels than bands (`Pca.Decomposable`).

Behaviour of the Landsat script that the lemmas make explicit:

- The selected files keep the order that `glob` lists them in. The order of the
  requested bands does not matter.
- `img_dir` deletes every non-overlapping occurrence of the metadata file's base
  name from the absolute path, scanning from the left, not only the trailing one
  (`ImgDirDeletesEveryOccurrence`). A base name that overlaps itself loses only
  the leftmost of two overlapping occurrences: `"aaa".replace("aa", "")` is `"a"`.
- A metadata name without `MTL.txt` gives an output name equal to the input name.
- Every `MTL.txt` in the metadata path is replaced, including one in a directory
  name (`OutputNameEveryMtl`). So `/data/MTL.txt_x/LC08_MTL.txt` is written to
  `/data/stack.tif_x/LC08_stack.tif`, which is in another directory.

## Model

| member | source | states |
|---|---|---|
| NdArray.Ravel2 | pca.py:71-73 | a 2-D array's row-major ravel has rows * cols elements |
| NdArray.Ravel3 | pca.py:59 | a 3-D array's row-major ravel has n * rows * cols elements |
| NdArray.Reshape2 | pca.py:59 | reshaping a flat array to (rows, cols) gives an array of that shape |
| NdArray.Reshape3 | pca.py:73 | reshaping a flat array to (n, rows, cols) gives an array of that shape |
| NdArray.Transpose | pca.py:60 | the transpose has the swapped shape, and entry (j, i) is entry (i, j) of the input |
| NdArray.Stack | pca.py:45-49 | `np.stack` succeeds iff the list is non-empty and every array has the same shape as every other; the result has one plane per array, in list order, with the shared shape; otherwise it gives ValueError |
| NdArray.Unstack | pca.py:46 | splitting a 3-D array gives its planes, in order, each with the array's (rows, cols) |
| NdArray.StackUnstack | pca.py:46 | stacking the planes of a non-empty 3-D array rebuilds it exactly |
| NdArray.TransposeTwice | pca.py:60-71 | transposing twice gives the array back |
| NdArray.Reshape2At | pca.py:59 | entry (i, j) of a flat array reshaped to (rows, cols) is flat element i * cols + j |
| NdArray.Ravel2At | pca.py:71-73 | entry (i, j) is element i * cols + j of the ravel |
| NdArray.Ravel3At | pca.py:59 | entry (b, i, j) is element b * rows * cols + i * cols + j of the ravel |
| NdArray.Reshape3At | pca.py:73 | entry (b, i, j) of a flat array reshaped to (n, rows, cols) is flat element b * rows * cols + i * cols + j |
| NdArray.RavelReshape2 | pca.py:59-73 | reshaping a flat array to 2-D and ravelling it again gives the flat array back |
| NdArray.ReshapeRavel3 | pca.py:59-73 | reshaping a 3-D array's ravel to the array's own shape rebuilds the array |
| Pca.GetRasterBand | pca.py:35 | GDAL's band lookup is defined exactly for the 1-based indices 1 .. RasterCount; StackListAt places band k at its position in the stack list |
| Pca.StackList | pca.py:29-41 | the list the loops build; StackListLength gives its length and StackListAt gives each entry |
| Pca.Prepare | pca.py:38-39 | a band read from the file is standardised when `std` is set and used as read otherwise |
| Pca.ImageBands | pca.py:33-41 | one image contributes exactly RasterCount bands |
| Pca.MakeStack | pca.py:22-51 | the loops build the list image by image and band by band, and the result is `np.stack` of that list |
| Pca.StackListLength | pca.py:29-41 | the stack list has one entry per band of every image: the sum of the band counts |
| Pca.StackListAt | pca.py:29-41 | band k of image j, read with the 1-based GDAL index k, is at position (bands of images before j) + k - 1: images in input order, then bands in band order; GetRasterBand(k) is defined for every k in 1..RasterCount |
| Pca.BandTotalPrefix | pca.py:29-33 | the bands of the images before j, plus image j's own bands, fit in the whole list |
| Pca.MakeStackSucceeds | pca.py:45-49 | make_stack succeeds iff there is at least one band and all bands share one (rows, cols) |
| Pca.StandardiseKeepsSuccess | pca.py:16-20 | for any standardisation that keeps each band's (rows, cols), as `(array - mean) / std` does, make_stack with `std` set succeeds exactly when it succeeds on the bands as read |
| Pca.SameShapes | pca.py:29-41 | with such a standardisation, the standardised stack list has the length of the list as read and, entry by entry, the same (rows, cols) |
| Pca.Decomposable | pca.py:64 | the condition under which `IncrementalPCA.fit` with as many components as features accepts the samples: at least one feature and at least as many samples as features |
| Pca.Flatten | pca.py:59 | the flattened stack has shape (n, rows * cols) |
| Pca.FlattenAt | pca.py:59 | stack element [b][i][j] lands at flat[b][i * cols + j] |
| Pca.Samples | pca.py:60 | the sample matrix has shape (rows * cols, n): one row per pixel, one column per band |
| Pca.SamplesAt | pca.py:59-60 | stack element [b][i][j] is feature b of sample i * cols + j, i.e. entry [p][b] is flat[b][p] |
| Pca.Unflatten | pca.py:71-73 | transposing the (rows * cols, n) result and reshaping it gives the stack's shape (n, rows, cols) |
| Pca.UnflattenAt | pca.py:70-73 | feature b of sample i * cols + j becomes output element [b][i][j] |
| Pca.UnflattenSamples | pca.py:59-73 | flattening to samples and laying them back out recovers the stack element for element |
| Pca.RunPca | pca.py:53-75 | run_pca fails with ValueError iff there are no bands or fewer pixels than bands; otherwise the output has exactly the input stack's shape |
| Pca.RunPcaAt | pca.py:57-73 | the transform is asked for as many components as there are bands, and output [b][i][j] is its component b for pixel sample i * cols + j |
| Pca.RunPcaIdentity | pca.py:59-73 | with a transform that changes nothing, run_pca returns the input stack exactly |
| PyStr.Contains | stack_landsat.py:31 | `sub in s`; ContainsOccurs states what it means |
| PyStr.ContainsOccurs | stack_landsat.py:31 | `sub in s` holds iff sub occurs at some index of s |
| PyStr.Replace | stack_landsat.py:23 | `str.replace`, as a left-to-right scan; ReplaceEvery and ReplaceAbsent together fix the result for any number and position of occurrences, and ReplaceCopies, ReplaceSuffix, ReplaceTwo, ReplaceBothOccurrences and ReplaceEmptyByEmpty state particular cases |
| PyStr.ReplaceEvery | stack_landsat.py:23 | for a non-empty target whose first occurrence follows pre, replace gives pre + repl + the replace of everything after that occurrence: by induction on the number of occurrences, every non-overlapping occurrence is replaced, scanning from the left, and the text between them is kept |
| PyStr.ReplaceFromAfter | stack_landsat.py:23 | the scan of p + s from inside s gives what the scan of s alone gives: text before the scan position does not change what comes after it |
| PyStr.StepAgree | stack_landsat.py:23 | two scans on the same character, agreeing on whether an occurrence starts there and agreeing from where they continue, agree from this point on |
| PyStr.ReplaceCopies | stack_landsat.py:23 | replace copies the characters at which no occurrence of the target starts |
| PyStr.ReplaceAbsent | stack_landsat.py:90 | a string that does not contain the target comes back from replace unchanged |
| PyStr.ReplaceSuffix | stack_landsat.py:90 | if the target occurs only at the end, replace swaps just that occurrence |
| PyStr.ReplaceTwo | stack_landsat.py:23 | when the target occurs at one inner index and at the end, both occurrences become the replacement, and the text before and between them is kept |
| PyStr.ReplaceBothOccurrences | stack_landsat.py:23 | replacing the target in pre + target + mid + target gives pre + repl + mid + repl |
| PyStr.ReplaceEmptyByEmpty | stack_landsat.py:23 | replacing the empty string with the empty string changes nothing |
| PyStr.RFind | stack_landsat.py:22 | `rfind` gives an index holding the character, with none after it, or -1 when the character does not occur |
| PyStr.Basename | stack_landsat.py:22 | basename is the longest suffix without '/', and the character before it, if any, is '/' |
| PyStr.IsSpace | stack_landsat.py:86 | the characters `str.split()` separates at: CPython's whitespace set (ASCII 9-13 and 28-32, U+0085, U+00A0, U+1680, U+2000-U+200A, U+2028, U+2029, U+202F, U+205F, U+3000); space, tab, newline and carriage return are whitespace, and digits and ASCII letters are not |
| PyStr.WordLength | stack_landsat.py:86 | a token ends at the first whitespace character or at the end of the string |
| PyStr.Split | stack_landsat.py:86 | split() tokens are non-empty and contain no whitespace |
| PyStr.SplitKeepsText | stack_landsat.py:86 | the tokens of split(), laid end to end, are the non-whitespace characters of the string, in order |
| PyStr.SplitJoin | stack_landsat.py:85-86 | splitting words joined by single spaces gives the words back |
| PyStr.SplitLeadingSpace | stack_landsat.py:86 | leading whitespace of any kind and length produces no token |
| PyStr.SplitRuns | stack_landsat.py:86 | a run of whitespace of any length and kind counts as one separator, and whitespace at either end is ignored: words separated that way split back into the words |
| StackLandsat.BandIds | stack_landsat.py:26 | one id "B" + n + ".TIF" per requested band number, in the requested order |
| StackLandsat.BandIdInjective | stack_landsat.py:26 | different band numbers give different ids |
| StackLandsat.MatchesAny | stack_landsat.py:31 | `any(band_id in band for band_id in band_ids)`: some band id is a substring of the path |
| StackLandsat.Select | stack_landsat.py:30-32 | every kept path comes from the listing and contains some band id; SelectCount and SelectSubsequence give the multiplicity and the order |
| StackLandsat.ImgDir | stack_landsat.py:22-23 | the image directory; ImgDirDeletesEveryOccurrence, ImgDirOfFile and ImgDirEmptyBasename state what it is for any number and position of occurrences of the base name |
| StackLandsat.GetBands | stack_landsat.py:17-34 | the result is the globbed `img_dir + "*.TIF"` list, filtered to the paths that contain some band id |
| StackLandsat.FilterBands | stack_landsat.py:28-34 | the loop appends exactly the listed paths that contain some band id, in listing order |
| StackLandsat.SelectCount | stack_landsat.py:30-32 | a path is kept iff some band id is a substring of it, once per listing, however many ids it contains |
| StackLandsat.SelectSubsequence | stack_landsat.py:30-32 | the kept paths are a subsequence of the globbed list: their order is kept |
| StackLandsat.SelectNoIds | stack_landsat.py:26-32 | an empty band list selects no files |
| StackLandsat.ImgDirOfFile | stack_landsat.py:22-23 | if the base name occurs in the absolute path only at its end, img_dir is the path up to the base name |
| StackLandsat.ImgDirDeletesEveryOccurrence | stack_landsat.py:22-23 | for a non-empty base name, its first occurrence is deleted, the text before it kept, and the rest of the path after that occurrence treated the same way: every non-overlapping occurrence, scanning from the left, is deleted |
| StackLandsat.ImgDirDeletesBothOccurrences | stack_landsat.py:22-23 | an earlier occurrence of the base name inside the directory part is deleted as well as the trailing one |
| StackLandsat.ImgDirEmptyBasename | stack_landsat.py:22-23 | an empty metadata path, or one that ends in '/', has an empty base name and leaves the absolute path unchanged |
| StackLandsat.DefaultBandsSplit | stack_landsat.py:85-86 | the default "1 2 3 4 5 6 7 8" splits into the eight bands "1" to "8" |
| StackLandsat.BandNumbers | stack_landsat.py:83-86 | a missing or empty --bands argument gives ["1", ..., "8"]; any other argument gives its whitespace split; every band number is a non-empty, whitespace-free token |
| StackLandsat.OutputName | stack_landsat.py:90 | the output name; OutputNameEveryMtl and OutputNameWithoutMtl fix it for any number and position of "MTL.txt", and OutputNameOfMtl and OutputNameBothMtl state particular cases |
| StackLandsat.OutputNameOfMtl | stack_landsat.py:90 | a name that ends in its only "MTL.txt" gets "stack.tif" in its place |
| StackLandsat.OutputNameEveryMtl | stack_landsat.py:90 | the first "MTL.txt" becomes "stack.tif", the text before it is kept, and the rest after it is named the same way: every non-overlapping "MTL.txt", scanning from the left, is replaced |
| StackLandsat.OutputNameBothMtl | stack_landsat.py:90 | an earlier "MTL.txt" is replaced too: pre + "MTL.txt" + mid + "MTL.txt" gives pre + "stack.tif" + mid + "stack.tif" |
| StackLandsat.OutputNameWithoutMtl | stack_landsat.py:90 | a name without "MTL.txt" is returned unchanged |
| StackLandsat.StackBands | stack_landsat.py:55-57 | one plane per band path, in the given order, read from that path; no paths gives IndexError; a non-empty list fails iff the shapes differ, and then with ValueError |

## Left out

- `standardise` (pca.py:16-20): floating-point mean and population standard deviation. It is a parameter of `MakeStack`. A constant band divides by zero, and the model does not capture that.
- The numerics of `IncrementalPCA` (pca.py:62-70): fitting, the covariance matrix, the explained-variance ratios and the projection. The fit and transform are the parameter `fitTransform`, which must return one row per sample and one column per component. The covariance and ratio outputs of `run_pca` are passed through from the library and are not modelled.
- scikit-learn's source is not part of this model. The `ValueError` condition of `RunPca` restates the shape validation of `IncrementalPCA.fit` in scikit-learn 1.x. That validation requires at least one sample and one feature. `fit` then cuts the samples into batches of 5 * n_features, merges a short last batch into the one before, and refuses a batch with fewer samples than components. With as many components as features, this fails exactly when there are fewer samples than features.
- Pca.RunPca: does not model the check in `fit` that rejects NaN or infinite samples with `ValueError`, because the generic element type `T` has no such values. The entry point passes `std=True` (pca.py:102), so a constant band is divided by a zero standard deviation (pca.py:20). The resulting NaN makes `fit` (pca.py:64) raise, which the model does not capture.
- GDAL I/O: `gdal.Open`, `ReadAsArray`, `GetRasterBand` on a file, `SaveArray`, and closing datasets (pca.py:31-43, pca.py:113-115; stack_landsat.py:36-46, stack_landsat.py:57-61). Datasets are values given by `open`, and `read` gives one band.
- An unreadable file (`gdal.Open` returning `None`) is not modelled. Neither is an image whose bands have different data types.
- StackLandsat.StackBands: only one-band files are modelled. A multi-band file makes `gdal2array` return a 3-D array, which this model does not represent. It also models `np.array` as numpy 1.24 and later behave: ragged shapes raise `ValueError`. Older numpy built an object array instead.
- `glob.glob` and `os.path.abspath` depend on the file system and the working directory. They are parameters.
- argparse, printing, and the entry points `main` and `run` (pca.py:77-118; stack_landsat.py:64-95). The pure string steps of `run` are modelled: `BandNumbers` and `OutputName`.
- numpy element types: elements are of a generic type `T`, so no dtype conversion is modelled.
