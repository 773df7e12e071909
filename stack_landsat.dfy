/** stack_landsat.py: choosing the band files of a Landsat scene from its MTL.txt metadata
    file, naming the output, and stacking the chosen bands. */
module StackLandsat {
  import opened Results
  import opened NdArray
  import opened PyStr

  /** The band file suffix for band number `n`, e.g. "B4.TIF". */
  function BandId(n: string): string
  {
    "B" + n + ".TIF"
  }

  /** `band_ids`: one suffix per requested band number, in the requested order. */
  function BandIds(bandNumbers: seq<string>): (ids: seq<string>)
    ensures |ids| == |bandNumbers|
    ensures forall k :: 0 <= k < |ids| ==> ids[k] == BandId(bandNumbers[k])
  {
    seq(|bandNumbers|, k requires 0 <= k < |bandNumbers| => BandId(bandNumbers[k]))
  }

  /** Different band numbers give different suffixes, so each requested band has its own id. */
  lemma BandIdInjective(m: string, n: string)
    requires BandId(m) == BandId(n)
    ensures m == n
  {
    assert |m| == |n|;
    assert m == BandId(m)[1..|m| + 1];
    assert n == BandId(n)[1..|n| + 1];
  }

  /** `any(band_id in path for band_id in ids)`. */
  predicate MatchesAny(path: string, ids: seq<string>)
  {
    exists k :: 0 <= k < |ids| && Contains(ids[k], path)
  }

  /** The paths of `files` that contain some band id, in their original order. */
  function Select(files: seq<string>, ids: seq<string>): (kept: seq<string>)
    ensures forall p :: p in kept ==> p in files && MatchesAny(p, ids)
  {
    if files == [] then []
    else
      var last := files[|files| - 1];
      Select(files[..|files| - 1], ids) + (if MatchesAny(last, ids) then [last] else [])
  }

  /** The directory part of `get_bands`: the absolute path of the metadata file with every
      occurrence of the file's base name deleted. */
  function ImgDir(absPath: string, inputMtl: string): string
  {
    var mtlBasename := Basename(inputMtl);
    Replace(absPath, mtlBasename, "")
  }

  /** `get_bands(input_mtl, bands_for_stack)`: the `*.TIF` files of the scene directory whose
      path contains one of the band ids, in the order the directory listing gives them.
      `absPath` is `os.path.abspath(input_mtl)`; `glob` maps a pattern to its matches. */
  method GetBands(inputMtl: string, absPath: string, bandsForStack: seq<string>,
                  glob: string -> seq<string>) returns (bands: seq<string>)
    ensures bands == Select(glob(ImgDir(absPath, inputMtl) + "*.TIF"), BandIds(bandsForStack))
  {
    var imgDir := ImgDir(absPath, inputMtl);
    var bandIds := BandIds(bandsForStack);
    var files := glob(imgDir + "*.TIF");
    bands := FilterBands(files, bandIds);
  }

  /** The loop of `get_bands`: appends each listed path that contains some band id. */
  method FilterBands(files: seq<string>, bandIds: seq<string>) returns (bands: seq<string>)
    ensures bands == Select(files, bandIds)
  {
    bands := [];
    for k := 0 to |files|
      invariant bands == Select(files[..k], bandIds)
    {
      var band := files[k];
      if MatchesAny(band, bandIds) {
        bands := bands + [band];
      }
      SelectStep(files, k, bandIds);
    }
    assert files[..|files|] == files;
  }

  /** Filtering one more path of the listing appends it when it matches. */
  lemma SelectStep(files: seq<string>, k: nat, ids: seq<string>)
    requires k < |files|
    ensures Select(files[..k + 1], ids)
            == Select(files[..k], ids) + (if MatchesAny(files[k], ids) then [files[k]] else [])
  {
    assert files[..k + 1][..k] == files[..k];
  }

  /** Each path is kept once for each time it is listed if it contains some band id, however
      many ids it contains, and dropped otherwise. */
  lemma {:induction false} SelectCount(files: seq<string>, ids: seq<string>, path: string)
    ensures multiset(Select(files, ids))[path] == if MatchesAny(path, ids) then multiset(files)[path] else 0
  {
    if files != [] {
      var init, last := files[..|files| - 1], files[|files| - 1];
      SelectCount(init, ids, path);
      assert files == init + [last];
      assert multiset(files) == multiset(init) + multiset{last};
      assert Select(files, ids) == Select(init, ids) + (if MatchesAny(last, ids) then [last] else []);
    }
  }

  /** `a` is `b` with some elements left out, the rest in their order. */
  ghost predicate IsSubsequence<T>(a: seq<T>, b: seq<T>)
  {
    if b == [] then a == []
    else IsSubsequence(a, b[..|b| - 1]) ||
         (a != [] && a[|a| - 1] == b[|b| - 1] && IsSubsequence(a[..|a| - 1], b[..|b| - 1]))
  }

  /** The selected paths keep the order of the listing. */
  lemma {:induction false} SelectSubsequence(files: seq<string>, ids: seq<string>)
    ensures IsSubsequence(Select(files, ids), files)
  {
    if files != [] {
      var init := files[..|files| - 1];
      SelectSubsequence(init, ids);
      var s := Select(files, ids);
      assert files[..|files| - 1] == init;
      if MatchesAny(files[|files| - 1], ids) {
        assert s == Select(init, ids) + [files[|files| - 1]];
        assert s[..|s| - 1] == Select(init, ids);
        assert s != [] && s[|s| - 1] == files[|files| - 1];
      } else {
        assert s == Select(init, ids);
      }
    }
  }

  /** No requested bands, no selected files. */
  lemma {:induction false} SelectNoIds(files: seq<string>)
    ensures Select(files, []) == []
  {
    if files != [] {
      SelectNoIds(files[..|files| - 1]);
    }
  }

  /** For a metadata file whose base name occurs in its absolute path only at the end,
      the image directory is the path up to the base name. */
  lemma ImgDirOfFile(dir: string, inputMtl: string)
    requires Basename(inputMtl) != []
    requires NoOccurrenceIn(Basename(inputMtl), dir + Basename(inputMtl), 0, |dir|)
    ensures ImgDir(dir + Basename(inputMtl), inputMtl) == dir
  {
    ReplaceSuffix(dir, Basename(inputMtl), "");
  }

  /** An earlier occurrence of the base name inside the directory part is deleted too:
      `pre + base + mid + base` gives `pre + mid`, not `pre + base + mid`. */
  lemma ImgDirDeletesBothOccurrences(pre: string, mid: string, inputMtl: string)
    requires Basename(inputMtl) != []
    requires NoOccurrenceIn(Basename(inputMtl), pre + Basename(inputMtl) + mid + Basename(inputMtl), 0, |pre|)
    requires NoOccurrenceIn(Basename(inputMtl), pre + Basename(inputMtl) + mid + Basename(inputMtl),
                            |pre| + |Basename(inputMtl)|, |pre| + |Basename(inputMtl)| + |mid|)
    ensures ImgDir(pre + Basename(inputMtl) + mid + Basename(inputMtl), inputMtl) == pre + mid
  {
    var base := Basename(inputMtl);
    ReplaceBothOccurrences(pre, mid, base, "");
    assert pre + "" + mid + "" == pre + mid;
  }

  /** Every non-overlapping occurrence of the base name, scanning from the left, is deleted:
      the first one goes, the text before it stays, and the rest of the path after it is
      treated the same way. */
  lemma ImgDirDeletesEveryOccurrence(pre: string, post: string, inputMtl: string)
    requires Basename(inputMtl) != []
    requires NoOccurrenceIn(Basename(inputMtl), pre + Basename(inputMtl) + post, 0, |pre|)
    ensures ImgDir(pre + Basename(inputMtl) + post, inputMtl) == pre + ImgDir(post, inputMtl)
  {
    var base := Basename(inputMtl);
    ReplaceEvery(pre, base, post, "");
    assert pre + "" == pre;
  }

  /** An empty metadata path, or one ending in '/', has an empty base name, and the directory is the
      absolute path unchanged. */
  lemma ImgDirEmptyBasename(absPath: string, inputMtl: string)
    requires inputMtl == [] || inputMtl[|inputMtl| - 1] == '/'
    ensures ImgDir(absPath, inputMtl) == absPath
  {
    assert Basename(inputMtl) == [];
    ReplaceEmptyByEmpty(absPath);
  }

  /** The band numbers used when none are given. */
  const DefaultBands: string := "1 2 3 4 5 6 7 8"

  /** The default band numbers split into the eight bands "1" to "8". */
  lemma DefaultBandsSplit()
    ensures Split(DefaultBands) == ["1", "2", "3", "4", "5", "6", "7", "8"]
  {
    DefaultBandsJoin();
    SplitJoin(["1", "2", "3", "4", "5", "6", "7", "8"]);
  }

  /** The default is the eight band numbers joined by single spaces. */
  lemma DefaultBandsJoin()
    ensures Join(["1", "2", "3", "4", "5", "6", "7", "8"]) == DefaultBands
  {
    var words := ["1", "2", "3", "4", "5", "6", "7", "8"];
    HighBandsJoin();
    assert words[4..] == ["5", "6", "7", "8"];
    assert Join(words[3..]) == "4 5 6 7 8";
    assert Join(words[2..]) == "3 4 5 6 7 8";
    assert Join(words[1..]) == "2 3 4 5 6 7 8";
  }

  /** The upper half of the default: "5 6 7 8". */
  lemma HighBandsJoin()
    ensures Join(["5", "6", "7", "8"]) == "5 6 7 8"
  {
    var words := ["5", "6", "7", "8"];
    assert Join(words[3..]) == "8";
    assert Join(words[2..]) == "7 8";
    assert Join(words[1..]) == "6 7 8";
  }

  /** The band numbers `run` passes on: the `--bands` argument split on whitespace, or the
      default list when the argument is missing or empty. */
  function BandNumbers(arg: Option<string>): (bands: seq<string>)
    ensures arg == None || arg == Some("") ==> bands == ["1", "2", "3", "4", "5", "6", "7", "8"]
    ensures arg.Some? && arg.value != "" ==> bands == Split(arg.value)
    ensures forall k :: 0 <= k < |bands| ==> IsWord(bands[k])
  {
    DefaultBandsSplit();
    var text := if arg.None? || arg.value == "" then DefaultBands else arg.value;
    Split(text)
  }

  /** The output file name: the metadata file name with every "MTL.txt" replaced by "stack.tif". */
  function OutputName(inputMtl: string): string
  {
    Replace(inputMtl, "MTL.txt", "stack.tif")
  }

  /** A metadata name that ends in its only "MTL.txt" gets "stack.tif" in its place. */
  lemma OutputNameOfMtl(prefix: string)
    requires NoOccurrenceIn("MTL.txt", prefix + "MTL.txt", 0, |prefix|)
    ensures OutputName(prefix + "MTL.txt") == prefix + "stack.tif"
  {
    ReplaceSuffix(prefix, "MTL.txt", "stack.tif");
  }

  /** An earlier "MTL.txt" is replaced as well as the trailing one: "/data/MTL.txt_x/LC08_MTL.txt"
      becomes "/data/stack.tif_x/LC08_stack.tif", so the output lands in another directory. */
  lemma OutputNameBothMtl(pre: string, mid: string)
    requires NoOccurrenceIn("MTL.txt", pre + "MTL.txt" + mid + "MTL.txt", 0, |pre|)
    requires NoOccurrenceIn("MTL.txt", pre + "MTL.txt" + mid + "MTL.txt", |pre| + 7, |pre| + 7 + |mid|)
    ensures OutputName(pre + "MTL.txt" + mid + "MTL.txt") == pre + "stack.tif" + mid + "stack.tif"
  {
    ReplaceBothOccurrences(pre, mid, "MTL.txt", "stack.tif");
  }

  /** Every non-overlapping "MTL.txt", scanning from the left, is replaced: the first becomes
      "stack.tif", the text before it stays, and the rest of the name after it is treated the
      same way. */
  lemma OutputNameEveryMtl(pre: string, post: string)
    requires NoOccurrenceIn("MTL.txt", pre + "MTL.txt" + post, 0, |pre|)
    ensures OutputName(pre + "MTL.txt" + post) == pre + "stack.tif" + OutputName(post)
  {
    ReplaceEvery(pre, "MTL.txt", post, "stack.tif");
  }

  /** A name without "MTL.txt" is returned unchanged, so the output would overwrite the input. */
  lemma OutputNameWithoutMtl(inputMtl: string)
    requires !Contains("MTL.txt", inputMtl)
    ensures OutputName(inputMtl) == inputMtl
  {
    ReplaceAbsent(inputMtl, "MTL.txt", "stack.tif");
  }

  /** The array `stack_bands(bands, output_name)` saves: one plane per band file, in the given
      order (`np.array`, which refuses bands of different shapes with `ValueError`); with no
      band files `bands[0]` raises `IndexError`. `read` is `gdal2array` for one-band files. */
  function StackBands<T>(bands: seq<string>, read: string -> Matrix<T>): (r: Result<Cube<T>>)
    ensures |bands| == 0 ==> r == Err(IndexError)
    ensures |bands| > 0 && r.Err? ==> r.error == ValueError
    ensures r.Ok? <==> |bands| > 0 && forall i, j :: 0 <= i < |bands| && 0 <= j < |bands| ==>
                         read(bands[i]).rows == read(bands[j]).rows && read(bands[i]).cols == read(bands[j]).cols
    ensures r.Ok? ==> r.value.n == |bands| && r.value.rows == read(bands[0]).rows && r.value.cols == read(bands[0]).cols
    ensures r.Ok? ==> forall i :: 0 <= i < |bands| ==> r.value.cells[i] == read(bands[i]).cells
  {
    var arrays := seq(|bands|, i requires 0 <= i < |bands| => read(bands[i]));
    var stack := Stack(arrays);
    assert forall i :: 0 <= i < |bands| ==> arrays[i] == read(bands[i]);
    if |bands| == 0 then Err(IndexError) else stack
  }
}
