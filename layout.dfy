/**
  How the two halves meet: gif.py writes "assets/images/<stem>/<n>.png",
  and src/gif.rs lists "assets/images/", drops the first 14 characters of
  each entry to get its key and the first 7 of each frame path to get the
  asset path it loads. These lemmas show that the prefixes line up.
 */
module Layout {
  import FS = FrameStore
  import SP = Splitter

  /** The directory gif.py writes a GIF's frames to is the root entry the store keys by that GIF's stem. */
  lemma OutputDirKey(p: string)
    requires SP.IsGlobMatch(p)
    ensures FS.Join(FS.Root, SP.Stem(p)) == SP.OutputDir(p)
    ensures FS.Key(SP.OutputDir(p)) == SP.Stem(p)
  {
  }

  /**
    Listing a written output directory gives back the frame file's path, and
    the store's asset path for it is "images/<stem>/<n>.png".
   */
  lemma FrameHandle(stem: string, i: nat)
    requires stem != [] && SP.PlainName(stem)
    ensures FS.Join(SP.ImagesDir + stem, SP.Decimal(i + 1) + SP.PngSuffix) == SP.FrameName(stem, i)
    ensures FS.HandleOf(SP.FrameName(stem, i)) == "images/" + stem + "/" + SP.Decimal(i + 1) + SP.PngSuffix
  {
  }

  /** The file names gif.py writes for `n` frames, in frame order. */
  function FrameFiles(n: nat): (names: seq<string>)
    ensures |names| == n
  {
    seq(n, k requires 0 <= k < n => SP.Decimal(k + 1) + SP.PngSuffix)
  }

  /**
    When the root lists `stem` (and no later entry repeats it) and its
    directory enumerates exactly the files gif.py wrote for `n` frames in
    frame order, the store holds `n` frames under `stem` and frame `k` is
    "images/<stem>/<k+1>.png". The enumeration order is a hypothesis:
    `get_folder` does not sort.
   */
  lemma StoreReadsSplitOutput(fs: FS.FileSystem, i: nat, n: nat)
    requires FS.Root in fs.dirs && i < |fs.dirs[FS.Root]|
    requires forall j | i < j < |fs.dirs[FS.Root]| :: fs.dirs[FS.Root][j] != fs.dirs[FS.Root][i]
    requires var stem := fs.dirs[FS.Root][i]; stem != [] && SP.PlainName(stem)
    requires FS.Root + fs.dirs[FS.Root][i] in fs.dirs
    requires fs.dirs[FS.Root + fs.dirs[FS.Root][i]] == FrameFiles(n)
    ensures var stem := fs.dirs[FS.Root][i];
      && stem in FS.Build(fs)
      && |FS.Build(fs)[stem]| == n
      && forall k | 0 <= k < n :: FS.Build(fs)[stem][k] == "images/" + stem + "/" + SP.Decimal(k + 1) + SP.PngSuffix
  {
    var stem := fs.dirs[FS.Root][i];
    FS.BuildEntry(fs, i);
    assert SP.ImagesDir == FS.Root;
    forall k | 0 <= k < n
      ensures FS.Build(fs)[stem][k] == "images/" + stem + "/" + SP.Decimal(k + 1) + SP.PngSuffix
    {
      FrameHandle(stem, k);
    }
  }
}
