/**
  gif.py: every GIF directly in "assets/images/" is split into "assets/images/<stem>/1.png",
  "2.png", ... (only when "assets/images/<stem>" does not exist yet), and is
  then deleted. The filesystem is a set of directories and a map from file
  path to image; decoding and encoding are left to an opaque frame value.
 */
module Splitter {

  const ImagesDir: string := "assets/images/"
  const GifSuffix: string := ".gif"
  const PngSuffix: string := ".png"

  /** One decoded frame; its pixels are not modelled. */
  datatype Frame = Frame(id: nat)

  /** An image file: a still image is a single frame. */
  datatype File = Image(frames: seq<Frame>)

  datatype Disk = Disk(dirs: set<string>, files: map<string, File>)

  /** `os.path.exists`: a directory or a file. */
  predicate Exists(d: Disk, p: string)
  {
    p in d.dirs || p in d.files
  }

  /** The ASCII digit of `d`. */
  function Digit(d: nat): char
    requires d < 10
  {
    (('0' as int) + d) as char
  }

  /** `str(n)`: decimal digits, no leading zero. */
  function Decimal(n: nat): (s: string)
    ensures |s| >= 1
    ensures n < 10 <==> |s| == 1
    decreases n
  {
    if n < 10 then [Digit(n)] else Decimal(n / 10) + [Digit(n % 10)]
  }

  /** Different numbers are written differently. */
  lemma {:induction false} DecimalInjective(a: nat, b: nat)
    requires Decimal(a) == Decimal(b)
    ensures a == b
    decreases a
  {
    if a >= 10 && b >= 10 {
      var s := Decimal(a);
      assert Decimal(a / 10) == s[..|s| - 1];
      assert Decimal(b / 10) == s[..|s| - 1];
      DecimalInjective(a / 10, b / 10);
      assert Digit(a % 10) == s[|s| - 1] == Digit(b % 10);
    }
  }

  /** `str.rfind`: the last position of `c` in `s`, or -1. */
  function LastIndex(s: string, c: char): (i: int)
    ensures -1 <= i < |s|
    ensures i >= 0 ==> s[i] == c
    ensures forall j | i < j < |s| :: s[j] != c
    decreases |s|
  {
    if s == [] then -1
    else if s[|s| - 1] == c then |s| - 1
    else LastIndex(s[..|s| - 1], c)
  }

  /** `PurePath.name`: what follows the last separator. */
  function FileName(p: string): string
  {
    p[LastIndex(p, '/') + 1..]
  }

  /** `PurePath.stem`: the name without its last suffix; a leading or trailing dot is no suffix. */
  function Stem(p: string): string
  {
    var name := FileName(p);
    var i := LastIndex(name, '.');
    if 0 < i < |name| - 1 then name[..i] else name
  }

  /** The directory `write_frames` writes into. */
  function OutputDir(nameOriginal: string): string
  {
    ImagesDir + Stem(nameOriginal)
  }

  /** The file `write_frames` saves the frame of 0-based position `i` to. */
  function FrameName(stem: string, i: nat): string
  {
    ImagesDir + stem + "/" + Decimal(i + 1) + PngSuffix
  }

  /** `p` lies below directory `dir`. */
  predicate Under(p: string, dir: string)
  {
    |dir| < |p| && p[..|dir|] == dir && p[|dir|] == '/'
  }

  /** The files after the first `n` frames have been saved, in order. */
  function SaveFrames(files: map<string, File>, stem: string, frames: seq<Frame>, n: nat): map<string, File>
    requires n <= |frames|
    decreases n
  {
    if n == 0 then files
    else SaveFrames(files, stem, frames, n - 1)[FrameName(stem, n - 1) := Image([frames[n - 1]])]
  }

  /** Reference definition of `write_frames`. */
  function WriteFramesSpec(d: Disk, frames: seq<Frame>, nameOriginal: string): Disk
  {
    var dir := OutputDir(nameOriginal);
    if Exists(d, dir) then d
    else Disk(d.dirs + {dir}, SaveFrames(d.files, Stem(nameOriginal), frames, |frames|))
  }

  /** `get_frames`: the frames of the image at `p`. */
  function GetFrames(d: Disk, p: string): seq<Frame>
    requires p in d.files
  {
    d.files[p].frames
  }

  /** Reference definition of `os.remove` on an existing file. */
  function RemoveSpec(d: Disk, p: string): Disk
  {
    Disk(d.dirs, d.files - {p})
  }

  /** One turn of the main loop. Writing only adds files, so `p` is still there to remove. */
  function SplitOne(d: Disk, p: string): Disk
    requires p in d.files
  {
    RemoveSpec(WriteFramesSpec(d, GetFrames(d, p), p), p)
  }

  /** A path the script's glob of GIF names in "assets/images/" returns: no hidden name, no sub-directory. */
  predicate IsGlobMatch(p: string)
  {
    && |p| > |ImagesDir| + |GifSuffix|
    && p[..|ImagesDir|] == ImagesDir
    && p[|ImagesDir|] != '.'
    && (forall j | |ImagesDir| <= j < |p| :: p[j] != '/')
    && p[|p| - |GifSuffix|..] == GifSuffix
  }

  /**
    What the script's glob returns: every matching name in "assets/images/",
    a file or a directory alike, exactly once, in any order.
   */
  ghost predicate GlobResult(d: Disk, ps: seq<string>)
  {
    && NoRepeats(ps)
    && (forall i | 0 <= i < |ps| :: Exists(d, ps[i]) && IsGlobMatch(ps[i]))
    && (forall p | Exists(d, p) && IsGlobMatch(p) :: p in ps)
  }

  /** `ps` can be split turn by turn: every listed path is a matching file, listed once. */
  ghost predicate Splittable(d: Disk, ps: seq<string>)
  {
    NoRepeats(ps) && AllMatch(d, ps)
  }

  /** `ps` lists every matching file of `d` exactly once, and nothing else. */
  ghost predicate FileListing(d: Disk, ps: seq<string>)
  {
    Splittable(d, ps) && AllListed(d, ps)
  }

  ghost predicate NoRepeats(ps: seq<string>)
  {
    forall i, j | 0 <= i < j < |ps| :: ps[i] != ps[j]
  }

  /** Every listed path is a matching file. */
  ghost predicate AllMatch(d: Disk, ps: seq<string>)
  {
    forall i | 0 <= i < |ps| :: ps[i] in d.files && IsGlobMatch(ps[i])
  }

  /** Every matching file is listed. */
  ghost predicate AllListed(d: Disk, ps: seq<string>)
  {
    forall p | p in d.files && IsGlobMatch(p) :: p in ps
  }

  /** Reference definition of the turns of the main loop, one split-then-delete per listed file. */
  function SplitAllSpec(d: Disk, ps: seq<string>): Disk
    requires Splittable(d, ps)
    decreases |ps|
  {
    if ps == [] then d
    else
      SplitOneKeepsGlob(d, ps);
      SplitAllSpec(SplitOne(d, ps[0]), ps[1..])
  }

  /** How many turns run: the listed paths before the first one that is not a file. */
  function Turns(d: Disk, ps: seq<string>): (n: nat)
    ensures n <= |ps|
    ensures forall i | 0 <= i < n :: ps[i] in d.files
    ensures n < |ps| ==> ps[n] !in d.files
    decreases |ps|
  {
    if ps == [] || ps[0] !in d.files then 0
    else
      var n := 1 + Turns(d, ps[1..]);
      assert forall i | 1 <= i < n :: ps[i] == ps[1..][i - 1];
      n
  }

  /** The listed files before the first listed directory can be split turn by turn. */
  lemma PrefixSplittable(d: Disk, ps: seq<string>)
    requires GlobResult(d, ps)
    ensures Splittable(d, ps[..Turns(d, ps)])
  {
    var pre := ps[..Turns(d, ps)];
    forall i | 0 <= i < |pre| ensures pre[i] in d.files && IsGlobMatch(pre[i]) {
      assert pre[i] == ps[i];
    }
    forall i, j | 0 <= i < j < |pre| ensures pre[i] != pre[j] {
      assert pre[i] == ps[i] && pre[j] == ps[j];
    }
  }

  /** How the main loop ends: every listed GIF was split, or `Image.open` raised on `path`. */
  datatype RunEnd = Finished | Raised(path: string)

  /**
    Reference definition of the main loop: the turns run in glob order
    until a listed path is not a file, where opening it raises and the
    script stops.
   */
  function SplitRun(d: Disk, ps: seq<string>): (r: (Disk, RunEnd))
    requires GlobResult(d, ps)
    ensures r.1 == Finished <==> forall i | 0 <= i < |ps| :: ps[i] in d.files
    ensures r.1.Raised? ==> r.1.path in ps && r.1.path in d.dirs && r.1.path !in d.files
  {
    var n := Turns(d, ps);
    PrefixSplittable(d, ps);
    (SplitAllSpec(d, ps[..n]), if n < |ps| then Raised(ps[n]) else Finished)
  }

  // ---------------------------------------------------------------------
  // The filesystem the script works on.

  class Workspace {
    var dirs: set<string>
    var files: map<string, File>

    function State(): Disk
      reads this
    {
      Disk(dirs, files)
    }

    constructor (d: Disk)
      ensures State() == d
    {
      dirs := d.dirs;
      files := d.files;
    }

    /** `write_frames`: create the output directory and save each frame, unless the directory exists. */
    method WriteFrames(frames: seq<Frame>, nameOriginal: string)
      modifies this
      ensures State() == WriteFramesSpec(old(State()), frames, nameOriginal)
    {
      var stem := Stem(nameOriginal);
      var dir := ImagesDir + stem;
      if !(dir in dirs || dir in files) {
        dirs := dirs + {dir};
        for i := 0 to |frames|
          invariant dirs == old(dirs) + {dir}
          invariant files == SaveFrames(old(files), stem, frames, i)
        {
          files := files[FrameName(stem, i) := Image([frames[i]])];
        }
      }
    }

    /** `os.remove` of a file that exists. */
    method Remove(path: string)
      requires path in files
      modifies this
      ensures State() == RemoveSpec(old(State()), path)
    {
      files := files - {path};
    }

    /** The body of the `__main__` loop for one listed file: split it, then delete it. */
    method SplitTurn(imgPath: string)
      requires imgPath in files
      modifies this
      ensures State() == SplitOne(old(State()), imgPath)
    {
      ghost var before := State();
      var frames := GetFrames(State(), imgPath);
      WriteFrames(frames, imgPath);
      WriteKeepsFiles(before, frames, imgPath);
      Remove(imgPath);
    }

    /**
      The `__main__` loop: split, then delete, every path the glob found, in
      order; opening a listed directory raises and ends the script there.
     */
    method SplitGifs(paths: seq<string>) returns (end: RunEnd)
      requires GlobResult(State(), paths)
      modifies this
      ensures (State(), end) == SplitRun(old(State()), paths)
    {
      ghost var n := Turns(State(), paths);
      PrefixSplittable(State(), paths);
      ghost var listed := paths[..n];
      var i := 0;
      while i < |paths|
        invariant i <= n
        invariant Splittable(State(), listed[i..])
        invariant SplitAllSpec(State(), listed[i..]) == SplitAllSpec(old(State()), listed)
        invariant n < |paths| ==> IsGlobMatch(paths[n]) && paths[n] !in files
      {
        var imgPath := paths[i];
        if imgPath !in files {
          // `Image.open` raises on anything but a file.
          assert listed[i..] == [];
          return Raised(imgPath);
        }
        TurnStep(State(), listed, i);
        SplitOneFiles(State(), imgPath);
        SplitTurn(imgPath);
        i := i + 1;
      }
      assert listed[i..] == [];
      return Finished;
    }
  }

  // ---------------------------------------------------------------------
  // Properties.

  /** The name is the part of the path after its last separator, and holds none. */
  lemma FileNameIsLast(p: string)
    ensures var name := FileName(p);
      && PlainName(name)
      && |name| <= |p| && p[|p| - |name|..] == name
      && (|name| < |p| ==> p[|p| - |name| - 1] == '/')
  {
    var name := FileName(p);
    var i := LastIndex(p, '/');
    forall j | 0 <= j < |name| ensures name[j] != '/' {
      assert name[j] == p[i + 1 + j];
    }
  }

  /** The stem is a prefix of the name, so it holds no separator either. */
  lemma StemIsPrefix(p: string)
    ensures var name, stem := FileName(p), Stem(p);
      PlainName(stem) && |stem| <= |name| && name[..|stem|] == stem
  {
    FileNameIsLast(p);
    var name, stem := FileName(p), Stem(p);
    forall j | 0 <= j < |stem| ensures stem[j] != '/' {
      assert stem[j] == name[j];
    }
  }

  /**
    A stem shorter than the name lacks exactly the last suffix: a dot that
    is neither the first nor the last character, with no dot after it.
   */
  lemma StemDropsSuffix(p: string)
    ensures var name, stem := FileName(p), Stem(p);
      stem != name ==>
        && 0 < |stem| < |name| - 1
        && name[|stem|] == '.'
        && forall j | |stem| < j < |name| :: name[j] != '.'
  {
  }

  /** An output directory is an entry directly inside the images directory. */
  lemma OutputDirInImages(nameOriginal: string)
    ensures var dir := OutputDir(nameOriginal);
      && |ImagesDir| <= |dir| && dir[..|ImagesDir|] == ImagesDir
      && PlainName(dir[|ImagesDir|..])
  {
    StemIsPrefix(nameOriginal);
    assert OutputDir(nameOriginal)[|ImagesDir|..] == Stem(nameOriginal);
  }

  /** One turn deletes its GIF and creates at most one directory, the GIF's output directory. */
  lemma SplitOneDirs(d: Disk, p: string)
    requires p in d.files
    ensures p !in SplitOne(d, p).files
    ensures d.dirs <= SplitOne(d, p).dirs <= d.dirs + {OutputDir(p)}
  {
  }

  /** Saving only adds the frame files; every other file is kept as it was. */
  lemma {:induction false} SavedFramesKeys(files: map<string, File>, stem: string, frames: seq<Frame>, n: nat)
    requires n <= |frames|
    ensures forall p :: p in SaveFrames(files, stem, frames, n) <==>
      p in files || exists i :: 0 <= i < n && p == FrameName(stem, i)
    ensures forall p | p in files && !Under(p, ImagesDir + stem) :: SaveFrames(files, stem, frames, n)[p] == files[p]
    decreases n
  {
    if n > 0 {
      SavedFramesKeys(files, stem, frames, n - 1);
      FrameUnder(stem, n - 1);
    }
  }

  /** `write_frames` never deletes a file. */
  lemma WriteKeepsFiles(d: Disk, frames: seq<Frame>, nameOriginal: string)
    ensures d.files.Keys <= WriteFramesSpec(d, frames, nameOriginal).files.Keys
  {
    SavedFramesKeys(d.files, Stem(nameOriginal), frames, |frames|);
  }

  /** A frame file lies below its output directory, inside the images directory. */
  lemma FrameUnder(stem: string, i: nat)
    ensures Under(FrameName(stem, i), ImagesDir + stem)
    ensures FrameName(stem, i)[..|ImagesDir|] == ImagesDir
  {
    var p := FrameName(stem, i);
    assert p == (ImagesDir + stem) + ("/" + Decimal(i + 1) + PngSuffix);
  }

  /** Frame numbering has no repeats: different positions go to different files. */
  lemma FrameNamesDistinct(stem: string, i: nat, j: nat)
    requires i != j
    ensures FrameName(stem, i) != FrameName(stem, j)
  {
    var a := ImagesDir + stem + "/";
    var di, dj := Decimal(i + 1), Decimal(j + 1);
    if FrameName(stem, i) == FrameName(stem, j) {
      var p := FrameName(stem, i);
      assert p == a + di + PngSuffix == a + dj + PngSuffix;
      assert |di| == |dj|;
      assert p[|a|..|a| + |di|] == di;
      assert p[|a|..|a| + |dj|] == dj;
      DecimalInjective(i + 1, j + 1);
    }
  }

  /** After `n` saves, frame `i` is in "<i+1>.png": no later save overwrites an earlier frame. */
  lemma {:induction false} SavedFrames(files: map<string, File>, stem: string, frames: seq<Frame>, n: nat)
    requires n <= |frames|
    ensures forall i | 0 <= i < n ::
      FrameName(stem, i) in SaveFrames(files, stem, frames, n) &&
      SaveFrames(files, stem, frames, n)[FrameName(stem, i)] == Image([frames[i]])
    decreases n
  {
    if n > 0 {
      SavedFrames(files, stem, frames, n - 1);
      forall i | 0 <= i < n - 1 ensures FrameName(stem, i) != FrameName(stem, n - 1) {
        FrameNamesDistinct(stem, i, n - 1);
      }
    }
  }

  /** `write_frames` with a fresh directory: the directory appears and holds every frame, numbered from 1. */
  lemma WriteFramesFresh(d: Disk, frames: seq<Frame>, nameOriginal: string)
    requires !Exists(d, OutputDir(nameOriginal))
    ensures var r := WriteFramesSpec(d, frames, nameOriginal);
      && r.dirs == d.dirs + {OutputDir(nameOriginal)}
      && (forall i | 0 <= i < |frames| ::
            FrameName(Stem(nameOriginal), i) in r.files &&
            r.files[FrameName(Stem(nameOriginal), i)] == Image([frames[i]]))
      && (forall p :: p in r.files <==> p in d.files || exists i :: 0 <= i < |frames| && p == FrameName(Stem(nameOriginal), i))
  {
    SavedFrames(d.files, Stem(nameOriginal), frames, |frames|);
    SavedFramesKeys(d.files, Stem(nameOriginal), frames, |frames|);
  }

  /** Nothing in "assets/images/" past the root separator: no frame file is a glob match. */
  lemma FrameNotGlobMatch(stem: string, i: nat)
    ensures !IsGlobMatch(FrameName(stem, i))
  {
    var p := FrameName(stem, i);
    FrameUnder(stem, i);
    assert p[|ImagesDir| + |stem|] == '/';
  }

  /** A matching path is "assets/images/" + stem + ".gif", where the stem is a non-empty plain name. */
  lemma GlobStem(p: string)
    requires IsGlobMatch(p)
    ensures Stem(p) != [] && PlainName(Stem(p))
    ensures p == ImagesDir + Stem(p) + GifSuffix
  {
    var k := |ImagesDir|;
    assert p[k - 1] == '/';
    var slash := LastIndex(p, '/');
    assert slash == k - 1;
    var name := p[k..];
    assert FileName(p) == name;
    var m := |name| - |GifSuffix|;
    assert name[m..] == GifSuffix;
    assert name[m] == '.';
    assert forall j | m < j < |name| :: name[j] != '.';
    assert LastIndex(name, '.') == m;
    assert Stem(p) == name[..m];
    assert p == p[..k] + name[..m] + name[m..];
  }

  /** What one turn of the main loop leaves on disk: the GIF is gone, frame files may have appeared. */
  lemma SplitOneFiles(d: Disk, p: string)
    requires p in d.files
    ensures forall q | q in SplitOne(d, p).files :: q != p && (q in d.files || !IsGlobMatch(q))
    ensures forall q | q in d.files && q != p :: q in SplitOne(d, p).files
  {
    var frames := GetFrames(d, p);
    var w := WriteFramesSpec(d, frames, p);
    SavedFramesKeys(d.files, Stem(p), frames, |frames|);
    forall q | q in w.files && q !in d.files ensures !IsGlobMatch(q) {
      var i :| 0 <= i < |frames| && q == FrameName(Stem(p), i);
      FrameNotGlobMatch(Stem(p), i);
    }
  }

  lemma RestNoRepeats(ps: seq<string>)
    requires NoRepeats(ps) && ps != []
    ensures NoRepeats(ps[1..])
  {
    var rest := ps[1..];
    forall i, j | 0 <= i < j < |rest| ensures rest[i] != rest[j] {
      assert rest[i] == ps[i + 1] && rest[j] == ps[j + 1];
    }
  }

  lemma RestAllMatch(d: Disk, d': Disk, ps: seq<string>)
    requires NoRepeats(ps) && AllMatch(d, ps) && ps != []
    requires forall q | q in d.files && q != ps[0] :: q in d'.files
    ensures AllMatch(d', ps[1..])
  {
    var rest := ps[1..];
    forall i | 0 <= i < |rest| ensures rest[i] in d'.files && IsGlobMatch(rest[i]) {
      assert rest[i] == ps[i + 1];
    }
  }

  lemma RestAllListed(d: Disk, d': Disk, ps: seq<string>)
    requires AllListed(d, ps) && ps != []
    requires forall q | q in d'.files :: q != ps[0] && (q in d.files || !IsGlobMatch(q))
    ensures AllListed(d', ps[1..])
  {
    var rest := ps[1..];
    forall q | q in d'.files && IsGlobMatch(q) ensures q in rest {
      var j :| 0 <= j < |ps| && ps[j] == q;
      assert rest[j - 1] == q;
    }
  }

  /** After one turn the rest of the list is still made of matching files, each listed once. */
  lemma SplitOneKeepsGlob(d: Disk, ps: seq<string>)
    requires Splittable(d, ps) && ps != []
    ensures ps[0] in d.files
    ensures Splittable(SplitOne(d, ps[0]), ps[1..])
  {
    SplitOneFiles(d, ps[0]);
    RestNoRepeats(ps);
    RestAllMatch(d, SplitOne(d, ps[0]), ps);
  }

  /** One turn, seen from position `i` of the list: the rest can still be split, and it leads to the same end. */
  lemma TurnStep(d: Disk, listed: seq<string>, i: nat)
    requires i < |listed| && Splittable(d, listed[i..])
    ensures listed[i] in d.files
    ensures Splittable(SplitOne(d, listed[i]), listed[i + 1..])
    ensures SplitAllSpec(d, listed[i..]) == SplitAllSpec(SplitOne(d, listed[i]), listed[i + 1..])
  {
    var rest := listed[i..];
    assert rest[0] == listed[i] && rest[1..] == listed[i + 1..];
    SplitOneKeepsGlob(d, rest);
  }

  /** One turn keeps a listing of every matching file exact. */
  lemma SplitOneKeepsListing(d: Disk, ps: seq<string>)
    requires FileListing(d, ps) && ps != []
    ensures FileListing(SplitOne(d, ps[0]), ps[1..])
  {
    SplitOneKeepsGlob(d, ps);
    SplitOneFiles(d, ps[0]);
    RestAllListed(d, SplitOne(d, ps[0]), ps);
  }

  /** Every listed GIF is gone after its turn, whether or not its frames were written. */
  lemma {:induction false} SplitAllRemovesListed(d: Disk, ps: seq<string>)
    requires Splittable(d, ps)
    ensures forall i | 0 <= i < |ps| :: ps[i] !in SplitAllSpec(d, ps).files
    decreases |ps|
  {
    if ps != [] {
      SplitOneKeepsGlob(d, ps);
      SplitOneFiles(d, ps[0]);
      SplitAllRemovesListed(SplitOne(d, ps[0]), ps[1..]);
      forall i | 1 <= i < |ps| ensures ps[i] !in SplitAllSpec(d, ps).files {
        assert ps[i] == ps[1..][i - 1];
      }
      SplitAllKeepsAbsent(SplitOne(d, ps[0]), ps[1..], ps[0]);
    }
  }

  /** The turns never create a file that matches the glob. */
  lemma {:induction false} SplitAllKeepsAbsent(d: Disk, ps: seq<string>, p: string)
    requires Splittable(d, ps) && IsGlobMatch(p) && p !in d.files
    ensures p !in SplitAllSpec(d, ps).files
    decreases |ps|
  {
    if ps != [] {
      SplitOneKeepsGlob(d, ps);
      SplitOneFiles(d, ps[0]);
      SplitAllKeepsAbsent(SplitOne(d, ps[0]), ps[1..], p);
    }
  }

  /**
    When the list holds every matching file, no file matches the glob
    after the turns: every GIF is gone and no frame file matches.
   */
  lemma {:induction false} SplitAllLeavesNoGif(d: Disk, ps: seq<string>)
    requires FileListing(d, ps)
    ensures forall p | p in SplitAllSpec(d, ps).files :: !IsGlobMatch(p)
    decreases |ps|
  {
    if ps != [] {
      SplitOneKeepsListing(d, ps);
      SplitAllLeavesNoGif(SplitOne(d, ps[0]), ps[1..]);
    }
  }

  /** A name with no separator in it. */
  predicate PlainName(s: string)
  {
    forall j | 0 <= j < |s| :: s[j] != '/'
  }

  /** Within the first `|s|` characters of `t` there is no separator when `t` starts with the plain name `s`. */
  lemma NoSlashBefore(s: string, t: string, n: nat)
    requires PlainName(s) && |s| <= |t| && t[..|s|] == s
    ensures n < |s| ==> t[n] != '/'
  {
    if n < |s| {
      assert t[n] == t[..|s|][n];
    }
  }

  /** A frame file lies below one output directory only: that of its own stem. */
  lemma FrameUnderOnly(s1: string, s2: string, i: nat)
    requires PlainName(s1) && PlainName(s2)
    ensures Under(FrameName(s1, i), ImagesDir + s2) ==> s1 == s2
  {
    var p := FrameName(s1, i);
    var k := |ImagesDir|;
    if Under(p, ImagesDir + s2) {
      FrameUnder(s1, i);
      var t := p[k..];
      assert t[..|s1|] == s1 && t[|s1|] == '/';
      assert t[..|s2|] == s2 && t[|s2|] == '/';
      NoSlashBefore(s1, t, |s2|);
      NoSlashBefore(s2, t, |s1|);
      assert s1 == t[..|s1|] == s2;
    }
  }

  /** An output directory never has a frame file's name: past the images directory it holds no separator. */
  lemma DirNotFrame(sp: string, sq: string, i: nat)
    requires PlainName(sq)
    ensures ImagesDir + sq != FrameName(sp, i)
  {
    var k := |ImagesDir|;
    var dir := ImagesDir + sq;
    FrameUnder(sp, i);
    assert FrameName(sp, i)[k + |sp|] == '/';
    assert forall j | k <= j < |dir| :: dir[j] == sq[j - k];
  }

  /** No frame file and no other GIF's output directory is the output directory of `q`. */
  lemma OutputDirFresh(p: string, q: string, i: nat)
    requires IsGlobMatch(p) && IsGlobMatch(q) && p != q
    ensures OutputDir(q) != OutputDir(p)
    ensures OutputDir(q) != FrameName(Stem(p), i)
  {
    GlobStem(p);
    GlobStem(q);
    var k := |ImagesDir|;
    assert OutputDir(q)[k..] == Stem(q) && OutputDir(p)[k..] == Stem(p);
    DirNotFrame(Stem(p), Stem(q), i);
  }

  /** One turn keeps a file that is neither its GIF nor below its output directory, and keeps every directory. */
  lemma SplitOnePreserves(d: Disk, p: string, x: string)
    requires p in d.files && x in d.files && x != p && !Under(x, OutputDir(p))
    ensures x in SplitOne(d, p).files && SplitOne(d, p).files[x] == d.files[x]
    ensures d.dirs <= SplitOne(d, p).dirs
  {
    var frames := GetFrames(d, p);
    SavedFramesKeys(d.files, Stem(p), frames, |frames|);
  }

  /** One turn adds no directory or file named like another GIF's output directory. */
  lemma SplitOneKeepsAbsent(d: Disk, p: string, q: string)
    requires p in d.files && IsGlobMatch(p) && IsGlobMatch(q) && p != q
    requires !Exists(d, OutputDir(q))
    ensures !Exists(SplitOne(d, p), OutputDir(q))
  {
    var frames := GetFrames(d, p);
    SavedFramesKeys(d.files, Stem(p), frames, |frames|);
    forall i | 0 <= i < |frames| ensures OutputDir(q) != FrameName(Stem(p), i) {
      OutputDirFresh(p, q, i);
    }
    OutputDirFresh(p, q, 0);
  }

  /** The rest of the loop keeps a file that no remaining turn touches, and keeps every directory. */
  lemma {:induction false} SplitAllPreserves(d: Disk, ps: seq<string>, x: string)
    requires Splittable(d, ps)
    requires x in d.files && !IsGlobMatch(x)
    requires forall i | 0 <= i < |ps| :: !Under(x, OutputDir(ps[i]))
    ensures x in SplitAllSpec(d, ps).files && SplitAllSpec(d, ps).files[x] == d.files[x]
    decreases |ps|
  {
    if ps != [] {
      SplitOneKeepsGlob(d, ps);
      SplitOnePreserves(d, ps[0], x);
      forall i | 0 <= i < |ps| - 1 ensures !Under(x, OutputDir(ps[1..][i])) {
        assert ps[1..][i] == ps[i + 1];
      }
      SplitAllPreserves(SplitOne(d, ps[0]), ps[1..], x);
    }
  }

  /** Directories are only ever created. */
  lemma {:induction false} SplitAllKeepsDirs(d: Disk, ps: seq<string>)
    requires Splittable(d, ps)
    ensures d.dirs <= SplitAllSpec(d, ps).dirs
    decreases |ps|
  {
    if ps != [] {
      SplitOneKeepsGlob(d, ps);
      SplitAllKeepsDirs(SplitOne(d, ps[0]), ps[1..]);
    }
  }

  /** A frame file of the first GIF lies below the output directory of no later GIF. */
  lemma HeadFrameUnderNoOther(d: Disk, ps: seq<string>, i: nat)
    requires Splittable(d, ps) && ps != []
    ensures forall j | 0 <= j < |ps[1..]| :: !Under(FrameName(Stem(ps[0]), i), OutputDir(ps[1..][j]))
  {
    var p := ps[0];
    GlobStem(p);
    forall j | 0 <= j < |ps[1..]| ensures !Under(FrameName(Stem(p), i), OutputDir(ps[1..][j])) {
      var q := ps[1..][j];
      assert q == ps[j + 1] && q != p;
      GlobStem(q);
      FrameUnderOnly(Stem(p), Stem(q), i);
    }
  }

  /** `r` holds the output directory of `p` and, in it, frame `i` of `frames` as "<i+1>.png". */
  ghost predicate FramesWritten(r: Disk, p: string, frames: seq<Frame>)
  {
    && OutputDir(p) in r.dirs
    && forall i | 0 <= i < |frames| ::
         FrameName(Stem(p), i) in r.files && r.files[FrameName(Stem(p), i)] == Image([frames[i]])
  }

  /** The first turn writes its GIF's frames when the output path is new, and the rest of the loop keeps them. */
  lemma SplitHeadWrites(d: Disk, ps: seq<string>)
    requires Splittable(d, ps) && ps != []
    requires !Exists(d, OutputDir(ps[0]))
    ensures ps[0] in d.files
    ensures FramesWritten(SplitAllSpec(d, ps), ps[0], GetFrames(d, ps[0]))
  {
    SplitOneKeepsGlob(d, ps);
    var p := ps[0];
    var d1 := SplitOne(d, p);
    var rest := ps[1..];
    var frames := GetFrames(d, p);
    var stem := Stem(p);
    assert SplitAllSpec(d, ps) == SplitAllSpec(d1, rest);
    WriteFramesFresh(d, frames, p);
    SplitAllKeepsDirs(d1, rest);
    forall i | 0 <= i < |frames|
      ensures FrameName(stem, i) in SplitAllSpec(d1, rest).files
      ensures SplitAllSpec(d1, rest).files[FrameName(stem, i)] == Image([frames[i]])
    {
      FrameNotGlobMatch(stem, i);
      HeadFrameUnderNoOther(d, ps, i);
      SplitAllPreserves(d1, rest, FrameName(stem, i));
    }
  }

  /** A later GIF whose output path is new is still there, unchanged, with its output path still new after the first turn. */
  lemma SplitStepKeepsTarget(d: Disk, ps: seq<string>, n: nat)
    requires Splittable(d, ps) && 0 < n < |ps|
    requires !Exists(d, OutputDir(ps[n]))
    ensures ps[0] in d.files && ps[n] in d.files
    ensures Splittable(SplitOne(d, ps[0]), ps[1..])
    ensures ps[1..][n - 1] == ps[n]
    ensures !Exists(SplitOne(d, ps[0]), OutputDir(ps[n]))
    ensures ps[n] in SplitOne(d, ps[0]).files && GetFrames(SplitOne(d, ps[0]), ps[n]) == GetFrames(d, ps[n])
  {
    SplitOneKeepsGlob(d, ps);
    var p, q := ps[0], ps[n];
    assert q != p;
    SplitOneKeepsAbsent(d, p, q);
    GlobStem(q);
    SplitOnePreserves(d, p, q);
  }

  /**
    The main loop writes every frame of a GIF whose output directory did
    not exist when the script started: the directory is there at the end
    and "<i+1>.png" in it holds frame `i`, whatever the glob's order.
   */
  lemma {:induction false} SplitAllWrites(d: Disk, ps: seq<string>, n: nat)
    requires Splittable(d, ps) && n < |ps|
    requires !Exists(d, OutputDir(ps[n]))
    ensures ps[n] in d.files
    ensures FramesWritten(SplitAllSpec(d, ps), ps[n], GetFrames(d, ps[n]))
    decreases |ps|
  {
    if n == 0 {
      SplitHeadWrites(d, ps);
    } else {
      assert FramesWritten(SplitAllSpec(d, ps), ps[n], GetFrames(d, ps[n])) by {
        SplitStepKeepsTarget(d, ps, n);
        SplitAllWrites(SplitOne(d, ps[0]), ps[1..], n - 1);
        WritesCarry(d, ps, n);
      }
    }
  }

  /** Frames the rest of the loop writes for a later GIF are frames the whole loop writes for it. */
  lemma WritesCarry(d: Disk, ps: seq<string>, n: nat)
    requires Splittable(d, ps) && 0 < n < |ps|
    requires ps[n] in d.files
    requires Splittable(SplitOne(d, ps[0]), ps[1..]) && ps[1..][n - 1] in SplitOne(d, ps[0]).files
    requires GetFrames(SplitOne(d, ps[0]), ps[n]) == GetFrames(d, ps[n])
    requires FramesWritten(SplitAllSpec(SplitOne(d, ps[0]), ps[1..]), ps[1..][n - 1], GetFrames(SplitOne(d, ps[0]), ps[1..][n - 1]))
    ensures FramesWritten(SplitAllSpec(d, ps), ps[n], GetFrames(d, ps[n]))
  {
    assert ps[1..][n - 1] == ps[n];
    assert SplitAllSpec(d, ps) == SplitAllSpec(SplitOne(d, ps[0]), ps[1..]);
  }

  // ---------------------------------------------------------------------
  // The whole run, directories in the listing included.

  /** A listed path that is not a file stops the run at once, before anything on disk changes. */
  lemma ListedDirRaises(d: Disk, ps: seq<string>)
    requires GlobResult(d, ps) && ps != [] && ps[0] !in d.files
    ensures ps[0] in d.dirs
    ensures SplitRun(d, ps) == (d, Raised(ps[0]))
  {
    assert ps[..0] == [];
  }

  /**
    The run writes every frame of a GIF listed before the first listed
    directory whose output path did not exist when the script started.
   */
  lemma SplitRunWrites(d: Disk, ps: seq<string>, j: nat)
    requires GlobResult(d, ps) && j < Turns(d, ps)
    requires !Exists(d, OutputDir(ps[j]))
    ensures ps[j] in d.files
    ensures FramesWritten(SplitRun(d, ps).0, ps[j], GetFrames(d, ps[j]))
  {
    var pre := ps[..Turns(d, ps)];
    PrefixSplittable(d, ps);
    assert pre[j] == ps[j];
    SplitAllWrites(d, pre, j);
  }

  /** Every GIF whose turn ran is deleted. */
  lemma SplitRunRemoves(d: Disk, ps: seq<string>)
    requires GlobResult(d, ps)
    ensures forall i | 0 <= i < Turns(d, ps) :: ps[i] !in SplitRun(d, ps).0.files
  {
    var pre := ps[..Turns(d, ps)];
    PrefixSplittable(d, ps);
    SplitAllRemovesListed(d, pre);
    assert forall i | 0 <= i < |pre| :: pre[i] == ps[i];
  }

  /** A run that lists no directory finishes with no file left that matches the glob. */
  lemma SplitRunLeavesNoGif(d: Disk, ps: seq<string>)
    requires GlobResult(d, ps) && SplitRun(d, ps).1 == Finished
    ensures forall p | p in SplitRun(d, ps).0.files :: !IsGlobMatch(p)
  {
    assert Turns(d, ps) == |ps|;
    assert ps[..|ps|] == ps;
    assert FileListing(d, ps);
    SplitAllLeavesNoGif(d, ps);
  }

  /** The converse of `GlobStem`: "assets/images/" + `s` + ".gif" matches exactly when `s` is a non-empty plain name not starting with a dot. */
  lemma GlobOfStem(s: string)
    ensures IsGlobMatch(ImagesDir + s + GifSuffix) <==> s != [] && s[0] != '.' && PlainName(s)
  {
    GlobOfStemOnlyIf(s);
    GlobOfStemIf(s);
  }

  lemma GlobOfStemOnlyIf(s: string)
    ensures IsGlobMatch(ImagesDir + s + GifSuffix) ==> s != [] && s[0] != '.' && PlainName(s)
  {
    var p := ImagesDir + s + GifSuffix;
    var k := |ImagesDir|;
    if IsGlobMatch(p) {
      forall j | 0 <= j < |s| ensures s[j] != '/' {
        assert s[j] == p[k + j];
      }
      assert s[0] == p[k];
    }
  }

  lemma GlobOfStemIf(s: string)
    ensures s != [] && s[0] != '.' && PlainName(s) ==> IsGlobMatch(ImagesDir + s + GifSuffix)
  {
    var p := ImagesDir + s + GifSuffix;
    var k := |ImagesDir|;
    if s != [] && s[0] != '.' && PlainName(s) {
      assert p[..k] == ImagesDir;
      assert p[|p| - |GifSuffix|..] == GifSuffix;
      assert p[k] == s[0];
      forall j | k <= j < |p| ensures p[j] != '/' {
        if j < k + |s| {
          assert p[j] == s[j - k];
        } else {
          assert p[j] == GifSuffix[j - k - |s|];
        }
      }
    }
  }

  /** A match's output directory is its path without the ".gif". */
  lemma GlobMatchOutputDir(p: string)
    requires IsGlobMatch(p)
    ensures OutputDir(p) == p[..|p| - |GifSuffix|]
  {
    GlobStem(p);
  }

  /**
    The script can make a directory the glob matches: "foo.gif.gif" is
    split into "assets/images/foo.gif", so a later run lists that directory
    and stops on it.
   */
  lemma DoubleSuffixOutputDir()
    ensures IsGlobMatch("assets/images/foo.gif.gif")
    ensures OutputDir("assets/images/foo.gif.gif") == "assets/images/foo.gif"
    ensures IsGlobMatch("assets/images/foo.gif")
  {
    var p, q := "assets/images/foo.gif.gif", "assets/images/foo.gif";
    GlobOfStem("foo.gif");
    GlobOfStem("foo");
    assert ImagesDir + "foo.gif" + GifSuffix == p;
    assert ImagesDir + "foo" + GifSuffix == q;
    GlobMatchOutputDir(p);
    assert p[..|p| - |GifSuffix|] == q;
  }
}
