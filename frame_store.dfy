/**
  The frame store of src/gif.rs: `get_folder` lists a directory, `Gif::new`
  turns the two-level listing under "assets/images/" into a map from
  sequence key to the ordered asset paths of its frames, and `Gif::get`
  looks one frame up by (key, index).
 */
module FrameStore {

  /** A frame handle is the asset path that was passed to the asset server. */
  type Handle = string

  /**
    What `read_dir` can see. Every readable directory maps to the names of
    its entries, in enumeration order; any other path (missing, a plain
    file, not permitted) cannot be read.
   */
  datatype FileSystem = FileSystem(dirs: map<string, seq<string>>)

  /** The two ways `Gif::get` panics. */
  datatype LookupError =
    | MissingKey       // `expect` on the absent key
    | FrameOutOfRange  // the index operation on the frame vector

  datatype Result<T> = Ok(value: T) | Err(error: LookupError)

  /** The asset root that `Gif::new` lists. */
  const Root: string := "assets/images/"
  /** Characters `Gif::new` drops from a root entry to get its key. */
  const KeyPrefix: nat := 14
  /** Characters `Gif::new` drops from a frame path to get its asset path. */
  const HandlePrefix: nat := 7

  /**
    The path of entry `name` inside `dir`, as `DirEntry::path` builds it: a
    separator is put in only when `dir` is non-empty and does not already
    end in one.
   */
  function Join(dir: string, name: string): (p: string)
    ensures |p| >= |dir| && p[..|dir|] == dir
  {
    if dir == [] || dir[|dir| - 1] == '/' then dir + name else dir + "/" + name
  }

  /** Reference definition of `get_folder`: one joined path per entry, or nothing. */
  function Listing(fs: FileSystem, path: string): (entries: seq<string>)
    ensures forall i | 0 <= i < |entries| :: |entries[i]| >= |path| && entries[i][..|path|] == path
  {
    if path in fs.dirs then
      var names := fs.dirs[path];
      seq(|names|, i requires 0 <= i < |names| => Join(path, names[i]))
    else []
  }

  /** `get_folder`: the paths of the entries of `targetPath`, in enumeration order. */
  method GetFolder(fs: FileSystem, targetPath: string) returns (folder: seq<string>)
    ensures targetPath !in fs.dirs ==> folder == []
    ensures targetPath in fs.dirs ==>
      |folder| == |fs.dirs[targetPath]| &&
      forall i | 0 <= i < |folder| :: folder[i] == Join(targetPath, fs.dirs[targetPath][i])
    ensures folder == Listing(fs, targetPath)
  {
    folder := [];
    if targetPath in fs.dirs {
      var entries := fs.dirs[targetPath];
      for i := 0 to |entries|
        invariant |folder| == i
        invariant forall j | 0 <= j < i :: folder[j] == Join(targetPath, entries[j])
      {
        folder := folder + [Join(targetPath, entries[i])];
      }
    }
  }

  /** The key `Gif::new` derives from a root entry: `entry[14..]`. */
  function Key(entry: string): string
    requires |entry| >= KeyPrefix
  {
    entry[KeyPrefix..]
  }

  /** The asset path `Gif::new` loads for a frame file: `img_path[7..]`. */
  function HandleOf(imgPath: string): Handle
    requires |imgPath| >= HandlePrefix
  {
    imgPath[HandlePrefix..]
  }

  /** The handles `Gif::new` collects for one root entry. */
  function Frames(fs: FileSystem, entry: string): seq<Handle>
    requires |entry| >= HandlePrefix
  {
    var paths := Listing(fs, entry);
    seq(|paths|, i requires 0 <= i < |paths| => HandleOf(paths[i]))
  }

  /** Every entry is long enough to have its key prefix dropped. */
  ghost predicate KeyedEntries(entries: seq<string>)
  {
    forall i | 0 <= i < |entries| :: |entries[i]| >= KeyPrefix
  }

  /** The map after inserting the root entries in order; a later insert replaces an earlier one. */
  function Insertions(fs: FileSystem, entries: seq<string>): map<string, seq<Handle>>
    requires KeyedEntries(entries)
    decreases |entries|
  {
    if entries == [] then map[]
    else
      var last := entries[|entries| - 1];
      Insertions(fs, entries[..|entries| - 1])[Key(last) := Frames(fs, last)]
  }

  /** Reference definition of the map `Gif::new` builds. */
  function Build(fs: FileSystem): map<string, seq<Handle>>
  {
    Insertions(fs, Listing(fs, Root))
  }

  /** The frame store resource. */
  datatype Gif = Gif(frames: map<string, seq<Handle>>)
  {
    /** `Gif::get`: the frame at `frame` of the sequence under `key`; no clamping, no wraparound. */
    function Get(key: string, frame: nat): (r: Result<Handle>)
      ensures r.Ok? <==> key in frames && frame < |frames[key]|
      ensures r.Ok? ==> r.value == frames[key][frame]
      ensures key !in frames ==> r == Err(MissingKey)
      ensures key in frames && frame >= |frames[key]| ==> r == Err(FrameOutOfRange)
    {
      if key !in frames then Err(MissingKey)
      else if frame < |frames[key]| then Ok(frames[key][frame])
      else Err(FrameOutOfRange)
    }
  }

  /** `Gif::new`: one key per root entry, holding the handles of that entry's files. */
  method NewGif(fs: FileSystem) returns (g: Gif)
    ensures g.frames == Build(fs)
    ensures forall k :: k in g.frames <==> Root in fs.dirs && k in fs.dirs[Root]
  {
    var map_: map<string, seq<Handle>> := map[];
    var folder := GetFolder(fs, Root);
    for idx := 0 to |folder|
      invariant map_ == Insertions(fs, folder[..idx])
    {
      var entry := folder[idx];
      var images: seq<Handle> := [];
      var imgPaths := GetFolder(fs, entry);
      for j := 0 to |imgPaths|
        invariant images == Frames(fs, entry)[..j]
      {
        assert Frames(fs, entry)[..j + 1] == Frames(fs, entry)[..j] + [HandleOf(imgPaths[j])];
        images := images + [HandleOf(imgPaths[j])];
      }
      assert images == Frames(fs, entry);
      assert folder[..idx + 1][..idx] == folder[..idx];
      map_ := map_[Key(entry) := images];
    }
    assert folder[..|folder|] == folder;
    g := Gif(map_);
    BuildKeys(fs);
  }

  /** Dropping the 14-character root from a root entry gives back the entry's name. */
  lemma KeyOfRootEntry(name: string)
    ensures Join(Root, name) == Root + name
    ensures Key(Join(Root, name)) == name
  {
  }

  /** The keys of the map are exactly the keys of the entries inserted. */
  lemma {:induction false} InsertionsKeys(fs: FileSystem, entries: seq<string>)
    requires KeyedEntries(entries)
    ensures forall k :: k in Insertions(fs, entries) <==> exists i :: 0 <= i < |entries| && Key(entries[i]) == k
    decreases |entries|
  {
    if entries != [] {
      var init := entries[..|entries| - 1];
      InsertionsKeys(fs, init);
      forall k ensures k in Insertions(fs, entries) <==> exists i :: 0 <= i < |entries| && Key(entries[i]) == k {
        if k in Insertions(fs, init) {
          var i :| 0 <= i < |init| && Key(init[i]) == k;
          assert entries[i] == init[i];
        }
        if exists i :: 0 <= i < |entries| && Key(entries[i]) == k {
          var i :| 0 <= i < |entries| && Key(entries[i]) == k;
          if i < |init| {
            assert init[i] == entries[i];
          }
        }
      }
    }
  }

  /**
    The sequence stored under a key is that of the LAST entry with that
    key: `HashMap::insert` replaces what an earlier entry put there.
   */
  lemma {:induction false} InsertionsLast(fs: FileSystem, entries: seq<string>, i: nat)
    requires KeyedEntries(entries)
    requires i < |entries|
    requires forall j | i < j < |entries| :: Key(entries[j]) != Key(entries[i])
    ensures Key(entries[i]) in Insertions(fs, entries)
    ensures Insertions(fs, entries)[Key(entries[i])] == Frames(fs, entries[i])
    decreases |entries|
  {
    var init := entries[..|entries| - 1];
    if i < |entries| - 1 {
      assert Key(entries[|entries| - 1]) != Key(entries[i]);
      assert init[i] == entries[i];
      InsertionsLast(fs, init, i);
    }
  }

  /** `Gif::new`'s key set is the set of names directly under the root, files included. */
  lemma BuildKeys(fs: FileSystem)
    ensures forall k :: k in Build(fs) <==> Root in fs.dirs && k in fs.dirs[Root]
  {
    var entries := Listing(fs, Root);
    InsertionsKeys(fs, entries);
    forall k ensures k in Build(fs) <==> Root in fs.dirs && k in fs.dirs[Root] {
      if k in Build(fs) {
        var i :| 0 <= i < |entries| && Key(entries[i]) == k;
        KeyOfRootEntry(fs.dirs[Root][i]);
      }
      if Root in fs.dirs && k in fs.dirs[Root] {
        var i :| 0 <= i < |fs.dirs[Root]| && fs.dirs[Root][i] == k;
        KeyOfRootEntry(k);
        assert Key(entries[i]) == k;
      }
    }
  }

  /**
    The sequence under the name at position `i` of the root listing, when no
    later root entry has the same name: one handle per entry of that
    directory, in enumeration order, each the entry's path without its
    first seven characters; an entry that cannot be listed (a plain file,
    say) still gets its key, with no frames.
   */
  lemma BuildEntry(fs: FileSystem, i: nat)
    requires Root in fs.dirs && i < |fs.dirs[Root]|
    requires forall j | i < j < |fs.dirs[Root]| :: fs.dirs[Root][j] != fs.dirs[Root][i]
    ensures var name := fs.dirs[Root][i];
      var dir := Root + name;
      && name in Build(fs)
      && (dir !in fs.dirs ==> Build(fs)[name] == [])
      && (dir in fs.dirs ==>
            |Build(fs)[name]| == |fs.dirs[dir]| &&
            forall f | 0 <= f < |fs.dirs[dir]| :: Build(fs)[name][f] == HandleOf(Join(dir, fs.dirs[dir][f])))
  {
    var names := fs.dirs[Root];
    var entries := Listing(fs, Root);
    forall j | i < j < |entries| ensures Key(entries[j]) != Key(entries[i]) {
      KeyOfRootEntry(names[j]);
      KeyOfRootEntry(names[i]);
    }
    InsertionsLast(fs, entries, i);
    KeyOfRootEntry(names[i]);
  }

  /** The scenario of a root holding `load` (three files) and `idle` (one file). */
  lemma LoadIdleScenario()
    ensures var fs := FileSystem(map[
                Root := ["load", "idle"],
                "assets/images/load" := ["a.png", "b.png", "c.png"],
                "assets/images/idle" := ["x.png"]]);
      var g := Gif(Build(fs));
      && g.frames.Keys == {"load", "idle"}
      && |g.frames["load"]| == 3 && |g.frames["idle"]| == 1
      && g.Get("load", 2) == Ok("images/load/c.png")
      && g.Get("load", 3) == Err(FrameOutOfRange)
      && g.Get("other", 0) == Err(MissingKey)
  {
    var fs := FileSystem(map[
                Root := ["load", "idle"],
                "assets/images/load" := ["a.png", "b.png", "c.png"],
                "assets/images/idle" := ["x.png"]]);
    var load := "assets/images/load";
    assert Root + "load" == load && Root + "idle" == "assets/images/idle";
    BuildKeys(fs);
    BuildEntry(fs, 0);
    BuildEntry(fs, 1);
    assert Build(fs).Keys == {"load", "idle"};
    ThirdLoadFrame();
  }

  /** Dropping the 7-character "assets/" from a path gives the path the asset server loads from its own root. */
  lemma HandleOfAssetPath(rest: string)
    ensures HandleOf("assets/" + rest) == rest
  {
  }

  /** The path and handle of the third file of `load` in that scenario. */
  lemma ThirdLoadFrame()
    ensures Join("assets/images/load", "c.png") == "assets/images/load/c.png"
    ensures HandleOf("assets/images/load/c.png") == "images/load/c.png"
  {
  }
}
