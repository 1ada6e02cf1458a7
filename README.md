# Frame store and GIF splitter of a Bevy game, in Dafny

This project models two pieces of the game's animated-image support:

- **src/gif.rs.** At startup `Gif::new` lists `assets/images/`. It turns
  each entry into a sequence key and each file inside the entry into one
  frame handle. `Gif::get` looks a frame up by (key, index) and panics on a
  missing key or an index past the end. A `GifResource` owns a repeating
  timer. `event_trigger` ticks that timer by the frame's delta and sends one
  default event on each pass in which the tick finishes it. `gif_load` reads those events. For every event, it sets
  the texture of every image entity carrying the marker component to frame
  `Gif::get("load", i)`, with `i` drawn by `gen_range(0..10)`.
- **gif.py** is an offline script. For every path its glob of GIF names in
  `assets/images/` returns, it writes frame `i` to
  `assets/images/<stem>/<i+1>.png`, but only when `assets/images/<stem>`
  does not already exist. It then deletes the GIF. The glob also returns
  directories whose names match, and opening one raises, which ends the
  script at that path.

The modules follow the source:

- `FrameStore`: `get_folder`, `Gif::new`, `Gif::get`.
- `Trigger`: `GifResource` and `event_trigger`.
- `Animation`: `gif_load`.
- `Splitter`: gif.py.
- `Layout`: how the paths the script writes meet the 14- and 7-character
  slicing done by `Gif::new`.

The code sorts nothing, so a directory's enumeration order is part of the
input. The filesystem `read_dir` sees is a map from each readable directory
to its entry names, in enumeration order. The script's filesystem is a
`Workspace` object: its directory set and file map are updated in place by
`WriteFrames`, `Remove`, `SplitTurn` and `SplitGifs`. Each of those is
proved equal to a reference function on `Disk` values.

Behaviour of the code worth knowing:

- If the root cannot be read, `Gif::new` builds an empty store; it does not
  report an error.
- A plain file directly under the root still gets a key, holding no frames.
- Nothing guarantees that a sequence is non-empty.
- `gif_load` draws a separate frame index for each tagged entity; it does
  not broadcast one frame to all of them (see `TaggedNeedNotAgree`). The
  range is fixed at `0..10`.
- `Gif::_sort` is empty, so frames keep the directory's enumeration order.
- `GifPlugin::build` registers `event_trigger` only. `gif_load` is never
  scheduled by the plugin itself.
- The script can create a directory its own glob matches: splitting
  `foo.gif.gif` creates `assets/images/foo.gif` (see
  `DoubleSuffixOutputDir`). A later run lists that directory and stops on
  it (see `ListedDirRaises`).

## Model

| member | source | states |
|---|---|---|
| FrameStore.Join | src/gif.rs:93 | An entry's path starts with its directory's path, with a separator added only when the directory is non-empty and does not end in one. |
| FrameStore.Listing | src/gif.rs:88-99 | Every listed path extends the listed directory's path. This is why `entry[14..]` and `img_path[7..]` never go out of bounds. |
| FrameStore.GetFolder | src/gif.rs:88-99 | An unreadable path gives an empty list. A readable one gives one joined path per entry, in enumeration order. |
| FrameStore.Gif.Get | src/gif.rs:60-62 | Succeeds exactly when the key is present and the index is below its sequence's length, returning that frame. Otherwise it is `MissingKey` or `FrameOutOfRange`; it never clamps or wraps. |
| FrameStore.NewGif | src/gif.rs:41-58 | The nested loops build `Build(fs)`. Its keys are exactly the names directly under `assets/images/`. |
| FrameStore.InsertionsKeys | src/gif.rs:46-55 | The map's keys are exactly the keys (`entry[14..]`) of the inserted entries. |
| FrameStore.InsertionsLast | src/gif.rs:54 | `HashMap::insert` overwrites, so a key holds the frames of the last entry with that key. |
| FrameStore.KeyOfRootEntry | src/gif.rs:54 | `Key`, which is `entry[14..]`: dropping the 14-character root from a root entry's path gives back the entry's name. |
| FrameStore.HandleOfAssetPath | src/gif.rs:50 | `HandleOf`, which is `img_path[7..]`: dropping the 7 characters of `assets/` gives the path below the asset root. |
| FrameStore.BuildKeys | src/gif.rs:44-55 | A key is in the store iff it is the name of an entry of the root, files included. |
| FrameStore.BuildEntry | src/gif.rs:46-55 | A root entry that cannot be listed gets an empty sequence. Otherwise it gets one handle per entry, in enumeration order, each the entry's path minus its first 7 characters. |
| FrameStore.LoadIdleScenario | src/gif.rs:41-62 | With `load` holding 3 files and `idle` holding 1: the keys are `{load, idle}`, `get("load", 2)` gives `images/load/c.png`, `get("load", 3)` is out of range, and `get("other", 0)` is a missing key. |
| Trigger.Timer.Tick | src/gif.rs:72 | The engine's repeating-timer tick. It finishes exactly when the elapsed time plus the delta reaches the period. A tick that does not finish only adds the delta. A finished tick removes a whole number of periods and leaves less than one period elapsed. A zero period finishes on every tick. |
| Trigger.NewTimer | src/gif.rs:30 | `Timer::from_seconds` starts with nothing elapsed and not finished. |
| Trigger.TickWholePeriod | src/gif.rs:72 | A tick of exactly one period always finishes and leaves the elapsed time where it was. |
| Trigger.TicksBelowPeriod | src/gif.rs:72 | Two ticks that together stay short of the period do not finish, and their deltas add up. |
| Trigger.GifResource.constructor | src/gif.rs:27-34 | The timer is a fresh repeating timer with the given period; key and frame are stored unchanged. |
| Trigger.Events.SendDefault | src/gif.rs:73 | Appends exactly one default event. |
| Trigger.EventTrigger | src/gif.rs:67-75 | A pass ticks the resource's timer by the delta. It adds one event if that tick finished the timer and none otherwise. |
| Trigger.EmittedPerPass | src/gif.rs:72-74 | Over any run of passes, the number of events is the number of finished passes, at most one per pass. It equals the pass count iff every pass finished, and is zero iff none did. |
| Trigger.EmittedCount | src/gif.rs:72-74 | The number of events sent is the number of passes on which the timer finished, and never more than the number of passes. |
| Trigger.EmittedAppend | src/gif.rs:67-75 | Each pass appends its events after those of the earlier passes. |
| Animation.TaggedRank | src/gif.rs:82 | Counting tagged entities in query order: counting the entity at position `j` adds one exactly when it is tagged, and no prefix counts more than the whole query. (`Retexture` and `RetextureAt` state which draw each entity gets.) |
| Animation.RetextureAt | src/gif.rs:82-84 | After one pass, a tagged entity shows the "load" frame its own draw names. An untagged entity keeps its texture. |
| Animation.RetextureOverwrites | src/gif.rs:81-85 | A pass's result does not depend on what the tagged entities showed before it. |
| Animation.PassStuck | src/gif.rs:83 | When a tagged entity's draw is not a frame of "load", the pass as a whole cannot resolve, which is why the inner loop may stop there. |
| Animation.PassDone | src/gif.rs:82-84 | A pass that reaches the last entity has resolved every draw, and its textures are exactly `Retexture`. |
| Animation.LoadPass | src/gif.rs:82-84 | The inner loop panics exactly when one of its draws is not a frame of "load". The panic is a missing key if "load" is absent and an out-of-range index otherwise. Without a panic, the textures are one `Retexture` pass. Untagged entities never change. |
| Animation.GifLoad | src/gif.rs:76-86 | It passes iff every draw used over all events resolves, with the error kind as in `LoadPass`. A passing run leaves the textures of `AfterEvents`. No events means no change. Untagged entities never change. |
| Animation.LoadResolves | src/gif.rs:83 | With at least ten frames under "load", every `gen_range(0..10)` draw resolves. |
| Animation.RetextureFrames | src/gif.rs:82-84 | With at least ten "load" frames, one pass never panics. Every tagged entity then shows one of the first ten frames, and untagged ones keep theirs. |
| Animation.LoadFromFirstTen | src/gif.rs:81-85 | With at least ten "load" frames, `gif_load` never panics for any number of events. After at least one event, every tagged entity shows one of the first ten frames. |
| Animation.TaggedNeedNotAgree | src/gif.rs:82-83 | Two tagged entities can end up showing different frames after one event, so the update is not a broadcast. |
| Splitter.Decimal | gif.py:34 | `str(n)` has at least one digit, and exactly one iff `n < 10`. |
| Splitter.DecimalInjective | gif.py:34 | Different numbers have different decimal spellings. |
| Splitter.LastIndex | gif.py:19-22 | `rfind`: the position holds the character and none follows it; it is -1 when the character is absent. |
| Splitter.FileNameIsLast | gif.py:19-22 | `FileName` (`PurePath.name`) is the end of the path after its last separator and holds no separator. |
| Splitter.StemIsPrefix | gif.py:19-22 | `Stem` (`PurePath.stem`) is a prefix of the name, so it holds no separator either. |
| Splitter.StemDropsSuffix | gif.py:19-22 | A stem shorter than the name lacks exactly the last suffix: a dot that is neither the name's first nor its last character, with no dot after it. |
| Splitter.OutputDirInImages | gif.py:25 | `OutputDir` is an entry directly inside `assets/images/`. |
| Splitter.Workspace.WriteFrames | gif.py:17-37 | `write_frames` changes the disk exactly as `WriteFramesSpec` does. It does nothing when the output path exists; otherwise it creates the directory and saves the frames in order. |
| Splitter.Workspace.Remove | gif.py:45 | `os.remove` deletes exactly that file. |
| Splitter.Workspace.SplitTurn | gif.py:42-45 | One turn of the main loop changes the disk exactly as `SplitOne` does. |
| Splitter.Workspace.SplitGifs | gif.py:40-45 | The main loop changes the disk and ends exactly as `SplitRun` says. The turns run in glob order up to the first listed path that is not a file, where it raises. |
| Splitter.Turns | gif.py:41-42 | The number of turns that run: every listed path before it is a file, and the path it stops at is not. |
| Splitter.PrefixSplittable | gif.py:8 | The listed paths before the first directory are matching files, each listed once. |
| Splitter.SplitRun | gif.py:40-45 | The run finishes iff every listed path is a file. Otherwise it raises on a listed directory. |
| Splitter.ListedDirRaises | gif.py:11-13 | When the first listed path is a directory, `Image.open` raises before anything on disk changes. |
| Splitter.SplitRunWrites | gif.py:40-45 | Take a GIF listed before the first directory whose output path did not exist at the start. After the run its directory exists and `<i+1>.png` in it holds frame `i`. |
| Splitter.SplitRunRemoves | gif.py:45 | Every GIF whose turn ran is deleted. |
| Splitter.SplitRunLeavesNoGif | gif.py:40-45 | A run that finishes leaves no file that matches the glob. |
| Splitter.SavedFramesKeys | gif.py:33-35 | Saving adds exactly the frame files and leaves every file outside the output directory as it was. |
| Splitter.SavedFrames | gif.py:33-35 | Frame `i` ends up in `<i+1>.png`; no later save overwrites an earlier one. |
| Splitter.FrameUnder | gif.py:34 | `FrameName`: every frame file lies directly below `assets/images/<stem>`. |
| Splitter.FrameNamesDistinct | gif.py:33-35 | Different frame positions go to different files. |
| Splitter.WriteKeepsFiles | gif.py:28-35 | `write_frames` never deletes a file. |
| Splitter.WriteFramesFresh | gif.py:28-35 | When the output path is new, that directory is added and holds every frame, numbered from 1. Only those files are added. |
| Splitter.FrameNotGlobMatch | gif.py:8 | No frame file matches the script's glob (`IsGlobMatch`), so a frame file is never split again. |
| Splitter.GlobStem | gif.py:19-25 | A glob match is `assets/images/` + stem + `.gif`, where the stem is non-empty and contains no separator. |
| Splitter.GlobOfStem | gif.py:8 | The converse: `assets/images/` + `s` + `.gif` matches exactly when `s` is non-empty, has no separator and does not start with a dot. |
| Splitter.GlobMatchOutputDir | gif.py:25 | A match's output directory is its path without the `.gif`. |
| Splitter.DoubleSuffixOutputDir | gif.py:8-25 | `foo.gif.gif` matches, and its output directory `assets/images/foo.gif` matches too. |
| Splitter.FrameUnderOnly | gif.py:25-34 | A frame file lies below the output directory of its own stem only. |
| Splitter.DirNotFrame | gif.py:25-34 | An output directory is never named like a frame file. |
| Splitter.OutputDirFresh | gif.py:25-34 | Two different GIFs have different output directories, and neither's directory is named like the other's frame files. |
| Splitter.SplitOneDirs | gif.py:41-45 | `SplitOne`: one turn deletes its GIF and creates at most one directory, the GIF's output directory. |
| Splitter.SplitOneFiles | gif.py:41-45 | After one turn the GIF is gone and every other file is kept. Any new file is not a glob match. |
| Splitter.SplitOneKeepsGlob | gif.py:41-45 | After one turn, the rest of the list is still made of matching files, each listed once. |
| Splitter.TurnStep | gif.py:41-45 | One turn at a position of the list keeps the rest splittable and leads to the same end state. |
| Splitter.SplitOneKeepsListing | gif.py:41-45 | When the list holds every matching file, after one turn the rest still holds every matching file. |
| Splitter.SplitOnePreserves | gif.py:41-45 | A turn keeps every directory, and every file that is neither its GIF nor below its output directory. |
| Splitter.SplitOneKeepsAbsent | gif.py:41-45 | A turn creates nothing at another GIF's output path. |
| Splitter.SplitAllPreserves | gif.py:40-45 | The loop keeps a non-GIF file that lies below no listed GIF's output directory. |
| Splitter.SplitAllKeepsDirs | gif.py:28-29 | Directories are only ever created. |
| Splitter.SplitHeadWrites | gif.py:41-45 | When the first GIF's output path is new, its frames are written and survive the rest of the loop. |
| Splitter.SplitStepKeepsTarget | gif.py:41-45 | After the first turn, a later GIF is still on disk with the same frames, and its output path is still new. |
| Splitter.SplitAllRemovesListed | gif.py:45 | After the turns, every GIF they split is deleted. |
| Splitter.SplitAllKeepsAbsent | gif.py:33-35 | The turns never create a file that matches the glob. |
| Splitter.SplitAllLeavesNoGif | gif.py:40-45 | When the list holds every matching file, no file matches the glob after the turns. |
| Splitter.SplitAllWrites | gif.py:40-45 | Take any listed GIF whose output path did not exist at the start. After the turns, in any list order, its directory exists and `<i+1>.png` in it holds frame `i`. |
| Splitter.WritesCarry | gif.py:41-45 | Frames the later turns write for a GIF are frames all the turns write for it. |
| Layout.OutputDirKey | src/gif.rs:54 | The directory the script writes a GIF's frames to is the root entry the store keys under that GIF's stem. |
| Layout.FrameHandle | src/gif.rs:50 | Listing an output directory gives back the frame file's path. Its asset path after `[7..]` is `images/<stem>/<n>.png`. |
| Layout.StoreReadsSplitOutput | src/gif.rs:44-55 | Suppose a directory enumerates the split frames in frame order. Then the store holds one frame per file under the stem, and frame `k` is `images/<stem>/<k+1>.png`. |

## Left out

- `asset_server.load`: a frame handle is the asset path it was loaded from. Asset loading and decoding are not modelled.
- `dir_entry.unwrap()` and `to_string_lossy`: per-entry read errors and non-UTF-8 names are left out. Names are strings.
- Paths are exact strings on a case-sensitive filesystem with `/` as the only separator. Case folding, as in `os.path.exists` and `glob` on a case-insensitive filesystem, is not modelled, and neither are Windows separators, where `glob` and `PathBuf::join` would produce `\`.
- Trigger.GifResource.constructor: `Timer::from_seconds` converts an `f32` number of seconds. The model takes the period already in whole nanoseconds, so floating-point rounding is not modelled.
- Trigger.Timer.Tick: only the repeating mode is modelled, the only one `GifResource` uses. Pausing, `times_finished_this_tick` and `Duration` overflow are left out. The tick behaviour comes from the engine's documentation of `Timer`; the engine's source is not part of this model.
- Trigger.EventTrigger: `time.delta()` is an input in nanoseconds.
- Animation.GifLoad: `thread_rng().gen_range(0..10)` is a caller-supplied stream of draws below 10. Its distribution is not modelled.
- Animation.GifLoad: the Bevy query is a texture array plus a tag list in query order. When a pass panics, the textures written earlier in that pass are not described beyond the untagged entities.
- `GifPlugin::build` and the app schedule, event buffering between frames, and system ordering are not modelled.
- src/game.rs, src/menu.rs, src/main.rs, src/connect.rs and src/server.rs are not part of this model.
- Splitter.GetFrames: PIL decoding is abstract. A file holds a sequence of opaque frames, and a saved PNG holds exactly one.
- `print` output of gif.py is left out.
- Splitter.Workspace.WriteFrames: `os.makedirs` is modelled as adding the output directory itself. Creating missing parent directories is not modelled.
- Splitter.Stem: `pathlib` path normalisation (repeated or trailing separators) is not modelled. Glob results never contain those.
- Splitter.Workspace.SplitGifs: the glob's result is an input, evaluated when the script starts. It must list every matching file and directory exactly once, in any order. Hidden names and files in subdirectories never match. The exception that opening a directory raises is the `Raised` outcome; its traceback is not modelled.
- Splitter.Workspace.SplitGifs: a listed file that is not a readable image also makes `Image.open` raise. That is not modelled: every file holds frames.
- Splitter.Workspace.Remove: requires the file to exist. `SplitGifs` proves this before each call, so the missing-file exception of `os.remove` is not modelled.
- Layout.StoreReadsSplitOutput: assumes the directory enumerates frames in frame order; `read_dir` promises no order.
- Edge case, modelled faithfully: with both `foo.gif` and `foo.gif.gif`, the second one's output path is `assets/images/foo.gif`. Whether its frames are written therefore depends on glob order. `SplitAllWrites` and `SplitRunWrites` cover only GIFs whose output path was absent at the start.
