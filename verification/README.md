# MAPS track bookkeeping

A Dafny model of the track-name logic of the MAPS piano-transcription dataset
class. The repository has two copies of this class: the newer one in
`amt_models/datasets/MAPS.py` and the older one in
`transcription-models/datasets/MAPS.py`. Each copy keeps a list of tracks and a
dictionary of ground truth per track. The model covers:

- `get_tracks`: lists the directory `<base_dir>/<split>/MUS`, strips each
  file's extension with `os.path.splitext`, removes repeats (every piece has
  `.wav`, `.mid` and `.txt` files) and sorts the names.
- `remove_overlapping`: collects the tracks of other splits, reduces every
  track name `<piece>_<piano>` to its base name (everything before the last
  `_`), keeps only the dataset's tracks whose base name is not among them, and
  pops every ground-truth entry whose key is no longer a track. The newer copy
  pops entries only when `store_data` is set. The older copy always pops them.
- The piano `load` derives from a track name (its last `_`-separated field),
  and the files it then opens.
- `available_splits` (the nine MAPS pianos) and `dataset_name`.

Modules:

- `Text` (text.dfy): Python's `str.split`, `str.join` and `str.rfind` for a
  one-character separator, with the round trips between split and join.
- `Ordering` (ordering.dfy): Python's `<` on `str` and `sorted(set(xs))`, built
  by inserting into an ascending, repeat-free list. The module proves that such
  a list is unique.
- `Paths` (paths.dfy): POSIX `os.path.splitext`. Leading dots of the last path
  component do not start an extension.
- `MapsTracks` (maps_tracks.dfy): the code that both copies share. The two
  copies' `get_tracks` code is the same and their `available_splits` return
  the same list, so each is modelled once, here. So is the file choice of
  `load`, which differs between the copies only in the extension of the notes
  file.
- `AmtModelsMaps` and `TranscriptionModelsMaps`: one class `Maps` per copy,
  with fields `tracks: seq<string>` and `data: map<string, T>`. The newer copy
  also has the `storeData` flag. Each module's `Load` gives the shared file
  choice its copy's notes extension (`mid` or `txt`).

The file system is a parameter `fs: map<string, seq<string>>`. It maps a split
name to the listing of `<base_dir>/<split>/MUS`. A split missing from `fs`
stands for `os.listdir` raising. Then `RemoveOverlapping` returns `false`, and
tracks and data are as before, because the source changes nothing until every
split has been listed. Paths are relative to `base_dir`.

## Model

| member | source | states |
|---|---|---|
| `Text.Split` | amt_models/datasets/MAPS.py:148 | `t.split('_')` always has at least one field, and no field contains the separator |
| `Text.JoinSplit` | amt_models/datasets/MAPS.py:148 | joining the fields of a split with the separator gives back the original string |
| `Text.SplitJoin` | amt_models/datasets/MAPS.py:148 | splitting a join of one or more separator-free parts gives back exactly those parts |
| `Text.SplitAround` | amt_models/datasets/MAPS.py:148 | splitting `a + "_" + b` gives the fields of `a` followed by the fields of `b` |
| `Text.Join` | amt_models/datasets/MAPS.py:148 | `'_'.join`: joining no parts gives the empty string; otherwise the result starts with the first part, followed by the separator when more parts come; `JoinSplit` and `SplitJoin` make it the inverse of `Split` |
| `Text.SplitAtLast` | transcription-models/datasets/MAPS.py:26 | a string without the separator is one field; otherwise the last field is the text after the last separator and the others are the fields of the text before it, which join back to that text |
| `Text.SplitWithoutSeparator` | transcription-models/datasets/MAPS.py:26 | a string without `_` splits into the single field holding the whole string |
| `Text.LastIndexOf` | amt_models/datasets/MAPS.py:54 | `rfind` (used by `splitext`): -1 exactly when the character is absent; otherwise the index of an occurrence with none after it |
| `Paths.SplitExt` | amt_models/datasets/MAPS.py:54 | `os.path.splitext`: root followed by extension is the path; the extension is empty, or it is a `.` followed by text with no `.` and no `/` |
| `Paths.ExtensionShape` | amt_models/datasets/MAPS.py:54 | when the last `.` comes after the last `/`, the text from that dot on is a `.` followed by text with no `.` and no `/` |
| `Paths.Root` | amt_models/datasets/MAPS.py:54 | `os.path.splitext(path)[0]` is a prefix of the path, and the whole path when it has no `.`; `RootOfFileName` and `HiddenFileHasNoExtension` give it for file names |
| `Paths.RootOfFileName` | amt_models/datasets/MAPS.py:53-54 | for a name with no `/` and some non-dot character, and an `ext` with no `.` and no `/`, `name.ext` splits into `name` and `.ext`, so its root is `name` and the extension is stripped exactly |
| `Paths.HiddenFileHasNoExtension` | transcription-models/datasets/MAPS.py:39 | a name made of leading dots and a dot-free rest (such as `.bashrc`) keeps its whole name as its root |
| `Ordering.Below` | amt_models/datasets/MAPS.py:58 | Python's `<` on `str`: no string sorts before itself, and a proper prefix sorts before the longer string; `FirstDifferenceDecides` states that past a common prefix the first differing code point decides; `BelowAsymmetric`, `BelowTransitive` and `BelowTotal` make it a strict total order |
| `Ordering.FirstDifferenceDecides` | amt_models/datasets/MAPS.py:57-58 | when two strings agree before position `k` and differ at `k`, the first sorts before the second iff its code point at `k` is smaller |
| `Ordering.BelowAsymmetric` | amt_models/datasets/MAPS.py:58 | two strings never sort before each other both ways |
| `Ordering.BelowTransitive` | amt_models/datasets/MAPS.py:58 | the string order used by `sort` is transitive |
| `Ordering.BelowTotal` | amt_models/datasets/MAPS.py:58 | any two different strings are ordered one way or the other |
| `Ordering.InsertSpec` | amt_models/datasets/MAPS.py:56-58 | inserting into an ascending repeat-free list keeps it ascending and repeat-free, and adds exactly the new element |
| `Ordering.SortedUnique` | amt_models/datasets/MAPS.py:56-58 | `sorted(set(xs))` is strictly ascending and has exactly the elements of `xs`; `StrictlyAscendingUnique` shows it is the only such list |
| `Ordering.StrictlyAscendingUnique` | amt_models/datasets/MAPS.py:56-58 | two strictly ascending lists with the same elements are equal, so the iteration order of the set cannot change the sorted result |
| `Ordering.StrictlyAscendingDistinct` | amt_models/datasets/MAPS.py:56 | a strictly ascending list has no element twice |
| `MapsTracks.AvailableSplits` | amt_models/datasets/MAPS.py:160-175 | exactly nine split names, all distinct, each nonempty and without `_` |
| `MapsTracks.GetTracks` | amt_models/datasets/MAPS.py:48-60 | the result is strictly ascending and has no duplicates; a name is in it iff it is the extension-stripped form of some listed file |
| `MapsTracks.GetTracksIsSortedSet` | transcription-models/datasets/MAPS.py:39-42 | any ascending repeat-free list of exactly the stripped names equals the `get_tracks` result |
| `MapsTracks.ListedFileGivesTrack` | transcription-models/datasets/MAPS.py:38-41 | for a track with no `/` and some non-dot character, and an extension with no `.` and no `/`, a listed file `<track>.<ext>` puts `<track>` among the split's tracks |
| `MapsTracks.BaseName` | amt_models/datasets/MAPS.py:148-150 | `'_'.join(t.split('_')[:-1])` is the text before the last `_`, and empty when there is no `_`; `ComposeTrackName`, `BaseNamePianoRoundTrip` and `EmptyBaseName` relate it to `Piano` |
| `MapsTracks.Piano` | amt_models/datasets/MAPS.py:83 | the piano field of a track name contains no `_`; it is the text after the last `_`, or the whole name when there is no `_` |
| `MapsTracks.ComposeTrackName` | amt_models/datasets/MAPS.py:148 | for a piano without `_`, `base + "_" + piano` has base name `base` and piano `piano` |
| `MapsTracks.BaseNamePianoRoundTrip` | amt_models/datasets/MAPS.py:148 | base name, `_` and piano concatenate back to the track name whenever it has a `_` |
| `MapsTracks.EmptyBaseName` | transcription-models/datasets/MAPS.py:26 | the base name is empty iff the name has no `_` or its only `_` is its first character |
| `MapsTracks.LoadSource` | amt_models/datasets/MAPS.py:78-95 | files are read iff there is no stored `audio` key; then they are `<track>.wav` and `<track>.<notes extension>` under the track's piano, which has no `_`, is the whole name when that has no `_`, and otherwise completes the base name back to the track name; for a track name with no `/` and some non-dot character, both files strip back to the track name, so they are the files `get_tracks` lists under it |
| `MapsTracks.BaseNames` | amt_models/datasets/MAPS.py:148 | a string is among the base names iff it is the base name of some given track |
| `MapsTracks.KeepNonOverlapping` | amt_models/datasets/MAPS.py:150 | a track is kept iff it was a track and its base name is not among the others'; each kept name has its old number of copies; the result is a subsequence of the old list, in the same order |
| `MapsTracks.KeepNonOverlappingIdempotent` | transcription-models/datasets/MAPS.py:28 | filtering again against the same base names changes nothing |
| `MapsTracks.KeptTracksShareNoPiece` | amt_models/datasets/MAPS.py:144-150 | no kept track has the same base name as any track of the given splits |
| `MapsTracks.UnderscoreFreeTrackRemoval` | transcription-models/datasets/MAPS.py:26-28 | a track without `_` is removed iff some track of the splits also has the empty base name (no `_`, or only a leading `_`) |
| `MapsTracks.Gather` | amt_models/datasets/MAPS.py:142-145 | collecting the splits' tracks succeeds iff every split has a directory listing |
| `MapsTracks.InSomeSplitSnoc` | amt_models/datasets/MAPS.py:144-145 | a track of some split in a list is a track of a split before the last one, or of the last one |
| `MapsTracks.GatherHoldsSplitTracks` | transcription-models/datasets/MAPS.py:21-24 | the collected list holds exactly the tracks `get_tracks` gives for one of the splits |
| `MapsTracks.PopStep` | amt_models/datasets/MAPS.py:154-158 | one turn of the pop loop pops the visited key exactly when it is not a track, and leaves every other entry as it was |
| `MapsTracks.PopLoopEnds` | amt_models/datasets/MAPS.py:154-158 | before the pop loop nothing is popped; once every key has been visited, the data is the pruned data |
| `MapsTracks.Prune` | amt_models/datasets/MAPS.py:154-158 | after pruning, a key is present iff it was present and is a track; surviving entries keep their values |
| `AmtModelsMaps.Maps.constructor` | amt_models/datasets/MAPS.py:20-31 | the dataset starts with the given tracks, ground truth and `store_data` flag |
| `AmtModelsMaps.Maps.RemoveOverlapping` | amt_models/datasets/MAPS.py:131-158 | fails, changing nothing, iff some split has no directory; otherwise tracks become the non-overlapping filter of the old tracks against the gathered base names; data becomes the old data pruned to the new tracks when `store_data` is set, and stays exactly as it was otherwise; no remaining track shares a base name with any track of the splits |
| `AmtModelsMaps.Load` | amt_models/datasets/MAPS.py:78-95 | `load` makes the file choice of `LoadSource` with the MIDI file `<track>.mid` as the notes |
| `TranscriptionModelsMaps.DatasetName` | transcription-models/datasets/MAPS.py:83-85 | the dataset's name is `MAPS` |
| `TranscriptionModelsMaps.Maps.constructor` | transcription-models/datasets/MAPS.py:15-17 | the dataset starts with the given tracks and ground truth |
| `TranscriptionModelsMaps.Maps.RemoveOverlapping` | transcription-models/datasets/MAPS.py:19-32 | fails, changing nothing, iff some split has no directory; otherwise tracks become the non-overlapping filter of the old tracks, and data is always pruned to the new tracks with surviving values unchanged; no remaining track shares a base name with any track of the splits |
| `TranscriptionModelsMaps.Load` | transcription-models/datasets/MAPS.py:46-59 | `load` makes the file choice of `LoadSource` with the note list `<track>.txt` as the notes |

The `available_splits` of transcription-models/datasets/MAPS.py:78-81 returns
the same list as the newer copy's, and its `get_tracks` (lines 34-44) is the
same code. They are modelled by `MapsTracks.AvailableSplits` and `MapsTracks.GetTracks`.

## Left out

- Building the ground truth in both `load` methods is not modelled. That is
  loading audio, parsing MIDI and text annotations, converting notes to piano
  rolls and onsets, converting MIDI pitch to Hz in floating point, and writing
  `.npz` files. The model stops at which files `load` would open.
- The dictionary that `super().load` returns comes from the dataset base class,
  which is not part of this model. `LoadSource` sees only its set of keys.
- The rest of `__init__` is not modelled: it hands its parameters to the
  dataset base class, which is not part of this model. The constructors take
  the initial tracks and data as given.
- `os.path.join` with `base_dir` is not modelled. File locations are given
  relative to `<base_dir>/<piano>/MUS`.
- `os.listdir` is the `fs` parameter. Only its "no such directory" failure is
  modelled. Permission errors, a file in place of a directory, and the order
  of the listing are not modelled; the sort makes that order irrelevant.
- The order in which the pop loop visits the keys is left open (the loop picks
  any remaining key). The final data does not depend on that order.
- Only POSIX `os.path.splitext` is modelled. The Windows variant, with `\` and
  drive letters, is not.
- `download` only fails an assertion, so it is not modelled.
- The experiment script and the inference helpers elsewhere in the repository
  are training and tensor glue around code that is not part of this model.
