/**
 The track-name bookkeeping that both copies of the MAPS dataset class share:
 listing a split's tracks, splitting a track name into the piece ("base name")
 and the piano it was recorded on, and the filters `remove_overlapping`
 applies to the track list and to the stored ground truth.

 A MAPS track is named `<piece>_<piano>`; the files of a split live in
 `<base_dir>/<split>/MUS` as `<track>.wav`, `<track>.mid` and `<track>.txt`.
 */
module MapsTracks {
  import opened Text
  import opened Ordering
  import opened Paths

  datatype Option<T> = None | Some(value: T)

  /** What `load` does for a track: reuse what is stored, or read the track's files. */
  datatype GroundTruthSource =
    | Cached
      /** `audio` and `notes` are file names inside `<base_dir>/<piano>/MUS`. */
    | FromFiles(piano: string, audio: string, notes: string)

  /** `available_splits`: the nine pianos of MAPS, one split directory each. */
  function AvailableSplits(): (splits: seq<string>)
    ensures |splits| == 9
    ensures forall i, j :: 0 <= i < j < |splits| ==> splits[i] != splits[j]
    ensures forall i :: 0 <= i < |splits| ==> splits[i] != [] && '_' !in splits[i]
  {
    ["AkPnBcht", "AkPnBsdf", "AkPnCGdD", "AkPnStgb",
     "ENSTDkAm", "ENSTDkCl", "SptkBGAm", "SptkBGCl", "StbgTGd2"]
  }

  /** The extension-stripped name of every listed file, in listing order. */
  function Roots(listing: seq<string>): seq<string>
  {
    seq(|listing|, i requires 0 <= i < |listing| => Root(listing[i]))
  }

  /** `t` is the extension-stripped name of some listed file. */
  predicate StrippedNameOf(listing: seq<string>, t: string)
  {
    exists f :: f in listing && Root(f) == t
  }

  /**
   `get_tracks` applied to the listing of `<base_dir>/<split>/MUS`: the
   extension-stripped file names, each once, in ascending order.
   */
  function GetTracks(listing: seq<string>): (tracks: seq<string>)
    ensures StrictlyAscending(tracks)
    ensures forall i, j :: 0 <= i < j < |tracks| ==> tracks[i] != tracks[j]
    ensures forall t :: t in tracks <==> StrippedNameOf(listing, t)
  {
    var roots := Roots(listing);
    StrictlyAscendingDistinct(SortedUnique(roots));
    assert forall t :: t in roots <==> StrippedNameOf(listing, t) by {
      forall t | t in roots
        ensures exists f :: f in listing && Root(f) == t
      {
        var i :| 0 <= i < |roots| && roots[i] == t;
        assert listing[i] in listing;
      }
      forall f | f in listing
        ensures Root(f) in roots
      {
        var i :| 0 <= i < |listing| && listing[i] == f;
        assert roots[i] == Root(f);
      }
    }
    SortedUnique(roots)
  }

  /**
   `get_tracks` has one possible answer: any ascending repeat-free list of
   exactly the stripped names is it, whatever order the set of names is
   iterated in before the sort.
   */
  lemma GetTracksIsSortedSet(listing: seq<string>, tracks: seq<string>)
    requires StrictlyAscending(tracks)
    requires forall t :: t in tracks <==> StrippedNameOf(listing, t)
    ensures tracks == GetTracks(listing)
  {
    StrictlyAscendingUnique(tracks, GetTracks(listing));
  }

  /** A listed `<track>.<ext>` file makes `<track>` one of the split's tracks. */
  lemma ListedFileGivesTrack(listing: seq<string>, track: string, ext: string)
    requires track + ['.'] + ext in listing
    requires '/' !in track && HasNonDot(track)
    requires '.' !in ext && '/' !in ext
    ensures track in GetTracks(listing)
  {
    RootOfFileName(track, ext);
    assert Root(track + ['.'] + ext) == track;
  }

  /** `'_'.join(t.split('_')[:-1])`: everything before the last `_`, nothing when there is none. */
  function BaseName(t: string): (base: string)
    ensures '_' in t ==> base == t[..LastIndexOf(t, '_')]
    ensures '_' !in t ==> base == []
  {
    var fields := Split(t, '_');
    SplitAtLast(t, '_');
    assert '_' in t ==> fields[..|fields| - 1] == Split(t[..LastIndexOf(t, '_')], '_');
    Join('_', fields[..|fields| - 1])
  }

  /** `t.split('_')[-1]`: the piano a track was recorded on, everything after the last `_`. */
  function Piano(t: string): (piano: string)
    ensures '_' !in piano
    ensures '_' in t ==> piano == t[LastIndexOf(t, '_') + 1..]
    ensures '_' !in t ==> piano == t
  {
    var fields := Split(t, '_');
    SplitAtLast(t, '_');
    fields[|fields| - 1]
  }

  /** A piece name and a piano without `_` make a track the two functions take apart again. */
  lemma ComposeTrackName(base: string, piano: string)
    requires '_' !in piano
    ensures BaseName(base + "_" + piano) == base
    ensures Piano(base + "_" + piano) == piano
  {
    SplitAround(base, piano, '_');
    SplitWithoutSeparator(piano, '_');
    JoinSplit(base, '_');
    var fields := Split(base + "_" + piano, '_');
    assert fields == Split(base, '_') + [piano];
    assert fields[..|fields| - 1] == Split(base, '_');
  }

  /** Base name, `_` and piano give back a track name that has a `_`. */
  lemma BaseNamePianoRoundTrip(t: string)
    ensures '_' in t ==> BaseName(t) + "_" + Piano(t) == t
  {
    if '_' in t {
      var i := LastIndexOf(t, '_');
      assert t == t[..i] + "_" + t[i + 1..];
    }
  }

  /**
   The base name is empty exactly when the name has no `_` or its only `_`
   is its first character.
   */
  lemma EmptyBaseName(t: string)
    ensures BaseName(t) == [] <==> '_' !in t || (t[0] == '_' && '_' !in t[1..])
  {
    if '_' in t {
      var i := LastIndexOf(t, '_');
      if i > 0 {
        assert t[..i][0] == t[0];
      } else {
        assert t[1..] == t[i + 1..];
      }
    }
  }

  /**
   `load` for a track whose ground truth is not yet stored (no "audio" key):
   the piano is the last `_`-separated field of the track name, and the audio
   and notes files are `<track>.wav` and `<track>.<notesExt>` in
   `<base_dir>/<piano>/MUS`. For a track name with no `/` and some non-dot
   character, these are the files `get_tracks` lists as `track`.
   */
  function LoadSource(track: string, storedKeys: set<string>, notesExt: string): (source: GroundTruthSource)
    requires '.' !in notesExt && '/' !in notesExt
    ensures source.Cached? <==> "audio" in storedKeys
    ensures source.FromFiles? ==> source.audio == track + ".wav" && source.notes == track + "." + notesExt
    ensures source.FromFiles? ==> '_' !in source.piano
    ensures source.FromFiles? && '_' in track ==> BaseName(track) + "_" + source.piano == track
    ensures source.FromFiles? && '_' !in track ==> source.piano == track
    ensures source.FromFiles? && '/' !in track && HasNonDot(track) ==>
      Root(source.audio) == track && Root(source.notes) == track
  {
    if "audio" in storedKeys then Cached
    else
      BaseNamePianoRoundTrip(track);
      RootOfFileName(track, "wav");
      RootOfFileName(track, notesExt);
      assert track + ".wav" == track + "." + "wav";
      FromFiles(Piano(track), track + ".wav", track + "." + notesExt)
  }

  /** The base names of a track list, in order (the list `remove_overlapping` checks against). */
  function BaseNames(ts: seq<string>): (bases: seq<string>)
    ensures forall b :: b in bases <==> exists u :: u in ts && BaseName(u) == b
  {
    var bases := seq(|ts|, i requires 0 <= i < |ts| => BaseName(ts[i]));
    assert forall u :: u in ts ==> BaseName(u) in bases by {
      forall u | u in ts
        ensures BaseName(u) in bases
      {
        var i :| 0 <= i < |ts| && ts[i] == u;
        assert bases[i] == BaseName(u);
      }
    }
    bases
  }

  /** `a` is `b` with some elements left out, the rest in their order. */
  predicate IsSubsequence(a: seq<string>, b: seq<string>)
    decreases |b|
  {
    if a == [] then true
    else if b == [] then false
    else (a[0] == b[0] && IsSubsequence(a[1..], b[1..])) || IsSubsequence(a, b[1..])
  }

  /**
   The list comprehension that rebuilds `self.tracks`: the tracks whose base
   name is not among `bases`, every copy of each, in their original order.
   */
  function KeepNonOverlapping(ts: seq<string>, bases: seq<string>): (kept: seq<string>)
    ensures forall t :: t in kept <==> t in ts && BaseName(t) !in bases
    ensures forall t :: multiset(kept)[t] == if BaseName(t) in bases then 0 else multiset(ts)[t]
    ensures IsSubsequence(kept, ts)
  {
    if ts == [] then []
    else
      var rest := KeepNonOverlapping(ts[1..], bases);
      assert ts == [ts[0]] + ts[1..];
      if BaseName(ts[0]) in bases then
        rest
      else
        assert ([ts[0]] + rest)[1..] == rest;
        [ts[0]] + rest
  }

  /** Filtering twice against the same splits changes nothing the second time. */
  lemma {:induction false} KeepNonOverlappingIdempotent(ts: seq<string>, bases: seq<string>)
    ensures KeepNonOverlapping(KeepNonOverlapping(ts, bases), bases) == KeepNonOverlapping(ts, bases)
  {
    if ts != [] {
      KeepNonOverlappingIdempotent(ts[1..], bases);
      var rest := KeepNonOverlapping(ts[1..], bases);
      if BaseName(ts[0]) !in bases {
        assert ([ts[0]] + rest)[1..] == rest;
      }
    }
  }

  /** No kept track is a recording of a piece that occurs among `others`. */
  lemma KeptTracksShareNoPiece(ts: seq<string>, others: seq<string>)
    ensures forall t, u :: t in KeepNonOverlapping(ts, BaseNames(others)) && u in others ==>
      BaseName(t) != BaseName(u)
  {
  }

  /**
   A track name without `_` is removed exactly when some track of the other
   splits has the empty base name too: one without `_`, or whose only `_`
   comes first.
   */
  lemma UnderscoreFreeTrackRemoval(t: string, ts: seq<string>, others: seq<string>)
    requires t in ts && '_' !in t
    ensures t !in KeepNonOverlapping(ts, BaseNames(others)) <==>
      exists u :: u in others && ('_' !in u || (u[0] == '_' && '_' !in u[1..]))
  {
    forall u | u in others
      ensures BaseName(u) == [] <==> '_' !in u || (u[0] == '_' && '_' !in u[1..])
    {
      EmptyBaseName(u);
    }
  }

  /** `t` is a track of one of `splits`. */
  predicate InSomeSplit(fs: map<string, seq<string>>, splits: seq<string>, t: string)
  {
    exists i :: 0 <= i < |splits| && splits[i] in fs && t in GetTracks(fs[splits[i]])
  }

  /**
   The `tracks += self.get_tracks(split)` loop: the tracks of every split in
   turn, or None when some split has no directory (`os.listdir` raises).
   */
  function Gather(fs: map<string, seq<string>>, splits: seq<string>): (gathered: Option<seq<string>>)
    ensures gathered.Some? <==> forall i :: 0 <= i < |splits| ==> splits[i] in fs
  {
    if splits == [] then Some([])
    else
      var n := |splits| - 1;
      var front := Gather(fs, splits[..n]);
      assert forall i :: 0 <= i < n ==> splits[..n][i] == splits[i];
      if splits[n] !in fs || front.None? then None
      else Some(front.value + GetTracks(fs[splits[n]]))
  }

  /** A track of some of `splits` is a track of the ones before the last or of the last. */
  lemma InSomeSplitSnoc(fs: map<string, seq<string>>, splits: seq<string>, t: string)
    requires splits != [] && splits[|splits| - 1] in fs
    ensures var n := |splits| - 1;
      InSomeSplit(fs, splits, t) <==> InSomeSplit(fs, splits[..n], t) || t in GetTracks(fs[splits[n]])
  {
    var n := |splits| - 1;
    var front := splits[..n];
    if InSomeSplit(fs, splits, t) {
      var i :| 0 <= i < |splits| && splits[i] in fs && t in GetTracks(fs[splits[i]]);
      if i < n {
        assert front[i] == splits[i];
        assert 0 <= i < |front| && front[i] in fs && t in GetTracks(fs[front[i]]);
      } else {
        assert i == n;
      }
    }
    if InSomeSplit(fs, front, t) {
      var i :| 0 <= i < |front| && front[i] in fs && t in GetTracks(fs[front[i]]);
      assert splits[i] == front[i];
      assert 0 <= i < |splits| && splits[i] in fs && t in GetTracks(fs[splits[i]]);
    }
    if t in GetTracks(fs[splits[n]]) {
      assert 0 <= n < |splits| && splits[n] in fs && t in GetTracks(fs[splits[n]]);
    }
  }

  /** What is gathered is exactly the tracks of the given splits. */
  lemma {:induction false} GatherHoldsSplitTracks(fs: map<string, seq<string>>, splits: seq<string>)
    requires Gather(fs, splits).Some?
    ensures forall t :: t in Gather(fs, splits).value <==> InSomeSplit(fs, splits, t)
  {
    if splits != [] {
      var n := |splits| - 1;
      var front := splits[..n];
      GatherHoldsSplitTracks(fs, front);
      var gathered := Gather(fs, front).value;
      var tail := GetTracks(fs[splits[n]]);
      assert Gather(fs, splits).value == gathered + tail;
      forall t
        ensures t in gathered + tail <==> InSomeSplit(fs, splits, t)
      {
        InSomeSplitSnoc(fs, splits, t);
      }
    }
  }

  /**
   The ground truth while the pop loop runs: the entries whose key is still
   to be visited or is a track.
   */
  function PrunedSoFar<T>(before: map<string, T>, pending: set<string>, tracks: seq<string>): map<string, T>
  {
    map k | k in before && (k in pending || k in tracks) :: before[k]
  }

  /** One turn of the pop loop: visiting `key` pops it unless it is a track. */
  lemma PopStep<T>(before: map<string, T>, pending: set<string>, tracks: seq<string>, key: string)
    requires key in pending && pending <= before.Keys
    ensures var data := PrunedSoFar(before, pending, tracks);
      (if key in tracks then data else data - {key}) == PrunedSoFar(before, pending - {key}, tracks)
  {
  }

  /** Before the loop nothing is popped; after it, what is left is the pruned data. */
  lemma PopLoopEnds<T>(before: map<string, T>, tracks: seq<string>)
    ensures PrunedSoFar(before, before.Keys, tracks) == before
    ensures PrunedSoFar(before, {}, tracks) == Prune(before, tracks)
  {
  }

  /**
   The ground truth kept after the pop loop: the entries whose key is still
   a track, with their values untouched.
   */
  function Prune<T>(data: map<string, T>, tracks: seq<string>): (kept: map<string, T>)
    ensures forall k :: k in kept <==> k in data && k in tracks
    ensures forall k :: k in kept ==> kept[k] == data[k]
  {
    map k | k in data && k in tracks :: data[k]
  }
}
