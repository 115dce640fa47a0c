/**
 The MAPS dataset class of `transcription-models`: the older copy, whose
 `remove_overlapping` always prunes the stored ground truth and whose `load`
 reads the note annotations from the `.txt` file.
 */
module TranscriptionModelsMaps {
  import opened MapsTracks

  /** `dataset_name`. */
  function DatasetName(): (name: string)
    ensures name == "MAPS"
  {
    "MAPS"
  }

  /** A MAPS dataset: its tracks and, per track, the ground truth kept in memory. */
  class Maps<T> {
    var tracks: seq<string>
    var data: map<string, T>

    constructor (tracks: seq<string>, data: map<string, T>)
      ensures this.tracks == tracks && this.data == data
    {
      this.tracks := tracks;
      this.data := data;
    }

    /**
     Drops every track whose piece also occurs in one of `splits`, whose
     directory listings `fs` gives, and every ground-truth entry whose key is
     no longer a track. `ok` is false when a split has no directory; then
     nothing has changed.
     */
    method RemoveOverlapping(splits: seq<string>, fs: map<string, seq<string>>) returns (ok: bool)
      modifies this
      ensures ok <==> forall i :: 0 <= i < |splits| ==> splits[i] in fs
      ensures !ok ==> tracks == old(tracks) && data == old(data)
      ensures ok ==> tracks == KeepNonOverlapping(old(tracks), BaseNames(Gather(fs, splits).value))
      ensures ok ==> data == Prune(old(data), tracks)
      ensures ok ==> forall t, u :: t in tracks && InSomeSplit(fs, splits, u) ==> BaseName(t) != BaseName(u)
    {
      var gathered: seq<string> := [];
      var i := 0;
      while i < |splits|
        invariant 0 <= i <= |splits|
        invariant Gather(fs, splits[..i]) == Some(gathered)
        invariant tracks == old(tracks) && data == old(data)
      {
        if splits[i] !in fs {
          assert Gather(fs, splits).None?;
          return false;
        }
        assert splits[..i + 1][..i] == splits[..i];
        gathered := gathered + GetTracks(fs[splits[i]]);
        i := i + 1;
      }
      assert splits[..i] == splits;
      GatherHoldsSplitTracks(fs, splits);
      ghost var kept := KeepNonOverlapping(old(tracks), BaseNames(Gather(fs, splits).value));
      tracks := KeepNonOverlapping(tracks, BaseNames(gathered));
      ghost var before := data;
      var keys := data.Keys;
      PopLoopEnds(before, tracks);
      while keys != {}
        invariant keys <= before.Keys
        invariant tracks == kept
        invariant data == PrunedSoFar(before, keys, kept)
        decreases keys
      {
        var key :| key in keys;
        PopStep(before, keys, kept, key);
        if key !in tracks {
          data := data - {key};
        }
        keys := keys - {key};
      }
      return true;
    }
  }

  /**
   `load` for one track: what `LoadSource` chooses, with the note-list file
   `<track>.txt` as the notes.
   */
  function Load(track: string, storedKeys: set<string>): (source: GroundTruthSource)
    ensures source == LoadSource(track, storedKeys, "txt")
    ensures source.FromFiles? ==> source.notes == track + ".txt"
  {
    assert track + "." + "txt" == track + ".txt";
    LoadSource(track, storedKeys, "txt")
  }
}
