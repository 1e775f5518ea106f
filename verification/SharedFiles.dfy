/** The set of files a client serves (client/storage/shared_files.cpp). */
module SharedFilesClass {
  import opened Text
  import opened Metadata

  datatype LocalFile = LocalFile(path: Bytes, metadata: FileMetadata, available: seq<bool>)

  type Key = (Bytes, Bytes)

  /** One flag raised, if there is such a piece. */
  function Raised(available: seq<bool>, piece: nat): (r: seq<bool>)
    ensures |r| == |available| && forall i | 0 <= i < |r| :: r[i] == (available[i] || i == piece)
  {
    if piece < |available| then available[piece := true] else available
  }

  class SharedFiles {
    var files: map<Key, LocalFile>

    constructor ()
      ensures files == map[]
    {
      files := map[];
    }

    method Add(group: Bytes, name: Bytes, file: LocalFile)
      modifies this
      ensures files == old(files)[(group, name) := file]
    {
      files := files[(group, name) := file];
    }

    method Find(group: Bytes, name: Bytes) returns (file: Option<LocalFile>)
      ensures file == if (group, name) in files then Some(files[(group, name)]) else None
    {
      if (group, name) !in files {
        return None;
      }
      return Some(files[(group, name)]);
    }

    /** Exactly one flag of one entry rises, or nothing changes. */
    method MarkAvailable(group: Bytes, name: Bytes, piece: nat)
      modifies this
      ensures files.Keys == old(files).Keys
      ensures forall key | key in files && key != (group, name) :: files[key] == old(files)[key]
      ensures (group, name) in files ==>
                var before, after := old(files)[(group, name)], files[(group, name)];
                after.path == before.path && after.metadata == before.metadata &&
                  after.available == Raised(before.available, piece)
    {
      if (group, name) in files && piece < |files[(group, name)].available| {
        var file := files[(group, name)];
        files := files[(group, name) := file.(available := file.available[piece := true])];
      }
    }

    method Remove(group: Bytes, name: Bytes)
      modifies this
      ensures files == old(files) - {(group, name)}
    {
      files := files - {(group, name)};
    }

    /** Erases while walking the map. */
    method RemoveGroup(group: Bytes)
      modifies this
      ensures files == map key | key in old(files) && key.0 != group :: old(files)[key]
    {
      var ahead := files.Keys;
      while ahead != {}
        invariant ahead <= old(files).Keys
        invariant forall key | key in ahead :: key in files
        invariant forall key :: key in files <==> key in old(files) && (key in ahead || key.0 != group)
        invariant forall key | key in files :: files[key] == old(files)[key]
      {
        var key :| key in ahead;
        ahead := ahead - {key};
        if key.0 == group {
          files := files - {key};
        }
      }
    }

    method Clear()
      modifies this
      ensures files == map[]
    {
      files := map[];
    }
  }
}
