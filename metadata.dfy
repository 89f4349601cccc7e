/**
 * The file bookkeeping of MetaData in hncore/metadata.cpp: the size (set
 * once), the current name and the count of every name the file was seen
 * under, comment and custom-data sets, and the check that drops a loaded
 * hashset whose chunk-hash count does not match the size.
 *
 * Events posted to the event table are recorded in `events`, in order.
 * A hashset is reduced to what the check reads: its hash type, chunk size
 * and chunk-hash count.
 */
module MetaData {
  import opened Wrappers
  import opened PartData

  const U32: nat := 0x1_0000_0000

  datatype Event = SizeChanged | NameChanged | AddedFileName | AddedComment | AddedCustomData

  /** A hashset as the load check sees it; clearing its chunk hashes leaves a count of 0. */
  datatype HashSetInfo = HashSetInfo(ed2k: bool, chunkSize: nat, chunkCnt: nat)

  /** m_fileNames[name]: operator[] reads an absent name as 0. */
  function Count(names: map<string, nat>, name: string): nat {
    if name in names then names[name] else 0
  }

  /** One more sighting of the name. */
  function Bumped(names: map<string, nat>, name: string): (r: map<string, nat>)
    ensures Count(r, name) == Count(names, name) + 1
    ensures forall n :: n != name ==> Count(r, n) == Count(names, n)
    ensures r.Keys == names.Keys + {name}
  {
    names[name := Count(names, name) + 1]
  }

  /** delFileName(name) on the counts: one sighting fewer; the last one goes, except for the current name, which is never dropped. */
  function Dropped(names: map<string, nat>, name: string, current: string): (r: map<string, nat>)
    ensures name !in names ==> r == names
    ensures forall n :: n != name ==> Count(r, n) == Count(names, n)
    ensures name in names && names[name] > 1 ==> Count(r, name) == names[name] - 1
    ensures name in names && names[name] <= 1 ==> (name == current <==> name in r)
  {
    if name !in names then names
    else if names[name] > 1 then names[name := names[name] - 1]
    else if name == current then names[name := 1]
    else names - {name}
  }

  /** Every counted name was seen at least once. */
  predicate CountsPositive(names: map<string, nat>) {
    forall n :: n in names ==> names[n] >= 1
  }

  /** Dropping a sighting just added gives the counts back, unless it was the first sighting of the current name. */
  lemma DropUndoesBump(names: map<string, nat>, name: string, current: string)
    requires CountsPositive(names)
    requires name in names || name != current
    ensures Dropped(Bumped(names, name), name, current) == names
  {
    if name !in names {
      assert Bumped(names, name) - {name} == names;
    } else {
      assert Bumped(names, name)[name := names[name]] == names;
    }
  }

  /** The first sighting of the current name is kept: its count stays at 1. */
  lemma CurrentNameKept(names: map<string, nat>, name: string)
    requires name !in names
    ensures Dropped(Bumped(names, name), name, name) == names[name := 1]
  {
  }

  lemma DroppedPositive(names: map<string, nat>, name: string, current: string)
    requires CountsPositive(names)
    ensures CountsPositive(Dropped(names, name, current))
  {
  }

  /**
   * The chunk-hash count a hashset must have: size / chunkSize + 1, as a
   * uint32_t, one less unless it is an eD2k hashset (which has a dummy hash
   * at the end) and the size is a multiple of the chunk size.
   */
  function ExpectedChunks(size: nat, hs: HashSetInfo): (e: nat)
    requires hs.chunkSize > 0
    ensures e < U32
  {
    var e := (size / hs.chunkSize + 1) % U32;
    if !hs.ed2k && size % hs.chunkSize == 0 then (e + U32 - 1) % U32 else e
  }

  /** Outside the 32-bit wrap, a non-eD2k hashset needs one hash per chunk, the last chunk possibly short; an eD2k one needs one more when the size is a multiple of its chunk size. */
  lemma ExpectedIsChunkCount(size: nat, hs: HashSetInfo)
    requires hs.chunkSize > 0 && size / hs.chunkSize + 1 < U32
    ensures !hs.ed2k ==> ExpectedChunks(size, hs) == ChunkCount(size, hs.chunkSize)
    ensures hs.ed2k ==> ExpectedChunks(size, hs) == ChunkCount(size, hs.chunkSize) + (if size % hs.chunkSize == 0 then 1 else 0)
  {
  }

  /** What the load check leaves of a hashset: one with chunk hashes keeps them only when their count is as expected. */
  function Checked(size: nat, hs: HashSetInfo): (r: HashSetInfo)
    requires hs.chunkCnt > 0 ==> hs.chunkSize > 0
    ensures r.ed2k == hs.ed2k && r.chunkSize == hs.chunkSize
    ensures r.chunkCnt == hs.chunkCnt || r.chunkCnt == 0
  {
    if hs.chunkCnt == 0 || ExpectedChunks(size, hs) == hs.chunkCnt then hs
    else hs.(chunkCnt := 0)
  }

  predicate ChunkSizesKnown(sets: seq<HashSetInfo>) {
    forall i :: 0 <= i < |sets| ==> (sets[i].chunkCnt > 0 ==> sets[i].chunkSize > 0)
  }

  /** After the check every hashset with chunk hashes has the expected number of them, and checking again changes nothing. */
  lemma CheckedConsistent(size: nat, hs: HashSetInfo)
    requires hs.chunkCnt > 0 ==> hs.chunkSize > 0
    ensures Checked(size, hs).chunkCnt > 0 ==> Checked(size, hs).chunkCnt == ExpectedChunks(size, hs)
    ensures Checked(size, Checked(size, hs)) == Checked(size, hs)
  {
  }

  class MetaData {
    var fileSize: nat
    var hashSets: seq<HashSetInfo>
    var fileName: string
    var fileNames: map<string, nat>
    var comments: set<string>
    var customData: set<string>
    var events: seq<Event>

    /** The current name, once there is one, is counted, and every count is positive. */
    ghost predicate Valid()
      reads this
    {
      CountsPositive(fileNames) && (fileName != "" ==> fileName in fileNames)
    }

    /** A MetaData of a file of the given size, with no names yet. */
    constructor (size: nat)
      ensures Valid()
      ensures fileSize == size && hashSets == [] && fileName == "" && fileNames == map[]
      ensures comments == {} && customData == {} && events == []
    {
      fileSize := size;
      hashSets := [];
      fileName := "";
      fileNames := map[];
      comments, customData := {}, {};
      events := [];
    }

    /** setSize(newSize): only a file of unknown size (0) takes a size; its hashsets go, and a real size is announced. */
    method SetSize(newSize: nat) returns (r: Result<()>)
      modifies this
      ensures old(fileSize) != 0 ==> (r == Err(CheckFailed("!m_fileSize")) && fileSize == old(fileSize)
        && hashSets == old(hashSets) && events == old(events))
      ensures old(fileSize) == 0 ==> (r == Ok(()) && fileSize == newSize && hashSets == []
        && events == old(events) + (if newSize != 0 then [SizeChanged] else []))
      ensures fileName == old(fileName) && fileNames == old(fileNames)
      ensures comments == old(comments) && customData == old(customData)
    {
      if fileSize != 0 {
        return Err(CheckFailed("!m_fileSize"));
      }
      fileSize := newSize;
      hashSets := [];
      if newSize != 0 {
        events := events + [SizeChanged];
      }
      r := Ok(());
    }

    /** setName(name): nothing for the current name; else it becomes current and is counted once more, announced as a new name on its first sighting. */
    method SetName(name: string)
      requires Valid()
      modifies this
      ensures Valid()
      ensures fileName == name
      ensures name == old(fileName) ==> fileNames == old(fileNames) && events == old(events)
      ensures name != old(fileName) ==> (fileNames == Bumped(old(fileNames), name)
        && events == old(events) + [NameChanged] + (if Count(old(fileNames), name) == 0 then [AddedFileName] else []))
      ensures fileSize == old(fileSize) && hashSets == old(hashSets)
      ensures comments == old(comments) && customData == old(customData)
    {
      if name == fileName {
        return;
      }
      fileName := name;
      fileNames := Bumped(fileNames, name);
      events := events + [NameChanged];
      if fileNames[name] == 1 {
        events := events + [AddedFileName];
      }
    }

    /**
     * addFileName(name): counts one more sighting. A file with no name yet
     * takes it as its name first; that sighting is then counted twice (once
     * by setName), unless the name is empty.
     */
    method AddFileName(name: string)
      requires Valid()
      modifies this
      ensures Valid()
      ensures old(fileName) == "" ==> fileName == name
      ensures old(fileName) != "" ==> fileName == old(fileName)
      ensures old(fileName) == "" && name != "" ==> (fileNames == Bumped(Bumped(old(fileNames), name), name)
        && events == old(events) + [NameChanged] + (if Count(old(fileNames), name) == 0 then [AddedFileName] else []))
      ensures old(fileName) != "" || name == "" ==> (fileNames == Bumped(old(fileNames), name)
        && events == old(events) + (if Count(old(fileNames), name) == 0 && old(fileName) != "" then [AddedFileName] else []))
      ensures fileSize == old(fileSize) && hashSets == old(hashSets)
      ensures comments == old(comments) && customData == old(customData)
    {
      if fileName == "" {
        SetName(name);
        fileNames := Bumped(fileNames, name);
      } else {
        fileNames := Bumped(fileNames, name);
        if fileNames[name] == 1 {
          events := events + [AddedFileName];
        }
      }
    }

    /** delFileName(name): one sighting fewer; a name seen no more is forgotten, unless it is the current one. */
    method DelFileName(name: string)
      requires Valid()
      modifies this
      ensures Valid()
      ensures fileNames == Dropped(old(fileNames), name, fileName)
      ensures fileName == old(fileName) && events == old(events)
      ensures fileSize == old(fileSize) && hashSets == old(hashSets)
      ensures comments == old(comments) && customData == old(customData)
    {
      if name !in fileNames {
        return;
      }
      var c := fileNames[name] - 1;
      if c == 0 {
        if name == fileName {
          fileNames := fileNames[name := 1];
        } else {
          fileNames := fileNames - {name};
        }
      } else {
        fileNames := fileNames[name := c];
      }
    }

    /** addComment(comment): a set; only a new comment is announced. */
    method AddComment(comment: string)
      modifies this
      ensures comments == old(comments) + {comment}
      ensures events == old(events) + (if comment in old(comments) then [] else [AddedComment])
      ensures fileSize == old(fileSize) && hashSets == old(hashSets) && fileName == old(fileName)
      ensures fileNames == old(fileNames) && customData == old(customData)
    {
      if comment !in comments {
        comments := comments + {comment};
        events := events + [AddedComment];
      }
    }

    /** addCustomData(data): a set; only new data is announced. */
    method AddCustomData(data: string)
      modifies this
      ensures customData == old(customData) + {data}
      ensures events == old(events) + (if data in old(customData) then [] else [AddedCustomData])
      ensures fileSize == old(fileSize) && hashSets == old(hashSets) && fileName == old(fileName)
      ensures fileNames == old(fileNames) && comments == old(comments)
    {
      if data !in customData {
        customData := customData + {data};
        events := events + [AddedCustomData];
      }
    }

    /** The end of loading: each hashset whose chunk-hash count does not match the size loses its chunk hashes. */
    method CheckHashSets()
      requires ChunkSizesKnown(hashSets)
      modifies this
      ensures |hashSets| == |old(hashSets)|
      ensures forall i :: 0 <= i < |hashSets| ==> hashSets[i] == Checked(fileSize, old(hashSets)[i])
      ensures fileSize == old(fileSize) && fileName == old(fileName) && fileNames == old(fileNames)
      ensures comments == old(comments) && customData == old(customData) && events == old(events)
    {
      var sets := hashSets;
      var i := 0;
      while i < |sets|
        invariant 0 <= i <= |sets| && |sets| == |hashSets|
        invariant forall k :: 0 <= k < i ==> sets[k] == Checked(fileSize, hashSets[k])
        invariant forall k :: i <= k < |sets| ==> sets[k] == hashSets[k]
        invariant unchanged(this)
      {
        var hs := sets[i];
        if hs.chunkCnt != 0 {
          var expected := (fileSize / hs.chunkSize + 1) % U32;
          if !hs.ed2k && fileSize % hs.chunkSize == 0 {
            expected := (expected + U32 - 1) % U32;
          }
          if expected != hs.chunkCnt {
            sets := sets[i := hs.(chunkCnt := 0)];
          }
        }
        i := i + 1;
      }
      hashSets := sets;
    }
  }
}
