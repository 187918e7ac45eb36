/** The firmware store behind the manager as a value: either absent (mFirmwares is
    NULL) or a dictionary from names to raw firmware bytes. Each operation of the
    manager is a function from one store value to the next, with the status it returns. */
module Registry {
  import opened KernelTypes
  import opened Zlib
  import opened FirmwareNames
  import opened ResourceFetch

  datatype Store = Absent | Present(entries: map<string, seq<byte>>)

  /** The store after an operation and the status the operation returned. */
  datatype Step = Step(store: Store, ret: IOReturn)

  /** getFirmwareUncompressed: the bytes stored under `name`; None when there is no store
      or no such entry. */
  function Lookup(s: Store, name: string): (r: Option<seq<byte>>)
    ensures r.Some? <==> s.Present? && name in s.entries
    ensures r.Some? ==> r.value == s.entries[name]
  {
    if s.Present? && name in s.entries then Some(s.entries[name]) else None
  }

  /** addFirmwareWithDescriptor. */
  function AddDescriptor(s: Store, fw: Descriptor, z: Decoder): (r: Step)
    ensures s.Absent? ==> r == Step(Absent, IOReturnInvalid)
    ensures s.Present? && DecompressFirmware(fw.data, z).None? ==> r == Step(s, IOReturnError)
    ensures s.Present? && DecompressFirmware(fw.data, z).Some? ==>
      r.ret == IOReturnSuccess && r.store.Present? && Lookup(r.store, fw.name) == DecompressFirmware(fw.data, z)
    ensures forall other :: other != fw.name ==> Lookup(r.store, other) == Lookup(s, other)
  {
    if s.Absent? then Step(Absent, IOReturnInvalid)
    else match DecompressFirmware(fw.data, z)
      case None => Step(s, IOReturnError)
      case Some(data) => Step(Present(s.entries[fw.name := data]), IOReturnSuccess)
  }

  /** removeFirmware. */
  function RemoveEntry(s: Store, name: string): (r: Step)
    ensures s.Absent? ==> r == Step(Absent, IOReturnInvalid)
    ensures s.Present? ==> r.ret == IOReturnSuccess && r.store.Present? && Lookup(r.store, name) == None
    ensures forall other :: other != name ==> Lookup(r.store, other) == Lookup(s, other)
  {
    if s.Absent? then Step(Absent, IOReturnInvalid)
    else Step(Present(s.entries - {name}), IOReturnSuccess)
  }

  /** removeFirmwares. */
  function RemoveAllEntries(s: Store): (r: Step)
    ensures s.Absent? ==> r == Step(Absent, IOReturnInvalid)
    ensures s.Present? ==> r.ret == IOReturnSuccess && r.store.Present?
    ensures forall name :: Lookup(r.store, name) == None
  {
    if s.Absent? then Step(Absent, IOReturnInvalid)
    else Step(Present(map[]), IOReturnSuccess)
  }

  /** addFirmwareWithName: the descriptor at the highest matching candidate index is
      added; with no match the store is left alone and kIOReturnUnsupported returned. */
  function AddByName(s: Store, name: string, candidates: seq<Descriptor>, z: Decoder): (r: Step)
    ensures (forall j :: 0 <= j < |candidates| ==> !NamesMatch(candidates[j].name, name)) ==>
      r == Step(s, IOReturnUnsupported)
    ensures forall i: nat :: IsLastMatch(name, candidates, i) ==> r == AddDescriptor(s, candidates[i], z)
  {
    match LastMatch(name, candidates)
    case None => Step(s, IOReturnUnsupported)
    case Some(i) =>
      assert forall i': nat :: IsLastMatch(name, candidates, i') ==> i' == i by {
        forall i': nat | IsLastMatch(name, candidates, i') ensures i' == i {
          LastMatchFinds(name, candidates, i');
        }
      }
      AddDescriptor(s, candidates[i], z)
  }

  /** addFirmwareWithFile after the wait: the delivered bytes are added under the file
      name; otherwise the decision's status is returned and the store is left alone. */
  function AddFile(s: Store, fileName: string, f: Fetch, z: Decoder): (r: Step)
    ensures PostWait(f).ReturnStatus? ==> r == Step(s, PostWait(f).code)
    ensures PostWait(f).AddDelivered? ==> r == AddDescriptor(s, Descriptor(fileName, PostWait(f).data), z)
    ensures r.ret == IOReturnSuccess ==>
      f.delivered.Some? && Lookup(r.store, fileName) == DecompressFirmware(f.delivered.value, z)
    ensures forall other :: other != fileName ==> Lookup(r.store, other) == Lookup(s, other)
  {
    match PostWait(f)
    case ReturnStatus(code) => Step(s, code)
    case AddDelivered(data) => AddDescriptor(s, Descriptor(fileName, data), z)
  }

  /** initWithDescriptors' loop: every descriptor is added, from the last index down to
      the first, whatever each add returns. */
  function AddDescriptorsFromLast(s: Store, fws: seq<Descriptor>, z: Decoder): (r: Store)
    ensures forall other :: (forall j :: 0 <= j < |fws| ==> fws[j].name != other) ==>
      Lookup(r, other) == Lookup(s, other)
    decreases |fws|
  {
    if |fws| == 0 then s
    else AddDescriptorsFromLast(AddDescriptor(s, fws[|fws| - 1], z).store, fws[..|fws| - 1], z)
  }

  /** initWithNames' loop: every requested name is added from the candidates, from the
      last requested name down to the first, whatever each add returns. */
  function AddNamesFromLast(s: Store, names: seq<string>, candidates: seq<Descriptor>, z: Decoder): (r: Store)
    ensures r.Present? <==> s.Present?
    ensures forall key :: (forall j :: 0 <= j < |candidates| ==> candidates[j].name != key) ==>
      Lookup(r, key) == Lookup(s, key)
    decreases |names|
  {
    if |names| == 0 then s
    else AddNamesFromLast(AddByName(s, names[|names| - 1], candidates, z).store, names[..|names| - 1], candidates, z)
  }

  /** initWithFiles' loop: every (identifier, file name) pair is requested from `loader`
      and added, from the last pair down to the first, whatever each add returns. */
  function AddFilesFromLast(s: Store, kextIdentifiers: seq<string>, fileNames: seq<string>,
                            loader: (string, string) -> Fetch, z: Decoder): (r: Store)
    requires |kextIdentifiers| == |fileNames|
    ensures forall other :: (forall j :: 0 <= j < |fileNames| ==> fileNames[j] != other) ==>
      Lookup(r, other) == Lookup(s, other)
    decreases |fileNames|
  {
    if |fileNames| == 0 then s
    else
      var last := |fileNames| - 1;
      AddFilesFromLast(AddFile(s, fileNames[last], loader(kextIdentifiers[last], fileNames[last]), z).store,
                       kextIdentifiers[..last], fileNames[..last], loader, z)
  }

  /** A fetch whose delivered bytes are added and decompress, so that the add by file
      writes the file name's entry. */
  predicate FileLands(f: Fetch, z: Decoder)
  {
    PostWait(f).AddDelivered? && DecompressFirmware(PostWait(f).data, z).Some?
  }

  /** The bulk file loop neither creates nor drops the store. */
  lemma {:induction false} AddFilesKeepsPresence(s: Store, kextIdentifiers: seq<string>, fileNames: seq<string>,
                                                 loader: (string, string) -> Fetch, z: Decoder)
    requires |kextIdentifiers| == |fileNames|
    ensures AddFilesFromLast(s, kextIdentifiers, fileNames, loader, z).Present? <==> s.Present?
    decreases |fileNames|
  {
    if |fileNames| > 0 {
      var last := |fileNames| - 1;
      AddFilesKeepsPresence(AddFile(s, fileNames[last], loader(kextIdentifiers[last], fileNames[last]), z).store,
                            kextIdentifiers[..last], fileNames[..last], loader, z);
    }
  }

  /** A file name none of whose requests delivers decompressible bytes keeps its entry
      (or its absence) through initWithFiles' loop. */
  lemma {:induction false} FileUntouched(s: Store, kextIdentifiers: seq<string>, fileNames: seq<string>,
                                         loader: (string, string) -> Fetch, z: Decoder, name: string)
    requires |kextIdentifiers| == |fileNames|
    requires forall j :: 0 <= j < |fileNames| && fileNames[j] == name ==>
      !FileLands(loader(kextIdentifiers[j], fileNames[j]), z)
    ensures Lookup(AddFilesFromLast(s, kextIdentifiers, fileNames, loader, z), name) == Lookup(s, name)
    decreases |fileNames|
  {
    if |fileNames| > 0 {
      var last := |fileNames| - 1;
      var s1 := AddFile(s, fileNames[last], loader(kextIdentifiers[last], fileNames[last]), z).store;
      assert Lookup(s1, name) == Lookup(s, name);
      FileUntouched(s1, kextIdentifiers[..last], fileNames[..last], loader, z, name);
    }
  }

  /** Because initWithFiles' loop runs from the last index to the first, a file name
      requested several times ends up holding the data of its lowest-index request
      among those that deliver decompressible bytes. */
  lemma {:induction false} FileLowestIndexWins(s: Store, kextIdentifiers: seq<string>, fileNames: seq<string>,
                                               loader: (string, string) -> Fetch, z: Decoder, i: nat)
    requires s.Present? && |kextIdentifiers| == |fileNames|
    requires i < |fileNames| && FileLands(loader(kextIdentifiers[i], fileNames[i]), z)
    requires forall j :: 0 <= j < i && fileNames[j] == fileNames[i] ==>
      !FileLands(loader(kextIdentifiers[j], fileNames[j]), z)
    ensures Lookup(AddFilesFromLast(s, kextIdentifiers, fileNames, loader, z), fileNames[i]) ==
            DecompressFirmware(PostWait(loader(kextIdentifiers[i], fileNames[i])).data, z)
    decreases |fileNames|
  {
    var last := |fileNames| - 1;
    var s1 := AddFile(s, fileNames[last], loader(kextIdentifiers[last], fileNames[last]), z).store;
    if i == last {
      FileUntouched(s1, kextIdentifiers[..last], fileNames[..last], loader, z, fileNames[i]);
    } else {
      assert s1.Present?;
      FileLowestIndexWins(s1, kextIdentifiers[..last], fileNames[..last], loader, z, i);
    }
  }

  /** Without a store every operation reports kIOReturnInvalid (getFirmwareUncompressed
      reports NULL), nothing is created, and the store stays absent. */
  lemma AbsentStoreRejectsEverything(name: string, fw: Descriptor, candidates: seq<Descriptor>, z: Decoder)
    ensures AddDescriptor(Absent, fw, z) == Step(Absent, IOReturnInvalid)
    ensures RemoveEntry(Absent, name) == Step(Absent, IOReturnInvalid)
    ensures RemoveAllEntries(Absent) == Step(Absent, IOReturnInvalid)
    ensures Lookup(Absent, name) == None
    ensures AddByName(Absent, name, candidates, z).store == Absent
    ensures AddByName(Absent, name, candidates, z).ret in {IOReturnInvalid, IOReturnUnsupported}
  {
  }

  /** Adding under a name twice keeps the bytes of the later add when it succeeds, and
      those of the earlier add when the later decompression fails. */
  lemma OverwriteKeepsLatest(entries: map<string, seq<byte>>, name: string, first: seq<byte>, second: seq<byte>, z: Decoder)
    requires DecompressFirmware(first, z).Some?
    ensures var once := AddDescriptor(Present(entries), Descriptor(name, first), z).store;
      var twice := AddDescriptor(once, Descriptor(name, second), z).store;
      Lookup(twice, name) ==
        if DecompressFirmware(second, z).Some? then DecompressFirmware(second, z) else DecompressFirmware(first, z)
  {
  }

  /** The bulk adds never create or drop the store. */
  lemma {:induction false} AddDescriptorsKeepsPresence(s: Store, fws: seq<Descriptor>, z: Decoder)
    ensures AddDescriptorsFromLast(s, fws, z).Present? <==> s.Present?
    decreases |fws|
  {
    if |fws| > 0 {
      AddDescriptorsKeepsPresence(AddDescriptor(s, fws[|fws| - 1], z).store, fws[..|fws| - 1], z);
    }
  }

  /** A name under which no descriptor decompresses keeps its entry (or its absence)
      through initWithDescriptors' loop. */
  lemma {:induction false} UntouchedName(s: Store, fws: seq<Descriptor>, z: Decoder, name: string)
    requires forall j :: 0 <= j < |fws| && fws[j].name == name ==> DecompressFirmware(fws[j].data, z).None?
    ensures Lookup(AddDescriptorsFromLast(s, fws, z), name) == Lookup(s, name)
    decreases |fws|
  {
    if |fws| > 0 {
      var last := |fws| - 1;
      var s1 := AddDescriptor(s, fws[last], z).store;
      assert Lookup(s1, name) == Lookup(s, name);
      UntouchedName(s1, fws[..last], z, name);
    }
  }

  /** Because the loop runs from the last index to the first, a name given by several
      descriptors ends up holding the data of the lowest-index one among them whose
      decompression succeeds. */
  lemma {:induction false} LowestIndexWins(s: Store, fws: seq<Descriptor>, z: Decoder, i: nat)
    requires s.Present?
    requires i < |fws| && DecompressFirmware(fws[i].data, z).Some?
    requires forall j :: 0 <= j < i && fws[j].name == fws[i].name ==> DecompressFirmware(fws[j].data, z).None?
    ensures Lookup(AddDescriptorsFromLast(s, fws, z), fws[i].name) == DecompressFirmware(fws[i].data, z)
    decreases |fws|
  {
    var last := |fws| - 1;
    var s1 := AddDescriptor(s, fws[last], z).store;
    if i == last {
      UntouchedName(s1, fws[..last], z, fws[i].name);
    } else {
      LowestIndexWins(s1, fws[..last], z, i);
    }
  }

  /** One request of initWithNames' loop keeps the entry of an already stored
      candidate: a request that writes the same key settles on the same candidate and
      writes the same bytes. */
  lemma ResolvedEntryKept(s: Store, name: string, candidates: seq<Descriptor>, z: Decoder, i: nat)
    requires i < |candidates| && Lookup(s, candidates[i].name) == DecompressFirmware(candidates[i].data, z)
    requires exists resolved :: LastMatch(resolved, candidates) == Some(i)
    ensures Lookup(AddByName(s, name, candidates, z).store, candidates[i].name) == DecompressFirmware(candidates[i].data, z)
  {
    var resolved :| LastMatch(resolved, candidates) == Some(i);
    match LastMatch(name, candidates)
    case None =>
    case Some(k) =>
      if candidates[k].name == candidates[i].name {
        SameKeySameCandidate(resolved, name, candidates);
      }
  }

  /** Once a requested name's candidate is stored, the rest of initWithNames' loop keeps
      that entry. */
  lemma {:induction false} ResolvedEntryPersists(s: Store, names: seq<string>, candidates: seq<Descriptor>,
                                                 z: Decoder, i: nat)
    requires i < |candidates| && Lookup(s, candidates[i].name) == DecompressFirmware(candidates[i].data, z)
    requires exists resolved :: LastMatch(resolved, candidates) == Some(i)
    ensures Lookup(AddNamesFromLast(s, names, candidates, z), candidates[i].name) == DecompressFirmware(candidates[i].data, z)
    decreases |names|
  {
    if |names| > 0 {
      var last := |names| - 1;
      ResolvedEntryKept(s, names[last], candidates, z, i);
      ResolvedEntryPersists(AddByName(s, names[last], candidates, z).store, names[..last], candidates, z, i);
    }
  }

  /** After initWithNames' loop, every requested name that matches a candidate whose
      data decompresses is in the store under that candidate's name, holding its data,
      whatever the order and repetitions of the requested names. */
  lemma {:induction false} RequestedNamesResolved(s: Store, names: seq<string>, candidates: seq<Descriptor>,
                                                  z: Decoder, k: nat)
    requires s.Present?
    requires k < |names| && LastMatch(names[k], candidates).Some?
    requires DecompressFirmware(candidates[LastMatch(names[k], candidates).value].data, z).Some?
    ensures Lookup(AddNamesFromLast(s, names, candidates, z), candidates[LastMatch(names[k], candidates).value].name) ==
            DecompressFirmware(candidates[LastMatch(names[k], candidates).value].data, z)
    decreases |names|
  {
    var last := |names| - 1;
    var s1 := AddByName(s, names[last], candidates, z).store;
    if k == last {
      var i := LastMatch(names[k], candidates).value;
      assert IsLastMatch(names[k], candidates, i);
      assert s1 == AddDescriptor(s, candidates[i], z).store;
      ResolvedEntryPersists(s1, names[..last], candidates, z, i);
    } else {
      assert s1.Present?;
      assert names[..last][k] == names[k];
      RequestedNamesResolved(s1, names[..last], candidates, z, k);
    }
  }

  /** A requested name whose matching candidate is stored under `key` and decompresses,
      so that the add by name writes `key`'s entry. */
  predicate NameLands(name: string, candidates: seq<Descriptor>, z: Decoder, key: string)
  {
    match LastMatch(name, candidates)
    case None => false
    case Some(i) => candidates[i].name == key && DecompressFirmware(candidates[i].data, z).Some?
  }

  /** A key that no requested name lands on keeps its entry, or its absence, through
      initWithNames' loop: no other candidate ever enters the store. */
  lemma {:induction false} NameUntouched(s: Store, names: seq<string>, candidates: seq<Descriptor>,
                                         z: Decoder, key: string)
    requires forall k :: 0 <= k < |names| ==> !NameLands(names[k], candidates, z, key)
    ensures Lookup(AddNamesFromLast(s, names, candidates, z), key) == Lookup(s, key)
    decreases |names|
  {
    if |names| > 0 {
      var last := |names| - 1;
      var s1 := AddByName(s, names[last], candidates, z).store;
      match LastMatch(names[last], candidates) {
        case None =>
        case Some(i) => assert IsLastMatch(names[last], candidates, i);
      }
      assert Lookup(s1, key) == Lookup(s, key);
      NameUntouched(s1, names[..last], candidates, z, key);
    }
  }
}
