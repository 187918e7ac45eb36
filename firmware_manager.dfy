/** OpenFirmwareManager: the object a driver keeps, holding the firmware dictionary
    mFirmwares. Its methods update the dictionary in place; each is specified by the
    Registry function for the same operation on the store value `Abs()`. */
module FirmwareManager {
  import opened KernelTypes
  import opened Zlib
  import opened FirmwareNames
  import opened ResourceFetch
  import opened Registry

  class OpenFirmwareManager {
    /** Whether mFirmwares points to a dictionary (false while it is NULL). */
    var created: bool
    /** The dictionary's contents: firmware name to raw firmware bytes. */
    var firmwares: map<string, seq<byte>>

    /** The store as a value: absent while mFirmwares is NULL. */
    function Abs(): Store
      reads this
    {
      if created then Present(firmwares) else Absent
    }

    /** A freshly allocated manager: its fields are zero, so it has no dictionary. */
    constructor ()
      ensures Abs() == Absent
    {
      created := false;
      firmwares := map[];
    }

    /** initWithCapacity: init() sets mFirmwares to NULL, then a non-positive capacity
        fails; otherwise an empty dictionary is created (the capacity only sizes it). */
    method InitWithCapacity(capacity: int) returns (ok: bool)
      modifies this
      ensures ok <==> capacity > 0
      ensures Abs() == if ok then Present(map[]) else Absent
    {
      created, firmwares := false, map[];
      if capacity <= 0 {
        return false;
      }
      created, firmwares := true, map[];
      ok := true;
    }

    /** addFirmwareWithDescriptor: compressed data is decompressed first; the result is
        set under the descriptor's name, replacing any earlier entry. */
    method AddFirmwareWithDescriptor(fw: Descriptor, z: Decoder) returns (r: IOReturn)
      modifies this
      ensures Step(Abs(), r) == AddDescriptor(old(Abs()), fw, z)
    {
      if !created {
        return IOReturnInvalid;
      }
      var uncompressed := fw.data;
      if IsCompressed(fw.data) {
        var decoded := DecompressFirmware(fw.data, z);
        if decoded.None? {
          return IOReturnError;
        }
        uncompressed := decoded.value;
      }
      firmwares := firmwares[fw.name := uncompressed];
      r := IOReturnSuccess;
    }

    /** addFirmwareWithName: scans the first `numFirmwares` candidates from the last to
        the first and adds the first one whose name matches. */
    method AddFirmwareWithName(name: string, candidates: seq<Descriptor>, numFirmwares: int, z: Decoder)
      returns (r: IOReturn)
      requires numFirmwares <= |candidates|
      modifies this
      ensures Step(Abs(), r) == AddByName(old(Abs()), name, Leading(candidates, numFirmwares), z)
    {
      ghost var listed := Leading(candidates, numFirmwares);
      var n := numFirmwares;
      while n > 0
        invariant n <= numFirmwares && (n > 0 ==> n <= |listed|)
        invariant forall j :: n <= j < |listed| && 0 <= j ==> !NamesMatch(listed[j].name, name)
        invariant Abs() == old(Abs())
      {
        n := n - 1;
        if NamesMatch(candidates[n].name, name) {
          assert IsLastMatch(name, listed, n);
          r := AddFirmwareWithDescriptor(candidates[n], z);
          return;
        }
      }
      r := IOReturnUnsupported;
    }

    /** addFirmwareWithFile: requests the file from the resource loader, waits for its
        callback, then either returns a status or adds the delivered bytes under the
        file name. `loader` stands for the request, the callback and the wait. */
    method AddFirmwareWithFile(kextIdentifier: string, fileName: string,
                               loader: (string, string) -> Fetch, z: Decoder) returns (r: IOReturn)
      modifies this
      ensures Step(Abs(), r) == AddFile(old(Abs()), fileName, loader(kextIdentifier, fileName), z)
    {
      var fetch := loader(kextIdentifier, fileName);
      match PostWait(fetch)
      case ReturnStatus(code) =>
        r := code;
      case AddDelivered(data) =>
        r := AddFirmwareWithDescriptor(Descriptor(fileName, data), z);
    }

    /** removeFirmware. */
    method RemoveFirmware(name: string) returns (r: IOReturn)
      modifies this
      ensures Step(Abs(), r) == RemoveEntry(old(Abs()), name)
    {
      if !created {
        return IOReturnInvalid;
      }
      firmwares := firmwares - {name};
      r := IOReturnSuccess;
    }

    /** removeFirmwares. */
    method RemoveFirmwares() returns (r: IOReturn)
      modifies this
      ensures Step(Abs(), r) == RemoveAllEntries(old(Abs()))
    {
      if !created {
        return IOReturnInvalid;
      }
      firmwares := map[];
      r := IOReturnSuccess;
    }

    /** getFirmwareUncompressed: reads the store and changes nothing. */
    method GetFirmwareUncompressed(name: string) returns (data: Option<seq<byte>>)
      ensures data == Lookup(Abs(), name)
    {
      if !created {
        return None;
      }
      data := if name in firmwares then Some(firmwares[name]) else None;
    }

    /** initWithNames: a store sized `capacity`, then every requested name is added from
        the last to the first; the adds' results are ignored. */
    method InitWithNames(names: seq<string>, capacity: int, candidates: seq<Descriptor>, numFirmwares: int,
                         z: Decoder) returns (ok: bool)
      requires capacity <= |names| && numFirmwares <= |candidates|
      modifies this
      ensures ok <==> capacity > 0
      ensures Abs() == if ok then AddNamesFromLast(Present(map[]), names[..capacity], Leading(candidates, numFirmwares), z)
                       else Absent
    {
      ok := InitWithCapacity(capacity);
      if !ok {
        return;
      }
      ghost var listed := Leading(candidates, numFirmwares);
      var c := capacity;
      while c > 0
        invariant 0 <= c <= capacity
        invariant AddNamesFromLast(Abs(), names[..c], listed, z) ==
                  AddNamesFromLast(Present(map[]), names[..capacity], listed, z)
      {
        c := c - 1;
        assert names[..c + 1][..c] == names[..c];
        var ignored := AddFirmwareWithName(names[c], candidates, numFirmwares, z);
      }
    }

    /** initWithName: a one-entry store, then a single add by name; succeeds exactly
        when that add returns kIOReturnSuccess. */
    method InitWithName(name: string, candidates: seq<Descriptor>, numFirmwares: int, z: Decoder)
      returns (ok: bool)
      requires numFirmwares <= |candidates|
      modifies this
      ensures var step := AddByName(Present(map[]), name, Leading(candidates, numFirmwares), z);
        (ok <==> step.ret == IOReturnSuccess) && Abs() == step.store
    {
      var sized := InitWithCapacity(1);
      if !sized {
        return false;
      }
      var r := AddFirmwareWithName(name, candidates, numFirmwares, z);
      ok := r == IOReturnSuccess;
    }

    /** initWithDescriptors: a store sized `capacity`, then every descriptor is added from
        the last to the first; the adds' results are ignored. */
    method InitWithDescriptors(fws: seq<Descriptor>, capacity: int, z: Decoder) returns (ok: bool)
      requires capacity <= |fws|
      modifies this
      ensures ok <==> capacity > 0
      ensures Abs() == if ok then AddDescriptorsFromLast(Present(map[]), fws[..capacity], z) else Absent
    {
      ok := InitWithCapacity(capacity);
      if !ok {
        return;
      }
      var c := capacity;
      while c > 0
        invariant 0 <= c <= capacity
        invariant AddDescriptorsFromLast(Abs(), fws[..c], z) == AddDescriptorsFromLast(Present(map[]), fws[..capacity], z)
      {
        c := c - 1;
        assert fws[..c + 1][..c] == fws[..c];
        ghost var before := Abs();
        var ignored := AddFirmwareWithDescriptor(fws[c], z);
        assert AddDescriptorsFromLast(before, fws[..c + 1], z) == AddDescriptorsFromLast(Abs(), fws[..c], z);
      }
    }

    /** initWithDescriptor: a one-entry store, then a single add; succeeds exactly when
        that add returns kIOReturnSuccess. */
    method InitWithDescriptor(fw: Descriptor, z: Decoder) returns (ok: bool)
      modifies this
      ensures var step := AddDescriptor(Present(map[]), fw, z);
        (ok <==> step.ret == IOReturnSuccess) && Abs() == step.store
    {
      var sized := InitWithCapacity(1);
      if !sized {
        return false;
      }
      var r := AddFirmwareWithDescriptor(fw, z);
      ok := r == IOReturnSuccess;
    }

    /** initWithFiles: a store sized `capacity`, then every file is requested and added
        from the last to the first; the adds' results are ignored. */
    method InitWithFiles(kextIdentifiers: seq<string>, fileNames: seq<string>, capacity: int,
                         loader: (string, string) -> Fetch, z: Decoder) returns (ok: bool)
      requires capacity <= |kextIdentifiers| && capacity <= |fileNames|
      modifies this
      ensures ok <==> capacity > 0
      ensures Abs() == if ok then AddFilesFromLast(Present(map[]), kextIdentifiers[..capacity], fileNames[..capacity], loader, z)
                       else Absent
    {
      ok := InitWithCapacity(capacity);
      if !ok {
        return;
      }
      var c := capacity;
      while c > 0
        invariant 0 <= c <= capacity
        invariant AddFilesFromLast(Abs(), kextIdentifiers[..c], fileNames[..c], loader, z) ==
                  AddFilesFromLast(Present(map[]), kextIdentifiers[..capacity], fileNames[..capacity], loader, z)
      {
        c := c - 1;
        assert kextIdentifiers[..c + 1][..c] == kextIdentifiers[..c];
        assert fileNames[..c + 1][..c] == fileNames[..c];
        var ignored := AddFirmwareWithFile(kextIdentifiers[c], fileNames[c], loader, z);
      }
    }

    /** initWithFile: a one-entry store, then a single add from the resource loader;
        succeeds exactly when that add returns kIOReturnSuccess. */
    method InitWithFile(kextIdentifier: string, fileName: string, loader: (string, string) -> Fetch, z: Decoder)
      returns (ok: bool)
      modifies this
      ensures var step := AddFile(Present(map[]), fileName, loader(kextIdentifier, fileName), z);
        (ok <==> step.ret == IOReturnSuccess) && Abs() == step.store
    {
      var sized := InitWithCapacity(1);
      if !sized {
        return false;
      }
      var r := AddFirmwareWithFile(kextIdentifier, fileName, loader, z);
      ok := r == IOReturnSuccess;
    }
  }
}
