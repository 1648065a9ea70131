/** Whole runs of file calls on a mounted volume. */
module FatRun {
  import opened Bytes
  import opened FatLayout
  import opened FatChain
  import opened FatDir
  import opened FatFiles
  import opened FatVolume

  datatype Call =
    | CallOpen(name: seq<byte>, flags: bv32)
    | CallRead(fd: int, len: nat)
    | CallWrite(fd: int, buf: seq<byte>)
    | CallSeek(fd: int, offset: int, whence: int)
    | CallClose(fd: int)

  predicate Proper(c: Call) {
    c.CallOpen? ==> |c.name| == 11 && c.name[0] != 0 && c.name[0] != 0xE5
  }

  ghost predicate Opens(calls: seq<Call>, name: seq<byte>) {
    exists i :: 0 <= i < |calls| && calls[i].CallOpen? && calls[i].name == name
  }

  /** The files of `files0` whose name is not in `touched` are all still there, unchanged. */
  ghost predicate Untouched(files0: map<nat, File>, files: map<nat, File>, touched: set<seq<byte>>) {
    forall k :: k in files0 && files0[k].name !in touched ==> k in files && files[k] == files0[k]
  }

  /** What a client can see of a volume: its files, its descriptors, whether it is full and whether the directory
      has a slot to spare. */
  datatype Seen = Seen(files: map<nat, File>, open: seq<OpenFile>, slots: seq<SlotRef>, full: bool, spare: bool)

  ghost function See(v: Volume): Seen
    requires v.Valid()
    reads v, v.data
  {
    Seen(v.FileMap(), v.open, v.slots, v.Full(), v.HasSpare())
  }

  /** `names` remembers the name behind every open descriptor, and all of them are in `touched`. */
  ghost predicate Tracks(s: Seen, names: seq<seq<byte>>, touched: set<seq<byte>>) {
    && |names| == |s.open| == |s.slots| == FS_MAX_OPEN
    && forall fd :: 0 <= fd < FS_MAX_OPEN && s.open[fd].used ==>
         s.slots[fd].k in s.files && s.files[s.slots[fd].k].name == names[fd] && names[fd] in touched
  }

  predicate UsableIn(open: seq<OpenFile>, fd: int) { 0 <= fd < FS_MAX_OPEN && fd < |open| && open[fd].used }

  /** An open finds file k, the first of that name, or makes it empty, truncated or, if there is none and it may be
      created, new; it gives it descriptor fd unless all are used. */
  ghost predicate OpenedAs(s: Seen, name: seq<byte>, flags: bv32, s': Seen, k: nat, fd: int) {
    && k in s'.files && s'.files[k].name == name
    && (if k in s.files
        then s.files[k].name == name && forall j :: j in s.files && j < k ==> s.files[j].name != name
        else Nameless(s, name) && flags & 0x10 != 0 && s.spare)
    && s'.files == (if k in s.files && flags & 0x20 == 0 then s.files else s.files[k := File(name, 0, [])])
    && if fd == -1 then s'.open == s.open && s'.slots == s.slots && forall j :: 0 <= j < |s.open| ==> s.open[j].used
       else
         && 0 <= fd < |s.open| == |s'.open| && fd < |s.slots| == |s'.slots| && !s.open[fd].used
         && s'.open == s.open[fd := s'.open[fd]] && s'.slots == s.slots[fd := s'.slots[fd]]
         && s'.open[fd].used && s'.open[fd].flags == flags && s'.slots[fd].k == k
         && s'.open[fd].pos == if flags & 0x40 != 0 then s'.files[k].size else 0
  }

  /** A descriptor is open on a file of that name. */
  ghost predicate Busy(s: Seen, name: seq<byte>) {
    exists fd ::
      0 <= fd < |s.open| && fd < |s.slots| && s.open[fd].used && s.slots[fd].k in s.files &&
        s.files[s.slots[fd].k].name == name
  }

  lemma BusyIs(s: Seen, name: seq<byte>, fd: int)
    requires 0 <= fd < |s.open| && fd < |s.slots| && s.open[fd].used
    requires s.slots[fd].k in s.files && s.files[s.slots[fd].k].name == name
    ensures Busy(s, name)
  {
  }

  /** There is no file of that name, and none can be made. */
  ghost predicate NotFound(s: Seen, name: seq<byte>, flags: bv32) {
    Nameless(s, name) && (flags & 0x10 == 0 || !s.spare)
  }

  /** Only an open that finds no file, or that would truncate a busy one, leaves things as they are. */
  ghost predicate DidOpen(s: Seen, name: seq<byte>, flags: bv32, s': Seen) {
    || (s' == s && (NotFound(s, name, flags) || (flags & 0x20 != 0 && Busy(s, name))))
    || exists k, fd :: OpenedAs(s, name, flags, s', k, fd)
  }

  /** A read returns the slice of the descriptor's file at its position and moves the position behind it. */
  ghost predicate DidRead(s: Seen, fd: int, len: nat, s': Seen, out: seq<byte>) {
    if !UsableIn(s.open, fd) then s' == s && out == [] else
      && fd < |s.slots| && s.slots[fd].k in s.files
      && var f, pos := s.files[s.slots[fd].k].Contents(), s.open[fd].pos;
         var want := if pos >= |f| then 0 else if len < |f| - pos then len else |f| - pos;
         && out == (if want == 0 then [] else f[pos..pos + want])
         && s' == s.(open := s.open[fd := s.open[fd].(pos := pos + want)])
  }

  /** A write splices n bytes of the buffer into the descriptor's file at its position and moves on behind them. */
  ghost predicate WroteThrough(s: Seen, fd: int, buf: seq<byte>, s': Seen, n: nat) {
    && UsableIn(s.open, fd) && fd < |s.slots| && s'.slots == s.slots && |s'.open| == |s.open| && n <= |buf|
    && var k, pos := s.slots[fd].k, s.open[fd].pos;
       && k in s.files && k in s'.files && Spliced(s.files[k].raw, s'.files[k].raw, pos, buf[..n])
       && var size := if n > 0 && pos + n > s.files[k].size then pos + n else s.files[k].size;
          && s'.files == s.files[k := File(s.files[k].name, size, s'.files[k].raw)]
          && s'.open == s.open[fd := s.open[fd].(first := s'.open[fd].first, size := size, pos := pos + n)]
  }

  /** Another descriptor is open on the same directory entry. */
  ghost predicate Doubled(open: seq<OpenFile>, fd: int) {
    exists j ::
      0 <= j < FS_MAX_OPEN && j < |open| && 0 <= fd < |open| && j != fd && open[j].used &&
        open[j].dirOff == open[fd].dirOff
  }

  /** Only a write without a usable, writable descriptor of its own, or of an empty file on a full volume, changes
      nothing; any other writes the whole buffer unless the volume is full after it. */
  ghost predicate DidWrite(s: Seen, fd: int, buf: seq<byte>, s': Seen) {
    || (s' == s &&
      (!UsableIn(s.open, fd) || !Writable(s.open[fd].flags) || Doubled(s.open, fd) ||
        (s.open[fd].first == 0 && s.full)))
    || exists n: nat :: WroteThrough(s, fd, buf, s', n) && (n < |buf| ==> s'.full)
  }

  predicate Writable(flags: bv32) { flags & 0x02 != 0 || flags & 0x03 == 0x03 }

  /** Where a seek counts from: the start, the position, or the end of the descriptor's file. */
  ghost function SeekFrom(s: Seen, fd: int, whence: int): nat
    requires UsableIn(s.open, fd)
  {
    if whence == 1 then s.open[fd].pos
    else if whence == 2 && fd < |s.slots| && s.slots[fd].k in s.files then s.files[s.slots[fd].k].size
    else 0
  }

  ghost predicate DidSeek(s: Seen, fd: int, offset: int, whence: int, s': Seen) {
    if UsableIn(s.open, fd) && 0 <= whence <= 2 && SeekFrom(s, fd, whence) + offset >= 0
    then s' == s.(open := s.open[fd := s.open[fd].(pos := (SeekFrom(s, fd, whence) + offset) % 0x1_0000_0000)])
    else s' == s
  }

  ghost predicate DidClose(s: Seen, fd: int, s': Seen) {
    s' == if UsableIn(s.open, fd) then s.(open := s.open[fd := CLOSED]) else s
  }

  /** One call, with the bytes it returned. */
  ghost predicate Next(s: Seen, c: Call, s': Seen, out: seq<byte>) {
    match c
    case CallOpen(name, flags) => DidOpen(s, name, flags, s')
    case CallRead(fd, len) => DidRead(s, fd, len, s', out)
    case CallWrite(fd, buf) => DidWrite(s, fd, buf, s')
    case CallSeek(fd, offset, whence) => DidSeek(s, fd, offset, whence, s')
    case CallClose(fd) => DidClose(s, fd, s')
  }

  lemma DescriptorFile(v: Volume, fd: int)
    requires v.Valid() && v.Usable(fd)
    ensures fd < |v.slots| && v.slots[fd].k in v.FileMap()
  {
    hide Volume.VolumeOk, Volume.FileMap;
  }

  method OpenElsewhere(v: Volume, names: seq<seq<byte>>, name: seq<byte>) returns (b: bool)
    requires |v.open| == |names| == FS_MAX_OPEN
    ensures b <==> exists fd :: 0 <= fd < FS_MAX_OPEN && v.open[fd].used && names[fd] == name
  {
    for i := 0 to FS_MAX_OPEN
      invariant forall fd :: 0 <= fd < i && v.open[fd].used ==> names[fd] != name
    {
      if v.open[i].used && names[i] == name {
        return true;
      }
    }
    return false;
  }

  method Shared(v: Volume, fd: int) returns (b: bool)
    requires |v.open| == FS_MAX_OPEN && 0 <= fd < FS_MAX_OPEN
    ensures b <==>
              exists j :: 0 <= j < FS_MAX_OPEN && j != fd && v.open[j].used && v.open[j].dirOff == v.open[fd].dirOff
  {
    for i := 0 to FS_MAX_OPEN
      invariant forall j :: 0 <= j < i && j != fd && v.open[j].used ==> v.open[j].dirOff != v.open[fd].dirOff
    {
      if i != fd && v.open[i].used && v.open[i].dirOff == v.open[fd].dirOff {
        return true;
      }
    }
    return false;
  }

  /** fs_open, as one of the two things it does. */
  method PlainOpen(v: Volume, name: seq<byte>, flags: bv32) returns (fd: int, ghost k: nat)
    requires v.Valid() && Proper(CallOpen(name, flags))
    requires flags & 0x20 != 0 ==> !Busy(See(v), name)
    modifies v, v.data
    ensures v.Valid() && -1 <= fd < FS_MAX_OPEN
    ensures OpenedAs(old(See(v)), name, flags, See(v), k, fd) ||
            (fd == -1 && See(v) == old(See(v)) && NotFound(See(v), name, flags))
  {
    hide Volume.VolumeOk, Volume.FileMap, Addresses, Busy, NoFree, View, Raw;
    forall j | 0 <= j < FS_MAX_OPEN && v.open[j].used && flags & 0x20 != 0
      ensures v.FileMap()[v.slots[j].k].name != name
    {
      DescriptorFile(v, j);
      if v.FileMap()[v.slots[j].k].name == name {
        BusyIs(See(v), name, j);
      }
    }
    ghost var how;
    fd, how, k := v.Open(name, flags);
  }

  /** Open, unless that would truncate a file that is open already. */
  method CarefulOpen(v: Volume, names: seq<seq<byte>>, name: seq<byte>, flags: bv32, ghost touched: set<seq<byte>>)
    returns (names': seq<seq<byte>>)
    requires v.Valid() && Tracks(See(v), names, touched)
    requires Proper(CallOpen(name, flags)) && name in touched
    modifies v, v.data
    ensures v.Valid() && Tracks(See(v), names', touched)
    ensures Untouched(old(See(v)).files, See(v).files, touched) && DidOpen(old(See(v)), name, flags, See(v))
  {
    hide Volume.Valid, Volume.FileMap, OpenedAs, Busy, Tracks, NotFound, Untouched;
    names' := names;
    TracksBusy(See(v), names, touched, name);
    UntouchedSame(See(v).files, touched);
    var busy := OpenElsewhere(v, names, name);
    if !busy || flags & 0x20 == 0 {
      var fd, k := PlainOpen(v, name, flags);
      if OpenedAs(old(See(v)), name, flags, See(v), k, fd) {
        OpenedTracks(old(See(v)), name, flags, See(v), k, fd, names, touched);
      }
      if fd != -1 {
        names' := names[fd := name];
      }
    }
  }

  ghost predicate Nameless(s: Seen, name: seq<byte>) { forall k :: k in s.files ==> s.files[k].name != name }

  lemma UntouchedSame(files: map<nat, File>, touched: set<seq<byte>>)
    ensures Untouched(files, files, touched)
  {
  }

  lemma MovedTracks(s: Seen, s': Seen, names: seq<seq<byte>>, touched: set<seq<byte>>)
    requires Tracks(s, names, touched) && Moved(s, s')
    ensures Tracks(s', names, touched) && Untouched(s.files, s'.files, touched)
  {
  }

  lemma TracksBusy(s: Seen, names: seq<seq<byte>>, touched: set<seq<byte>>, name: seq<byte>)
    requires Tracks(s, names, touched)
    ensures |names| == |s.open| == FS_MAX_OPEN
    ensures Busy(s, name) <==> exists fd :: 0 <= fd < FS_MAX_OPEN && s.open[fd].used && names[fd] == name
  {
  }

  lemma OpenedTracks(s: Seen, name: seq<byte>, flags: bv32, s': Seen, k: nat, fd: int, names: seq<seq<byte>>,
                     touched: set<seq<byte>>)
    requires OpenedAs(s, name, flags, s', k, fd) && Tracks(s, names, touched) && name in touched &&
             -1 <= fd < FS_MAX_OPEN
    ensures fd == -1 ==> Tracks(s', names, touched)
    ensures fd != -1 ==> |names| == FS_MAX_OPEN && Tracks(s', names[fd := name], touched)
    ensures Untouched(s.files, s'.files, touched)
  {
  }

  /** Write, unless another descriptor is open on the same file. */
  method CarefulWrite(v: Volume, names: seq<seq<byte>>, fd: int, buf: seq<byte>, ghost touched: set<seq<byte>>)
    requires v.Valid() && Tracks(See(v), names, touched)
    modifies v, v.data
    ensures v.Valid() && Tracks(See(v), names, touched)
    ensures Untouched(old(See(v)).files, See(v).files, touched) && DidWrite(old(See(v)), fd, buf, See(v))
  {
    hide Volume.VolumeOk, Volume.FileMap, Addresses, Spliced, NoFree, SpareIn, View, Raw;
    if v.Usable(fd) {
      var shared := Shared(v, fd);
      if !shared {
        var n := v.WriteFd(fd, buf);
        if n != -1 {
          assert WroteThrough(old(See(v)), fd, buf, See(v), n);
        }
      }
    }
  }

  /** The descriptors in use after a call were in use before it, and nothing else has changed. */
  ghost predicate Moved(s: Seen, s': Seen) {
    && s' == s.(open := s'.open) && |s'.open| == |s.open|
    && forall fd :: 0 <= fd < |s.open| && s'.open[fd].used ==> s.open[fd].used
  }

  method Read(v: Volume, fd: int, len: nat) returns (out: seq<byte>)
    requires v.Valid()
    modifies v, v.data
    ensures v.Valid() && DidRead(old(See(v)), fd, len, See(v), out) && Moved(old(See(v)), See(v))
  {
    hide Volume.VolumeOk, Volume.FileMap, Coherent, NoFree, SpareIn, View, Raw;
    if v.Usable(fd) {
      DescriptorFile(v, fd);
    }
    var n;
    n, out := v.ReadFd(fd, len);
    if n == -1 {
      out := [];
    }
  }

  method Seek(v: Volume, fd: int, offset: int, whence: int)
    requires v.Valid()
    modifies v
    ensures v.Valid() && DidSeek(old(See(v)), fd, offset, whence, See(v)) && Moved(old(See(v)), See(v))
  {
    hide Volume.VolumeOk, Volume.FileMap, Coherent, NoFree, SpareIn, View, Raw;
    if v.Usable(fd) {
      DescriptorFile(v, fd);
    }
    var _ := v.LseekFd(fd, offset, whence);
  }

  method Close(v: Volume, fd: int)
    requires v.Valid()
    modifies v
    ensures v.Valid() && DidClose(old(See(v)), fd, See(v)) && Moved(old(See(v)), See(v))
  {
    hide Volume.VolumeOk, Volume.FileMap, Coherent, NoFree, SpareIn, View, Raw;
    var _ := v.Close(fd);
  }

  /** One call of a client that never truncates a file it has open and never writes through
      one of two descriptors of the same file. */
  method Step(v: Volume, names: seq<seq<byte>>, c: Call, ghost touched: set<seq<byte>>)
    returns (names': seq<seq<byte>>, out: seq<byte>)
    requires v.Valid() && Tracks(See(v), names, touched) && Proper(c)
    requires c.CallOpen? ==> c.name in touched
    modifies v, v.data
    ensures v.Valid() && Tracks(See(v), names', touched)
    ensures Untouched(old(See(v)).files, See(v).files, touched) && Next(old(See(v)), c, See(v), out)
  {
    hide Volume.Valid, See, Tracks, Untouched, Moved, DidOpen, DidRead, DidWrite, DidSeek, DidClose;
    names', out := names, [];
    match c
    case CallOpen(name, flags) =>
      names' := CarefulOpen(v, names, name, flags, touched);
    case CallRead(fd, len) =>
      out := Read(v, fd, len);
      MovedTracks(old(See(v)), See(v), names, touched);
    case CallWrite(fd, buf) =>
      CarefulWrite(v, names, fd, buf, touched);
    case CallSeek(fd, offset, whence) =>
      Seek(v, fd, offset, whence);
      MovedTracks(old(See(v)), See(v), names, touched);
    case CallClose(fd) =>
      Close(v, fd);
      MovedTracks(old(See(v)), See(v), names, touched);
  }

  /** After any sequence of calls on a freshly mounted volume the volume is valid again, and every
      file that was never opened is exactly as before; `states` are what
      each call left and `outs` what it returned. */
  method Run(v: Volume, calls: seq<Call>) returns (ghost states: seq<Seen>, outs: seq<seq<byte>>)
    requires v.Valid() && forall fd :: 0 <= fd < FS_MAX_OPEN ==> !v.open[fd].used
    requires forall i :: 0 <= i < |calls| ==> Proper(calls[i])
    modifies v, v.data
    ensures v.Valid()
    ensures |states| == |calls| + 1 && |outs| == |calls| && states[0] == old(See(v)) && states[|calls|] == See(v)
    ensures forall i :: 0 <= i < |calls| ==> Next(states[i], calls[i], states[i + 1], outs[i])
    ensures forall k :: k in old(v.FileMap()) && !Opens(calls, old(v.FileMap())[k].name) ==>
      k in v.FileMap() && v.FileMap()[k] == old(v.FileMap())[k]
  {
    hide Volume.VolumeOk, Volume.FileMap, Coherent, Next;
    ghost var touched := set i | 0 <= i < |calls| && calls[i].CallOpen? :: calls[i].name;
    ghost var files0 := v.FileMap();
    states, outs := [See(v)], [];
    var names: seq<seq<byte>> := seq(FS_MAX_OPEN, _ => []);
    for i := 0 to |calls|
      invariant v.Valid() && Tracks(See(v), names, touched)
      invariant Untouched(files0, v.FileMap(), touched)
      invariant |states| == i + 1 && |outs| == i && states[0] == old(See(v)) && states[i] == See(v)
      invariant forall j :: 0 <= j < i ==> Next(states[j], calls[j], states[j + 1], outs[j])
    {
      var out;
      names, out := Step(v, names, calls[i], touched);
      states, outs := states + [See(v)], outs + [out];
    }
  }

  // ----- seeking to the end

  /** At the end of a file there is nothing to read. */
  method ReadAtEnd(v: Volume, fd: int, len: nat) returns (out: seq<byte>)
    requires v.Valid() && v.Usable(fd)
    modifies v, v.data
    ensures v.Valid() && out == [] && v.FileMap() == old(v.FileMap())
  {
    hide Volume.VolumeOk, Volume.FileMap, Coherent;
    DescriptorSize(v, fd);
    var end := v.LseekFd(fd, 0, 2);
    var n;
    n, out := v.ReadFd(fd, len);
  }

  /** A full write at the end of a file appends. */
  method AppendAtEnd(v: Volume, fd: int, buf: seq<byte>) returns (r: int)
    requires v.Valid() && v.Usable(fd) && !Doubled(v.open, fd)
    modifies v, v.data
    ensures v.Valid() && old(v.slots)[fd].k in old(v.FileMap()) && old(v.slots)[fd].k in v.FileMap()
    ensures var k := old(v.slots)[fd].k; var f, f' := old(v.FileMap())[k], v.FileMap()[k];
      && (r == |buf| ==> f'.Contents() == f.Contents() + buf && f'.name == f.name)
      && v.FileMap() == old(v.FileMap())[k := f']
  {
    hide Volume.VolumeOk, Volume.FileMap, Coherent, Spliced;
    DescriptorSize(v, fd);
    ghost var k := v.slots[fd].k;
    var end := v.LseekFd(fd, 0, 2);
    r := v.WriteFd(fd, buf);
    if r == |buf| {
      ghost var f, f' := old(v.FileMap())[k], v.FileMap()[k];
      assert buf[..r] == buf;
      SplicedAppend(f.raw, f'.raw, f.size, buf);
    }
  }

  lemma DescriptorSize(v: Volume, fd: int)
    requires v.Valid() && v.Usable(fd)
    ensures fd < |v.slots| && v.slots[fd].k in v.FileMap()
    ensures v.FileMap()[v.slots[fd].k].size <= |v.FileMap()[v.slots[fd].k].raw|
    ensures v.FileMap()[v.slots[fd].k].size < 0x1_0000_0000
  {
    hide Volume.VolumeOk, Volume.FileMap, Addresses;
    DescriptorFile(v, fd);
    v.FileFacts(v.slots[fd], v.open[fd].dirOff);
  }
}
