/** The two readers of an archive: `tfOption`, which prints the names it holds,
    and `extractFiles`, which recreates its files and directories.

    Both read the 4-byte count, then that many headers; after a file's header
    the lister skips `size` bytes with a seek, while the extractor reads them.
    Neither checks that a read delivered what it asked for: a short read leaves
    the rest of the buffer as it was (`blank`, the bytes of a default-made
    header, or `stale`, what an uninitialised buffer holds), and the stream,
    once failed, delivers nothing more. */
module Reader {
  import opened Bytes
  import opened Decimal
  import opened Entries
  import opened Format
  import opened Disk
  import opened Stream

  /** The count at the head of the archive, and where the stream is after it. */
  function ReadCount(data: seq<byte>, stale: byte): (r: (int, Cursor))
    ensures IsInt32(r.0)
    ensures |data| >= 4 ==> r == (DecodeInt32(data[..4]), Cursor(4, false))
  {
    var (got, c) := ReadAt(data, Start, 4);
    (DecodeInt32(Overlay(got, Uninit(4, stale))), c)
  }

  /** How many times the loop `for (i = 0; i < count; i++)` runs. */
  function Rounds(count: int): nat {
    if count < 0 then 0 else count
  }

  /** One header read into a default-made `File` (whose bytes are `blank`). */
  function ReadHeader(data: seq<byte>, c: Cursor, blank: seq<byte>): (r: (Entry, Cursor))
    requires |blank| == H
    ensures !c.fail && c.pos + H <= |data| ==> r == (Decode(data[c.pos..c.pos + H]), Cursor(c.pos + H, false))
    ensures c.fail ==> r == (Decode(blank), c)
  {
    var (got, c1) := ReadAt(data, c, H);
    (Decode(Overlay(got, blank)), c1)
  }

  // ---------------------------------------------------------------- listing

  /** What one pass of the listing loop prints, the exception it throws, if
      any, and where it leaves the stream. */
  datatype Line = Line(name: string, fault: Option<Fault>, next: Cursor)

  /** One pass of the listing loop: read a header and print its name; for a
      file, seek past its content. The name is printed before `stoi` can throw. */
  function ListStep(data: seq<byte>, c: Cursor, blank: seq<byte>): (l: Line)
    requires |blank| == H
    ensures l.name == ReadHeader(data, c, blank).0.name
    ensures l.fault.Some? ==> l.fault == Some(BadSize(ReadHeader(data, c, blank).0.size))
    ensures ReadHeader(data, c, blank).0.isDir ==> l == Line(l.name, None, ReadHeader(data, c, blank).1)
  {
    var (e, c1) := ReadHeader(data, c, blank);
    if e.isDir then Line(e.name, None, c1)
    else match Stoi(e.size)
      case None => Line(e.name, Some(BadSize(e.size)), c1)
      case Some(n) => Line(e.name, None, SeekAt(c1, n))
  }

  /** What the listing prints, the exception that ends it, if any, and where
      it leaves the stream. */
  datatype Listing = Listing(names: seq<string>, fault: Option<Fault>, end: Cursor)

  /** The last `k` passes of the listing loop, starting at `c`. */
  function ListFrom(data: seq<byte>, c: Cursor, k: nat, blank: seq<byte>): (l: Listing)
    requires |blank| == H
    ensures |l.names| <= k
    ensures l.fault == None ==> |l.names| == k
    ensures k > 0 ==> |l.names| >= 1 && l.names[0] == ReadHeader(data, c, blank).0.name
    decreases k
  {
    if k == 0 then Listing([], None, c)
    else
      var s := ListStep(data, c, blank);
      if s.fault.Some? then Listing([s.name], s.fault, s.next)
      else
        var rest := ListFrom(data, s.next, k - 1, blank);
        Listing([s.name] + rest.names, rest.fault, rest.end)
  }

  /** What `tfOption` prints for the archive `data`, and how it ends. */
  function List(data: seq<byte>, blank: seq<byte>, stale: byte): Listing
    requires |blank| == H
  {
    var (count, c) := ReadCount(data, stale);
    ListFrom(data, c, Rounds(count), blank)
  }

  /** `tfOption` on the archive `data`. */
  method ListFiles(data: seq<byte>, blank: seq<byte>, stale: byte) returns (printed: seq<string>, fault: Option<Fault>)
    requires |blank| == H
    ensures printed == List(data, blank, stale).names
    ensures fault == List(data, blank, stale).fault
  {
    var infile := new InStream(data);
    var got := infile.Read(4);
    var count := DecodeInt32(Overlay(got, Uninit(4, stale)));
    ghost var c := infile.at;
    printed, fault := ListLoop(infile, count, blank);
    ListFromRuns(data, c, Rounds(count), blank);
  }

  /** The loop of `tfOption`, `count` times over `infile`. */
  method ListLoop(infile: InStream, count: int, blank: seq<byte>) returns (printed: seq<string>, fault: Option<Fault>)
    requires |blank| == H
    modifies infile
    ensures Listing(printed, fault, infile.at) == RunLines(ListPass(infile.data, blank), old(infile.at), Rounds(count))
  {
    ghost var whole := RunLines(ListPass(infile.data, blank), infile.at, Rounds(count));
    ghost var k := Rounds(count);
    printed := [];
    var i := 0;
    while i < count
      invariant 0 <= i <= Rounds(count) && k == Rounds(count) - i
      invariant Printed(printed, infile.data, infile.at, k, blank) == whole
    {
      var name;
      name, fault := ListNextPass(infile, blank, whole, printed, k);
      printed := printed + [name];
      if fault.Some? {
        return;
      }
      i, k := i + 1, k - 1;
    }
    return printed, None;
  }

  /** The listing as it stands `k` passes before the end of the loop, at `c`,
      after `printed`: those names, then what the remaining passes print. */
  ghost function Printed(printed: seq<string>, data: seq<byte>, c: Cursor, k: nat, blank: seq<byte>): Listing
    requires |blank| == H
  {
    var rest := RunLines(ListPass(data, blank), c, k);
    Listing(printed + rest.names, rest.fault, rest.end)
  }

  /** One pass of the listing loop, `k` passes before its end, after `printed`:
      it prints the next name and either throws, ending the listing `whole`, or
      leaves the last `k - 1` passes to finish it. */
  method ListNextPass(infile: InStream, blank: seq<byte>, ghost whole: Listing, ghost printed: seq<string>, ghost k: nat)
    returns (name: string, fault: Option<Fault>)
    requires |blank| == H && k > 0
    requires Printed(printed, infile.data, infile.at, k, blank) == whole
    modifies infile
    ensures fault.Some? ==> whole == Listing(printed + [name], fault, infile.at)
    ensures fault.None? ==> Printed(printed + [name], infile.data, infile.at, k - 1, blank) == whole
  {
    ghost var c := infile.at;
    name, fault := ListEntry(infile, blank);
    PrintedNext(printed, infile.data, c, k, blank, Line(name, fault, infile.at));
  }

  /** What one pass adds to the listing. */
  lemma PrintedNext(printed: seq<string>, data: seq<byte>, c: Cursor, k: nat, blank: seq<byte>, l: Line)
    requires |blank| == H && k > 0 && l == ListStep(data, c, blank)
    ensures l.fault.Some? ==> Printed(printed, data, c, k, blank) == Listing(printed + [l.name], l.fault, l.next)
    ensures l.fault.None? ==> Printed(printed, data, c, k, blank) == Printed(printed + [l.name], data, l.next, k - 1, blank)
  {
    assert ListPass(data, blank)(c) == l;
    AppendAssoc(printed, [l.name], RunLines(ListPass(data, blank), l.next, k - 1).names);
  }

  /** One pass of the listing loop on the stream `infile`. */
  method ListEntry(infile: InStream, blank: seq<byte>) returns (name: string, fault: Option<Fault>)
    requires |blank| == H
    modifies infile
    ensures Line(name, fault, infile.at) == ListStep(infile.data, old(infile.at), blank)
  {
    var got := infile.Read(H);
    var curr := Decode(Overlay(got, blank));
    name := curr.name;
    if !curr.isDir {
      var size := Stoi(curr.size);
      if size.None? {
        return name, Some(BadSize(curr.size));
      }
      infile.SeekCur(size.value);
    }
    return name, None;
  }

  // ------------------------------------------------------------- extraction

  /** An entry read back, with the bytes read for it (none for a directory). */
  datatype Item = Item(header: Entry, content: seq<byte>)

  /** What one pass of the extraction loop reads, the exception it throws, if
      any, and where it leaves the stream. */
  datatype Step = Step(item: Item, fault: Option<Fault>, next: Cursor)

  /** One pass of the extraction loop, as far as the archive is concerned: read
      a header; for a file, parse its size, allocate a buffer of that many bytes
      and read the content into it. */
  function ExtractStep(data: seq<byte>, c: Cursor, blank: seq<byte>, stale: byte): (s: Step)
    requires |blank| == H
  {
    var (e, c1) := ReadHeader(data, c, blank);
    if e.isDir then Step(Item(e, []), None, c1)
    else match Stoi(e.size)
      case None => Step(Item(e, []), Some(BadSize(e.size)), c1)
      case Some(n) =>
        if n < 0 then Step(Item(e, []), Some(BadAlloc(n)), c1)
        else
          var (got, c2) := ReadAt(data, c1, n);
          Step(Item(e, Overlay(got, Uninit(n, stale))), None, c2)
  }

  /** What one extraction pass reads: the header at `c`; nothing more for a
      directory, which never throws; for a file, a buffer of exactly the size
      its header gives, unless that size does not parse or is negative. */
  lemma ExtractStepShape(data: seq<byte>, c: Cursor, blank: seq<byte>, stale: byte)
    requires |blank| == H
    ensures var s := ExtractStep(data, c, blank, stale);
            && s.item.header == ReadHeader(data, c, blank).0
            && (s.item.header.isDir ==> s == Step(Item(s.item.header, []), None, ReadHeader(data, c, blank).1))
            && (s.fault.Some? ==> !s.item.header.isDir && s.next == ReadHeader(data, c, blank).1)
            && (s.fault == None && !s.item.header.isDir ==>
                  Stoi(s.item.header.size).Some? && |s.item.content| == Stoi(s.item.header.size).value)
  {
  }

  /** The entry at which extraction threw, and what it threw. */
  datatype Stop = Stop(header: Entry, fault: Fault)

  /** The entries extraction gets through, the one it stops at, if any, and
      where it leaves the stream. */
  datatype Scan = Scan(items: seq<Item>, stop: Option<Stop>, end: Cursor)

  /** The last `k` passes of the extraction loop, starting at `c`. */
  function ExtractFrom(data: seq<byte>, c: Cursor, k: nat, blank: seq<byte>, stale: byte): (s: Scan)
    requires |blank| == H
    ensures |s.items| <= k
    ensures s.stop == None ==> |s.items| == k
    ensures s.stop.Some? ==> !s.stop.value.header.isDir
    decreases k
  {
    if k == 0 then Scan([], None, c)
    else
      var s := ExtractStep(data, c, blank, stale);
      if s.fault.Some? then Scan([], Some(Stop(s.item.header, s.fault.value)), s.next)
      else
        var rest := ExtractFrom(data, s.next, k - 1, blank, stale);
        Scan([s.item] + rest.items, rest.stop, rest.end)
  }

  /** What `extractFiles` reads from the archive `data`. */
  function Extract(data: seq<byte>, blank: seq<byte>, stale: byte): Scan
    requires |blank| == H
  {
    var (count, c) := ReadCount(data, stale);
    ExtractFrom(data, c, Rounds(count), blank, stale)
  }

  /** What one pass of the extraction loop does to the file system `fs` for an
      entry it gets through; `now` is the time at which files are written.

      A file is touched with its stamp, then opened for output and written,
      then given its mode. A directory is made and touched only if `fs::exists`
      finds nothing at its path (`Finds`); it is given its mode in every case.
      A name ending in `/` over a regular file reaches nothing, so that entry
      leaves the file system as it was. */
  function Restore(fs: Fs, item: Item, now: string): Fs
  {
    var e := item.header;
    if !e.isDir then
      ModeSet(WrittenOut(Touched(fs, e.name, e.stamp), e.name, item.content, now), e.name, e.pmode)
    else if Finds(fs, e.name) then ModeSet(fs, e.name, e.pmode)
    else ModeSet(Touched(DirMade(fs, e.name, now), e.name, e.stamp), e.name, e.pmode)
  }

  /** What `Restore` leaves at the entry's key: a file written there with the
      entry's content and mode, a directory made there or given the entry's
      mode, or nothing changed where the system cannot reach or create it. */
  lemma RestoreShape(fs: Fs, item: Item, now: string)
    ensures SameElsewhere(fs, Restore(fs, item, now), Key(item.header.name))
    ensures var r := Restore(fs, item, now); var e := item.header; var k := Key(e.name);
            !e.isDir && !Slashed(e.name) && ((k in fs && fs[k].File?) || (k !in fs && CanCreate(fs, e.name))) ==>
              k in r && r[k] == File(item.content, now, e.pmode)
    ensures var r := Restore(fs, item, now); var e := item.header; var k := Key(e.name);
            !e.isDir && k in fs && fs[k].Dir? ==>
              k in r && r[k] == Dir(e.stamp, e.pmode)
    ensures var r := Restore(fs, item, now); var e := item.header; var k := Key(e.name);
            e.isDir && Finds(fs, e.name) ==> k in r && r[k] == fs[k].(perm := e.pmode)
    ensures var r := Restore(fs, item, now); var e := item.header; var k := Key(e.name);
            e.isDir && k !in fs && CanCreate(fs, e.name) ==> k in r && r[k] == Dir(e.stamp, e.pmode)
    ensures var r := Restore(fs, item, now); var e := item.header; var k := Key(e.name);
            || (k !in fs && !CanCreate(fs, e.name))
            || (k in fs && !Finds(fs, e.name))
            || (!e.isDir && k !in fs && Slashed(e.name))
            ==> r == fs
  {
  }

  /** The passes that got through, one after the other. */
  function RestoreAll(fs: Fs, items: seq<Item>, now: string): Fs
    decreases |items|
  {
    if items == [] then fs else RestoreAll(Restore(fs, items[0], now), items[1..], now)
  }

  /** `jtar -cf x.jtar d/` names the directory `d/` and the file in it `d/a`:
      extracting both where nothing exists makes the directory `d` and the
      file in it. */
  lemma RestoreSlashedDir(d: Entry, f: Entry, content: seq<byte>, now: string)
    requires d.name == "d/" && d.isDir && f.name == "d/a" && !f.isDir
    ensures var r := RestoreAll(map[], [Item(d, []), Item(f, content)], now);
            "d" in r && r["d"] == Dir(d.stamp, d.pmode) && "d/a" in r && r["d/a"] == File(content, now, f.pmode)
  {
    assert KeyLength("d/", 2) == KeyLength("d/", 1) == 1;
    assert Key("d/") == "d";
    assert KeyLength("d/a", 3) == 3 && KeyLength("d", 1) == 1;
    assert Key("d/a") == "d/a" && !Slashed("d/a") && LastSlash("d/a") == 1;
    assert "d/a"[..1] == "d" && Key("d") == "d" && Parent("d/a") == "d";
    var items := [Item(d, []), Item(f, content)];
    var fs1 := Restore(map[], items[0], now);
    assert fs1["d"] == Dir(d.stamp, d.pmode);
    assert "d/a" !in fs1 && CanCreate(fs1, "d/a");
    var fs2 := Restore(fs1, items[1], now);
    assert fs2["d/a"] == File(content, now, f.pmode) && fs2["d"] == fs1["d"];
    assert items[1..][1..] == [];
    calc {
      RestoreAll(map[], items, now);
      RestoreAll(fs1, items[1..], now);
      RestoreAll(fs2, items[1..][1..], now);
      fs2;
    }
  }

  /** An entry named `d/` over a regular file `d`, a directory entry or a file
      entry, changes nothing: `fs::exists("d/")` is false, `mkdir d/` finds `d`
      there, and `touch`, the output `fstream` and `chmod` cannot reach `d`
      through `d/`. */
  lemma SlashedOverFile(e: Entry, c: seq<byte>, content: seq<byte>, now: string)
    requires e.name == "d/"
    ensures var fs := map["d" := File(c, "t0", "600")];
            Restore(fs, Item(e, content), now) == fs
  {
    assert KeyLength("d/", 2) == KeyLength("d/", 1) == 1;
    assert Key("d/") == "d" && Slashed("d/");
  }

  /** What one pass of the extraction loop does to the file system: the
      restoration of the entry it got through, or the touch of the file it
      threw at. */
  function Applied(fs: Fs, s: Step, now: string): Fs {
    if s.fault.Some? then Halt(fs, Some(Stop(s.item.header, s.fault.value))) else Restore(fs, s.item, now)
  }

  /** The pass that threw: its file had already been touched. */
  function Halt(fs: Fs, stop: Option<Stop>): Fs {
    match stop
      case None => fs
      case Some(Stop(e, _)) => Touched(fs, e.name, e.stamp)
  }

  /** The file system after extraction has read `scan`, starting from `fs`. */
  function Extracted(fs: Fs, scan: Scan, now: string): Fs {
    Halt(RestoreAll(fs, scan.items, now), scan.stop)
  }

  /** `extractFiles` on the archive `data`, changing `disk`; it returns the
      exception that ended it, if any. */
  method ExtractFiles(data: seq<byte>, disk: FileSystem, blank: seq<byte>, stale: byte, now: string)
    returns (fault: Option<Fault>)
    requires |blank| == H
    modifies disk
    ensures disk.files == Extracted(old(disk.files), Extract(data, blank, stale), now)
    ensures fault == FaultOf(Extract(data, blank, stale).stop)
  {
    var infile := new InStream(data);
    var got := infile.Read(4);
    var count := DecodeInt32(Overlay(got, Uninit(4, stale)));
    ghost var fs0, c0 := disk.files, infile.at;
    ghost var stop;
    fault, stop := ExtractLoop(infile, disk, count, blank, stale, now);
    RemainingDone(fs0, data, c0, Rounds(count), blank, stale, now, disk.files, stop);
  }

  /** The exception a stop throws. */
  function FaultOf(stop: Option<Stop>): (f: Option<Fault>)
    ensures f.Some? <==> stop.Some?
  {
    if stop.Some? then Some(stop.value.fault) else None
  }

  /** The loop of `extractFiles`, `count` times over `infile`: it leaves the
      file system as those passes do and stops where they stop, throwing that
      stop's exception. */
  method ExtractLoop(infile: InStream, disk: FileSystem, count: int, blank: seq<byte>, stale: byte, now: string)
    returns (fault: Option<Fault>, ghost stop: Option<Stop>)
    requires |blank| == H
    modifies infile, disk
    ensures (disk.files, stop) == Remaining(old(disk.files), infile.data, old(infile.at), Rounds(count), blank, stale, now)
    ensures fault == FaultOf(stop)
  {
    ghost var goal := Remaining(old(disk.files), infile.data, old(infile.at), Rounds(count), blank, stale, now);
    ghost var k := Rounds(count);
    var i := 0;
    while i < count
      invariant 0 <= i <= Rounds(count) && k == Rounds(count) - i
      invariant Remaining(disk.files, infile.data, infile.at, k, blank, stale, now) == goal
    {
      fault, stop := ExtractNextPass(infile, disk, blank, stale, now, k, goal);
      if fault.Some? {
        return;
      }
      i, k := i + 1, k - 1;
    }
    RemainingNone(disk.files, infile.data, infile.at, blank, stale, now);
    return None, None;
  }

  /** One pass of the extraction loop, seen from the `k` passes still to run:
      it either ends extraction where they all would (`goal`), at the header
      it threw at, or leaves the other `k - 1` to do what all `k` would. */
  method ExtractNextPass(infile: InStream, disk: FileSystem, blank: seq<byte>, stale: byte, now: string,
                         ghost k: nat, ghost goal: (Fs, Option<Stop>))
    returns (fault: Option<Fault>, ghost stop: Option<Stop>)
    requires |blank| == H && k > 0
    requires Remaining(disk.files, infile.data, infile.at, k, blank, stale, now) == goal
    modifies infile, disk
    ensures fault == FaultOf(stop)
    ensures fault.Some? ==> (disk.files, stop) == goal
    ensures fault.None? ==> Remaining(disk.files, infile.data, infile.at, k - 1, blank, stale, now) == goal
  {
    ghost var fs, c := disk.files, infile.at;
    fault := ExtractEntry(infile, disk, blank, stale, now);
    var header := ExtractStep(infile.data, c, blank, stale).item.header;
    stop := if fault.Some? then Some(Stop(header, fault.value)) else None;
    ExtractedNext(fs, disk.files, infile.data, c, infile.at, k, fault, blank, stale, now);
  }

  /** What the passes leave and where they stop, as `Extracted` and `ExtractFrom` say. */
  lemma RemainingDone(fs0: Fs, data: seq<byte>, c0: Cursor, k: nat, blank: seq<byte>, stale: byte, now: string,
                 fs: Fs, stop: Option<Stop>)
    requires |blank| == H
    requires (fs, stop) == Remaining(fs0, data, c0, k, blank, stale, now)
    ensures var whole := ExtractFrom(data, c0, k, blank, stale);
            fs == Extracted(fs0, whole, now) && FaultOf(stop) == FaultOf(whole.stop)
  {
    ExtractFromRuns(data, c0, k, blank, stale);
  }

  /** What the last `k` passes of the extraction loop do, from `fs` at `c`: the
      file system they leave and the stop they end at. */
  ghost function Remaining(fs: Fs, data: seq<byte>, c: Cursor, k: nat, blank: seq<byte>, stale: byte, now: string): (Fs, Option<Stop>)
    requires |blank| == H
  {
    var rest := RunSteps(ExtractPass(data, blank, stale), c, k);
    (Extracted(fs, rest, now), rest.stop)
  }

  /** With no passes left, nothing changes and nothing stops. */
  lemma RemainingNone(fs: Fs, data: seq<byte>, c: Cursor, blank: seq<byte>, stale: byte, now: string)
    requires |blank| == H
    ensures Remaining(fs, data, c, 0, blank, stale, now) == (fs, None)
  {
  }

  /** One pass of the extraction loop, from `fs` at `c` to `fs'` at `c'`: it
      either ends extraction where all `k` passes would, or leaves the other
      `k - 1` to do what all `k` would. */
  lemma ExtractedNext(fs: Fs, fs': Fs, data: seq<byte>, c: Cursor, c': Cursor, k: nat, fault: Option<Fault>,
                      blank: seq<byte>, stale: byte, now: string)
    requires |blank| == H && k > 0
    requires var s := ExtractStep(data, c, blank, stale);
             c' == s.next && fault == s.fault && fs' == Applied(fs, s, now)
    ensures fault.Some? ==> (fs', Some(Stop(ExtractStep(data, c, blank, stale).item.header, fault.value))) == Remaining(fs, data, c, k, blank, stale, now)
    ensures fault.None? ==> Remaining(fs', data, c', k - 1, blank, stale, now) == Remaining(fs, data, c, k, blank, stale, now)
  {
    ExtractedBefore(fs, data, c, k, blank, stale, now);
    ExtractFromRuns(data, c, k, blank, stale);
    ExtractFromRuns(data, c', k - 1, blank, stale);
  }

  /** What the remaining passes of the extraction loop do: the next pass, then
      the rest. */
  lemma ExtractedBefore(fs: Fs, data: seq<byte>, c: Cursor, k: nat, blank: seq<byte>, stale: byte, now: string)
    requires |blank| == H && k > 0
    ensures var s := ExtractStep(data, c, blank, stale);
            var whole := ExtractFrom(data, c, k, blank, stale);
            var rest := ExtractFrom(data, s.next, k - 1, blank, stale);
            if s.fault.Some? then
              whole.stop == Some(Stop(s.item.header, s.fault.value))
              && Extracted(fs, whole, now) == Halt(fs, whole.stop)
            else
              whole.stop == rest.stop && Extracted(fs, whole, now) == Extracted(Restore(fs, s.item, now), rest, now)
  {
    var s := ExtractStep(data, c, blank, stale);
    var rest := ExtractFrom(data, s.next, k - 1, blank, stale);
    if s.fault.None? {
      assert ([s.item] + rest.items)[1..] == rest.items;
    }
  }

  /** One pass of the extraction loop, reading from `infile` and changing `disk`. */
  method ExtractEntry(infile: InStream, disk: FileSystem, blank: seq<byte>, stale: byte, now: string)
    returns (fault: Option<Fault>)
    requires |blank| == H
    modifies infile, disk
    ensures var s := ExtractStep(infile.data, old(infile.at), blank, stale);
            infile.at == s.next && fault == s.fault && disk.files == Applied(old(disk.files), s, now)
  {
    var got := infile.Read(H);
    var curr := Decode(Overlay(got, blank));
    if !curr.isDir {
      disk.Touch(curr.name, curr.stamp);
      var size := Stoi(curr.size);
      if size.None? {
        return Some(BadSize(curr.size));
      }
      if size.value < 0 {
        return Some(BadAlloc(size.value));
      }
      var content := infile.Read(size.value);
      var buffer := Overlay(content, Uninit(size.value, stale));
      disk.WriteOut(curr.name, buffer, now);
    } else if !Finds(disk.files, curr.name) {
      disk.MakeDir(curr.name, now);
      disk.Touch(curr.name, curr.stamp);
    }
    disk.Chmod(curr.name, curr.pmode);
    return None;
  }

  /** Extraction leaves alone every object no entry it reaches names. */
  lemma ExtractedElsewhere(fs: Fs, scan: Scan, now: string, p: string)
    requires forall i :: 0 <= i < |scan.items| ==> Key(scan.items[i].header.name) != p
    requires scan.stop.Some? ==> Key(scan.stop.value.header.name) != p
    ensures var r := Extracted(fs, scan, now);
            (p in r <==> p in fs) && (p in r ==> r[p] == fs[p])
  {
    RestoreAllElsewhere(fs, scan.items, now, p);
  }

  lemma {:induction false} RestoreAllElsewhere(fs: Fs, items: seq<Item>, now: string, p: string)
    requires forall i :: 0 <= i < |items| ==> Key(items[i].header.name) != p
    ensures var r := RestoreAll(fs, items, now);
            (p in r <==> p in fs) && (p in r ==> r[p] == fs[p])
    decreases |items|
  {
    if items != [] {
      var next := Restore(fs, items[0], now);
      assert Key(items[0].header.name) != p;
      RestoreAllElsewhere(next, items[1..], now, p);
    }
  }

  // -------------------------------------------- listing against extraction

  /** The names of the entries read back, in order. */
  function Names(items: seq<Item>): (ns: seq<string>)
    ensures |ns| == |items|
    ensures forall i {:trigger ns[i]} :: 0 <= i < |items| ==> ns[i] == items[i].header.name
  {
    seq(|items|, i requires 0 <= i < |items| => items[i].header.name)
  }

  /** A pass of the extraction loop and a pass of the listing loop at the same
      place agree: the lister prints the name of the header the extractor
      reads; when the extractor gets through the entry without the stream
      failing, the lister ends up where the extractor does, having skipped the
      very bytes the extractor read; when `stoi` rejects the size, both stop
      there with the same exception. */
  predicate PassesAgree(s: Step, l: Line) {
    && l.name == s.item.header.name
    && (s.fault == None && !s.next.fail ==> l == Line(s.item.header.name, None, s.next))
    && (s.fault.Some? && s.fault.value.BadSize? ==> l == Line(s.item.header.name, s.fault, s.next))
  }

  lemma StepsAgree(data: seq<byte>, c: Cursor, blank: seq<byte>, stale: byte)
    requires |blank| == H
    ensures PassesAgree(ExtractStep(data, c, blank, stale), ListStep(data, c, blank))
  {
  }

  /** A pass of the extraction loop on a failed stream leaves it where it is. */
  lemma StepStaysFailed(data: seq<byte>, c: Cursor, blank: seq<byte>, stale: byte)
    requires |blank| == H && c.fail
    ensures ExtractStep(data, c, blank, stale).next == c
  {
  }

  /** The extraction loop with its pass as a parameter: `ExtractFrom` is this
      loop over `ExtractStep` (lemma `ExtractFromRuns`). */
  function RunSteps(pass: Cursor -> Step, c: Cursor, k: nat): Scan
    decreases k
  {
    if k == 0 then Scan([], None, c)
    else
      var s := pass(c);
      if s.fault.Some? then Scan([], Some(Stop(s.item.header, s.fault.value)), s.next)
      else
        var rest := RunSteps(pass, s.next, k - 1);
        Scan([s.item] + rest.items, rest.stop, rest.end)
  }

  /** The listing loop with its pass as a parameter: `ListFrom` is this loop
      over `ListStep` (lemma `ListFromRuns`). */
  function RunLines(pass: Cursor -> Line, c: Cursor, k: nat): Listing
    decreases k
  {
    if k == 0 then Listing([], None, c)
    else
      var l := pass(c);
      if l.fault.Some? then Listing([l.name], l.fault, l.next)
      else
        var rest := RunLines(pass, l.next, k - 1);
        Listing([l.name] + rest.names, rest.fault, rest.end)
  }

  function ExtractPass(data: seq<byte>, blank: seq<byte>, stale: byte): Cursor -> Step
    requires |blank| == H
  {
    c => ExtractStep(data, c, blank, stale)
  }

  function ListPass(data: seq<byte>, blank: seq<byte>): Cursor -> Line
    requires |blank| == H
  {
    c => ListStep(data, c, blank)
  }

  lemma {:induction false} ExtractFromRuns(data: seq<byte>, c: Cursor, k: nat, blank: seq<byte>, stale: byte)
    requires |blank| == H
    ensures ExtractFrom(data, c, k, blank, stale) == RunSteps(ExtractPass(data, blank, stale), c, k)
    decreases k
  {
    if k > 0 {
      var s := ExtractStep(data, c, blank, stale);
      if s.fault.None? {
        ExtractFromRuns(data, s.next, k - 1, blank, stale);
      }
      var rest := ExtractFrom(data, s.next, k - 1, blank, stale);
      ExtractFromStep(data, c, k, blank, stale, s, rest);
      RunStepsStep(ExtractPass(data, blank, stale), c, k, s, rest);
    }
  }

  /** One pass of `ExtractFrom`, with the pass and the rest named. */
  lemma ExtractFromStep(data: seq<byte>, c: Cursor, k: nat, blank: seq<byte>, stale: byte, s: Step, rest: Scan)
    requires |blank| == H && k > 0
    requires s == ExtractStep(data, c, blank, stale) && rest == ExtractFrom(data, s.next, k - 1, blank, stale)
    ensures ExtractFrom(data, c, k, blank, stale)
            == if s.fault.Some? then Scan([], Some(Stop(s.item.header, s.fault.value)), s.next)
               else Scan([s.item] + rest.items, rest.stop, rest.end)
  {
  }

  /** One pass of `RunSteps`, with the pass and the rest named. */
  lemma RunStepsStep(pass: Cursor -> Step, c: Cursor, k: nat, s: Step, rest: Scan)
    requires k > 0 && s == pass(c)
    requires s.fault.None? ==> rest == RunSteps(pass, s.next, k - 1)
    ensures RunSteps(pass, c, k)
            == if s.fault.Some? then Scan([], Some(Stop(s.item.header, s.fault.value)), s.next)
               else Scan([s.item] + rest.items, rest.stop, rest.end)
  {
  }

  lemma {:induction false} ListFromRuns(data: seq<byte>, c: Cursor, k: nat, blank: seq<byte>)
    requires |blank| == H
    ensures ListFrom(data, c, k, blank) == RunLines(ListPass(data, blank), c, k)
    decreases k
  {
    if k > 0 {
      var l := ListStep(data, c, blank);
      if l.fault.None? {
        ListFromRuns(data, l.next, k - 1, blank);
      }
      var rest := ListFrom(data, l.next, k - 1, blank);
      ListFromStep(data, c, k, blank, l, rest);
      RunLinesStep(ListPass(data, blank), c, k, l, rest);
    }
  }

  /** One pass of `ListFrom`, with the pass and the rest named. */
  lemma ListFromStep(data: seq<byte>, c: Cursor, k: nat, blank: seq<byte>, l: Line, rest: Listing)
    requires |blank| == H && k > 0
    requires l == ListStep(data, c, blank) && rest == ListFrom(data, l.next, k - 1, blank)
    ensures ListFrom(data, c, k, blank)
            == if l.fault.Some? then Listing([l.name], l.fault, l.next)
               else Listing([l.name] + rest.names, rest.fault, rest.end)
  {
  }

  /** One pass of `RunLines`, with the pass and the rest named. */
  lemma RunLinesStep(pass: Cursor -> Line, c: Cursor, k: nat, l: Line, rest: Listing)
    requires k > 0 && l == pass(c)
    requires l.fault.None? ==> rest == RunLines(pass, l.next, k - 1)
    ensures RunLines(pass, c, k)
            == if l.fault.Some? then Listing([l.name], l.fault, l.next)
               else Listing([l.name] + rest.names, rest.fault, rest.end)
  {
  }

  /** Once the stream has failed, it stays failed to the end of the loop. */
  lemma {:induction false} RunStaysFailed(pass: Cursor -> Step, c: Cursor, k: nat)
    requires forall c: Cursor :: c.fail ==> pass(c).next == c
    ensures c.fail ==> RunSteps(pass, c, k).end == c
    decreases k
  {
    if k > 0 && c.fail {
      RunStaysFailed(pass, pass(c).next, k - 1);
    }
  }

  /** Loops whose passes agree read alike: as long as extraction gets through
      every entry without the stream failing, the listing prints the names of
      the entries extracted, in order, and ends where extraction does; when
      extraction stops at a size `stoi` rejects, the listing prints that
      entry's name too and stops with the same exception. */
  lemma {:induction false} RunsAgree(steps: Cursor -> Step, lines: Cursor -> Line, c: Cursor, k: nat)
    requires forall c: Cursor :: PassesAgree(steps(c), lines(c))
    requires forall c: Cursor :: c.fail ==> steps(c).next == c
    ensures var x := RunSteps(steps, c, k);
            x.stop == None && !x.end.fail ==> RunLines(lines, c, k) == Listing(Names(x.items), None, x.end)
    ensures var x := RunSteps(steps, c, k);
            x.stop.Some? && x.stop.value.fault.BadSize? && !x.end.fail ==>
              RunLines(lines, c, k) == Listing(Names(x.items) + [x.stop.value.header.name], Some(x.stop.value.fault), x.end)
    decreases k
  {
    if k > 0 {
      var s := steps(c);
      var rest := RunSteps(steps, s.next, k - 1);
      assert PassesAgree(s, lines(c));
      RunStaysFailed(steps, s.next, k - 1);
      RunsAgree(steps, lines, s.next, k - 1);
      assert Names([s.item] + rest.items) == [s.item.header.name] + Names(rest.items);
      if rest.stop.Some? {
        AppendAssoc([s.item.header.name], Names(rest.items), [rest.stop.value.header.name]);
      }
      assert Names([]) == [];
    }
  }

  /** Listing and extraction read an archive alike (`RunsAgree` for the two
      loops of the archiver). */
  lemma ListingAgrees(data: seq<byte>, c: Cursor, k: nat, blank: seq<byte>, stale: byte)
    requires |blank| == H
    ensures var x := ExtractFrom(data, c, k, blank, stale);
            x.stop == None && !x.end.fail ==> ListFrom(data, c, k, blank) == Listing(Names(x.items), None, x.end)
    ensures var x := ExtractFrom(data, c, k, blank, stale);
            x.stop.Some? && x.stop.value.fault.BadSize? && !x.end.fail ==>
              ListFrom(data, c, k, blank) == Listing(Names(x.items) + [x.stop.value.header.name], Some(x.stop.value.fault), x.end)
  {
    var steps := ExtractPass(data, blank, stale);
    var lines := ListPass(data, blank);
    forall c': Cursor
      ensures PassesAgree(steps(c'), lines(c'))
    {
      StepsAgree(data, c', blank, stale);
    }
    forall c': Cursor | c'.fail
      ensures steps(c').next == c'
    {
      StepStaysFailed(data, c', blank, stale);
    }
    ExtractFromRuns(data, c, k, blank, stale);
    ListFromRuns(data, c, k, blank);
    RunsAgree(steps, lines, c, k);
  }
}
