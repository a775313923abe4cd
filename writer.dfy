/** `compressFiles`: the archive is the entry count, then, for every entry in
    order, its header and, for a file, as many content bytes as its size field
    says. */
module Writer {
  import opened Bytes
  import opened Decimal
  import opened Entries
  import opened Format
  import opened Tree
  import opened Flatten
  import opened Disk
  import opened Stream

  /** What a writer has put in the archive, and the exception that stopped it, if any. */
  datatype Written = Written(bytes: seq<byte>, fault: Option<Fault>)

  /** The entries the writer gets past: directories, and files whose size field
      `stoi` reads as a size `new char[size]` accepts. */
  predicate Sound(e: Entry) {
    e.isDir || (Stoi(e.size).Some? && Stoi(e.size).value >= 0)
  }

  /** The content bytes an entry stands for in the archive. */
  function SizeOf(e: Entry): nat {
    if !e.isDir && Stoi(e.size).Some? && Stoi(e.size).value >= 0 then Stoi(e.size).value else 0
  }

  /** The `n` bytes of a fresh buffer after `read(buffer, n)` on the file at
      `path`: the file's first bytes as far as it has them, then whatever the
      buffer held. A path that is not a regular file gives nothing to read. */
  function Payload(fs: Fs, path: string, n: nat, stale: byte): (p: seq<byte>)
    ensures |p| == n
    ensures path in fs && fs[path].File? && n <= |fs[path].content| ==> p == fs[path].content[..n]
  {
    var src := if path in fs && fs[path].File? then fs[path].content else [];
    Overlay(ReadAt(src, Start, n).0, Uninit(n, stale))
  }

  /** One step of the writing loop: the header, then, for a file, its content. */
  function Frame(e: Entry, fs: Fs, stale: byte): Written {
    if e.isDir then Written(Encode(e), None)
    else match Stoi(e.size)
      case None => Written(Encode(e), Some(BadSize(e.size)))
      case Some(n) =>
        if n < 0 then Written(Encode(e), Some(BadAlloc(n)))
        else Written(Encode(e) + Payload(fs, e.name, n, stale), None)
  }

  /** What each entry's step writes, in order, as if none had thrown before it. */
  function Steps(es: seq<Entry>, fs: Fs, stale: byte): (ws: seq<Written>)
    ensures |ws| == |es|
    ensures forall k {:trigger ws[k]} :: 0 <= k < |es| ==> ws[k] == Frame(es[k], fs, stale)
  {
    seq(|es|, k requires 0 <= k < |es| => Frame(es[k], fs, stale))
  }

  /** Steps taken one after the other, up to the first that throws. */
  function Join(ws: seq<Written>): Written {
    if ws == [] then Written([], None)
    else
      var w := Join(ws[..|ws| - 1]);
      if w.fault.Some? then w
      else Written(w.bytes + ws[|ws| - 1].bytes, ws[|ws| - 1].fault)
  }

  /** The steps for `es`, one after the other, up to the first that throws. */
  function Frames(es: seq<Entry>, fs: Fs, stale: byte): Written {
    Join(Steps(es, fs, stale))
  }

  /** What `compressFiles` leaves in the archive for the entries `es`: the count
      as a 4-byte `int`, then the steps. */
  function Archive(es: seq<Entry>, fs: Fs, stale: byte): Written {
    var w := Frames(es, fs, stale);
    Written(EncodeInt32(Wrap32(|es|)) + w.bytes, w.fault)
  }

  /** `compressFiles` on the command line `argv`. `tops` is what `lstat` and the
      directory iterator see, `fs` the files whose contents are read, and
      `stale` what a fresh buffer holds where a read leaves it untouched. */
  method CompressFiles(argv: seq<string>, tops: map<string, Node>, fs: Fs, stale: byte)
    returns (archive: seq<byte>, fault: Option<Fault>)
    requires AllFound(argv, tops)
    ensures Written(archive, fault) == Archive(AllFiles(argv, tops), fs, stale)
  {
    var cwd := GetCwdFiles(argv, tops);
    var all := GetAllFiles(cwd, tops);
    archive, fault := WriteArchive(all, fs, stale);
  }

  /** The writing part of `compressFiles`: the count of `es`, then the loop
      over them. */
  method WriteArchive(es: seq<Entry>, fs: Fs, stale: byte) returns (archive: seq<byte>, fault: Option<Fault>)
    ensures Written(archive, fault) == Archive(es, fs, stale)
  {
    var out := new OutStream();
    out.Write(EncodeInt32(Wrap32(|es|)));
    fault := WriteFrames(out, es, fs, stale);
    archive := out.bytes;
  }

  /** The loop of `compressFiles` over the entries `es`. */
  method WriteFrames(out: OutStream, es: seq<Entry>, fs: Fs, stale: byte) returns (fault: Option<Fault>)
    modifies out
    ensures out.bytes == old(out.bytes) + Frames(es, fs, stale).bytes
    ensures fault == Frames(es, fs, stale).fault
  {
    ghost var start := out.bytes;
    JoinSnoc([], Written([], None));
    var i := 0;
    while i < |es|
      invariant 0 <= i <= |es|
      invariant Frames(es[..i], fs, stale).fault == None
      invariant out.bytes == start + Frames(es[..i], fs, stale).bytes
    {
      var e := es[i];
      ghost var done := Frames(es[..i], fs, stale).bytes;
      FramesNext(es, i, fs, stale);
      fault := WriteFrame(out, e, fs, stale);
      AppendAssoc(start, done, Frame(e, fs, stale).bytes);
      if fault.Some? {
        FramesStop(es, i + 1, fs, stale);
        return fault;
      }
      i := i + 1;
    }
    SplitAt(es, i);
    return None;
  }

  /** The loop's step: past `i` entries with no exception, entry `i`'s step
      follows. */
  lemma FramesNext(es: seq<Entry>, i: nat, fs: Fs, stale: byte)
    requires i < |es| && Frames(es[..i], fs, stale).fault == None
    ensures Frames(es[..i + 1], fs, stale)
         == Written(Frames(es[..i], fs, stale).bytes + Frame(es[i], fs, stale).bytes, Frame(es[i], fs, stale).fault)
  {
    PrefixStep(es, i);
    FramesSnoc(es[..i + 1], fs, stale);
  }

  /** The loop's exit on an exception: the entries after it add nothing. */
  lemma FramesStop(es: seq<Entry>, k: nat, fs: Fs, stale: byte)
    requires k <= |es| && Frames(es[..k], fs, stale).fault.Some?
    ensures Frames(es, fs, stale) == Frames(es[..k], fs, stale)
  {
    SplitAt(es, k);
    FramesAppend(es[..k], es[k..], fs, stale);
  }

  /** One pass of the writing loop: the header, then, for a file, a buffer of
      `size` bytes filled by one `read` from the file. */
  method WriteFrame(out: OutStream, e: Entry, fs: Fs, stale: byte) returns (fault: Option<Fault>)
    modifies out
    ensures out.bytes == old(out.bytes) + Frame(e, fs, stale).bytes
    ensures fault == Frame(e, fs, stale).fault
  {
    ghost var before := out.bytes;
    out.Write(Encode(e));
    if e.isDir {
      return None;
    }
    var size := Stoi(e.size);
    if size.None? {
      return Some(BadSize(e.size));
    }
    if size.value < 0 {
      return Some(BadAlloc(size.value));
    }
    var src := if e.name in fs && fs[e.name].File? then fs[e.name].content else [];
    var curr := new InStream(src);
    var got := curr.Read(size.value);
    assert got == ReadAt(src, Start, size.value).0;
    var buffer := Overlay(got, Uninit(size.value, stale));
    assert buffer == Payload(fs, e.name, size.value, stale);
    assert Frame(e, fs, stale).bytes == Encode(e) + buffer;
    out.Write(buffer);
    AppendAssoc(before, Encode(e), buffer);
    return None;
  }

  /** Each step starts with the entry's header; it throws exactly when the
      entry is not sound, and otherwise adds the entry's size in content bytes. */
  lemma FrameShape(e: Entry, fs: Fs, stale: byte)
    ensures var w := Frame(e, fs, stale);
            && |w.bytes| >= H && w.bytes[..H] == Encode(e)
            && (w.fault == None <==> Sound(e))
            && (w.fault == None ==> |w.bytes| == H + SizeOf(e))
  {
  }

  /** One more step: it runs only if none before it threw. */
  lemma JoinSnoc(ws: seq<Written>, w: Written)
    ensures Join(ws + [w]) == if Join(ws).fault.Some? then Join(ws) else Written(Join(ws).bytes + w.bytes, w.fault)
  {
    assert (ws + [w])[..|ws|] == ws;
  }

  /** Two runs of steps one after the other. */
  lemma {:induction false} JoinAppend(a: seq<Written>, b: seq<Written>)
    ensures Join(a).fault.Some? ==> Join(a + b) == Join(a)
    ensures Join(a).fault.None? ==> Join(a + b) == Written(Join(a).bytes + Join(b).bytes, Join(b).fault)
    decreases |b|
  {
    if b == [] {
      assert a + b == a;
    } else {
      var b' := b[..|b| - 1];
      assert a + b == (a + b') + [b[|b| - 1]];
      assert b == b' + [b[|b| - 1]];
      JoinAppend(a, b');
      JoinSnoc(a + b', b[|b| - 1]);
      JoinSnoc(b', b[|b| - 1]);
    }
  }

  lemma StepsAppend(a: seq<Entry>, b: seq<Entry>, fs: Fs, stale: byte)
    ensures Steps(a + b, fs, stale) == Steps(a, fs, stale) + Steps(b, fs, stale)
  {
  }

  /** The steps for `a + b` are those for `a` followed, if none of them threw,
      by those for `b`. */
  lemma FramesAppend(a: seq<Entry>, b: seq<Entry>, fs: Fs, stale: byte)
    ensures Frames(a, fs, stale).fault.Some? ==> Frames(a + b, fs, stale) == Frames(a, fs, stale)
    ensures Frames(a, fs, stale).fault.None? ==>
      Frames(a + b, fs, stale) == Written(Frames(a, fs, stale).bytes + Frames(b, fs, stale).bytes, Frames(b, fs, stale).fault)
  {
    StepsAppend(a, b, fs, stale);
    JoinAppend(Steps(a, fs, stale), Steps(b, fs, stale));
  }

  /** The writer gets through every entry exactly when each one is sound. */
  lemma {:induction false} FramesFault(es: seq<Entry>, fs: Fs, stale: byte)
    ensures Frames(es, fs, stale).fault == None <==> forall e <- es :: Sound(e)
  {
    if es != [] {
      var init := es[..|es| - 1];
      var last := es[|es| - 1];
      FramesFault(init, fs, stale);
      FramesSnoc(es, fs, stale);
      FrameShape(last, fs, stale);
      assert forall e <- es :: e in init || e == last;
      assert forall e <- init :: e in es;
    }
  }

  /** The steps of a non-empty list: those of all but the last entry, then the last's. */
  lemma FramesSnoc(es: seq<Entry>, fs: Fs, stale: byte)
    requires es != []
    ensures var w := Frames(es[..|es| - 1], fs, stale);
            var f := Frame(es[|es| - 1], fs, stale);
            Frames(es, fs, stale) == if w.fault.Some? then w else Written(w.bytes + f.bytes, f.fault)
  {
    StepsSnoc(es, fs, stale);
    JoinSnoc(Steps(es[..|es| - 1], fs, stale), Frame(es[|es| - 1], fs, stale));
  }

  lemma StepsSnoc(es: seq<Entry>, fs: Fs, stale: byte)
    requires es != []
    ensures Steps(es, fs, stale) == Steps(es[..|es| - 1], fs, stale) + [Frame(es[|es| - 1], fs, stale)]
  {
  }

  /** The content bytes of `es` taken together. */
  function SumSizes(es: seq<Entry>): nat {
    if es == [] then 0 else SumSizes(es[..|es| - 1]) + SizeOf(es[|es| - 1])
  }

  /** Framing: when every entry is sound, the archive is the 4-byte count, one
      header per entry and every file's size in content bytes, and nothing more. */
  lemma {:induction false} FramesLength(es: seq<Entry>, fs: Fs, stale: byte)
    requires forall e <- es :: Sound(e)
    ensures |Frames(es, fs, stale).bytes| == |es| * H + SumSizes(es)
  {
    if es != [] {
      assert forall e <- es[..|es| - 1] :: e in es;
      FramesLength(es[..|es| - 1], fs, stale);
      FramesFault(es[..|es| - 1], fs, stale);
      FramesSnoc(es, fs, stale);
      FrameShape(es[|es| - 1], fs, stale);
      HeadersStep(|es[..|es| - 1]|);
    }
  }

  lemma HeadersStep(n: nat)
    ensures (n + 1) * H == n * H + H
  {
  }

  lemma ArchiveFraming(es: seq<Entry>, fs: Fs, stale: byte)
    requires forall e <- es :: Sound(e)
    ensures Archive(es, fs, stale).fault == None
    ensures |Archive(es, fs, stale).bytes| == 4 + |es| * H + SumSizes(es)
    ensures |es| <= INT32_MAX ==> DecodeInt32(Archive(es, fs, stale).bytes[..4]) == |es|
  {
    FramesFault(es, fs, stale);
    FramesLength(es, fs, stale);
    Int32RoundTrip(Wrap32(|es|));
    assert Archive(es, fs, stale).bytes[..4] == EncodeInt32(Wrap32(|es|));
  }

  /** An entry `getInfo` builds is sound whenever the size fits in an `int`. */
  lemma GetInfoSound(path: string, st: Stat)
    requires st.size <= INT32_MAX && !IsDirMode(st.mode)
    ensures Sound(GetInfo(path, st)) && SizeOf(GetInfo(path, st)) == st.size
  {
    GetInfoSize(path, st);
  }
}
