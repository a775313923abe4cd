/** The readers against the writer: what `extractFiles` and `tfOption` make of
    an archive `compressFiles` wrote. */
module RoundTrip {
  import opened Bytes
  import opened Entries
  import opened Format
  import opened Disk
  import opened Stream
  import opened Writer
  import opened Reader

  /** The bytes the writer put after the header of `e`: none for a directory,
      and for a file its `size` bytes as read from `fs`. */
  function Content(e: Entry, fs: Fs, stale: byte): (b: seq<byte>)
    ensures |b| == SizeOf(e)
  {
    if e.isDir then [] else Payload(fs, e.name, SizeOf(e), stale)
  }

  /** The entries `es` with the bytes written for each. */
  function Restored(es: seq<Entry>, fs: Fs, stale: byte): (items: seq<Item>)
    ensures |items| == |es|
    ensures forall i {:trigger items[i]} :: 0 <= i < |es| ==> items[i] == Item(es[i], Content(es[i], fs, stale))
  {
    seq(|es|, i requires 0 <= i < |es| => Item(es[i], Content(es[i], fs, stale)))
  }

  /** A stretch of `data` holding `x + y` holds `x`, then `y`. */
  lemma SliceSplit<T>(data: seq<T>, p: nat, x: seq<T>, y: seq<T>)
    requires p + |x| + |y| <= |data| && data[p..p + |x| + |y|] == x + y
    ensures data[p..p + |x|] == x && data[p + |x|..p + |x| + |y|] == y
  {
    assert data[p..p + |x|] == (x + y)[..|x|];
    assert data[p + |x|..p + |x| + |y|] == (x + y)[|x|..];
  }

  /** A step the writer gets through is the entry's header, then the bytes
      written for it. */
  lemma FrameBytes(e: Entry, fs: Fs, sw: byte)
    requires Sound(e)
    ensures Frame(e, fs, sw).bytes == Encode(e) + Content(e, fs, sw)
  {
  }

  /** One step of the writer, read back by one pass of the extraction loop:
      the same entry, the bytes written for it, and the stream just past them. */
  lemma StepReadBack(data: seq<byte>, p: nat, e: Entry, fs: Fs, sw: byte, blank: seq<byte>, sr: byte)
    requires Fits(e) && Sound(e) && |blank| == H
    requires var f := Frame(e, fs, sw).bytes; p + |f| <= |data| && data[p..p + |f|] == f
    ensures ExtractStep(data, Cursor(p, false), blank, sr)
         == Step(Item(e, Content(e, fs, sw)), None, Cursor(p + |Frame(e, fs, sw).bytes|, false))
  {
    var b := Content(e, fs, sw);
    FrameBytes(e, fs, sw);
    SliceSplit(data, p, Encode(e), b);
    DecodeEncode(e);
    StepOver(data, p, e, b, blank, sr);
  }

  /** A pass of the extraction loop over a header that decodes to the sound
      entry `e`, followed, for a file, by `size` bytes `b`. */
  lemma StepOver(data: seq<byte>, p: nat, e: Entry, b: seq<byte>, blank: seq<byte>, sr: byte)
    requires Sound(e) && |blank| == H && |b| == SizeOf(e)
    requires p + H + |b| <= |data| && Decode(data[p..p + H]) == e && data[p + H..p + H + |b|] == b
    ensures ExtractStep(data, Cursor(p, false), blank, sr) == Step(Item(e, if e.isDir then [] else b), None, Cursor(p + H + |b|, false))
  {
  }

  /** Where the frame of entry `i` starts in the archive: after the count and
      the frames of the entries before it. */
  function FrameStart(es: seq<Entry>, fs: Fs, sw: byte, i: nat): nat
    requires i <= |es|
  {
    4 + |Frames(es[..i], fs, sw).bytes|
  }

  /** When the writer gets through every entry, the frame of entry `i` sits in
      the archive at its start, and the next one starts right after it. */
  lemma FrameSits(es: seq<Entry>, fs: Fs, sw: byte, i: nat)
    requires forall k :: 0 <= k < |es| ==> Sound(es[k])
    requires i < |es|
    ensures var a := Archive(es, fs, sw).bytes;
            var f := Frame(es[i], fs, sw).bytes;
            var p := FrameStart(es, fs, sw, i);
            && FrameStart(es, fs, sw, i + 1) == p + |f|
            && p + |f| <= |a| && a[p..p + |f|] == f
  {
    var pre := Frames(es[..i], fs, sw).bytes;
    var f := Frame(es[i], fs, sw).bytes;
    FramesSnocAt(es, fs, sw, i);
    FramesPrefix(es, fs, sw, i + 1);
    ArchiveTail(es, fs, sw);
    SitsAfter(Archive(es, fs, sw).bytes, Frames(es, fs, sw).bytes, pre, f, Frames(es[..i + 1], fs, sw).bytes);
  }

  /** The piece `f` that follows `pre` at the front of what comes after the
      4-byte count sits right after `4 + |pre|`. */
  lemma SitsAfter<T>(a: seq<T>, rest: seq<T>, pre: seq<T>, f: seq<T>, upto: seq<T>)
    requires |a| == 4 + |rest| && a[4..] == rest
    requires upto == pre + f && |upto| <= |rest| && rest[..|upto|] == upto
    ensures 4 + |upto| == 4 + |pre| + |f|
    ensures 4 + |pre| + |f| <= |a| && a[4 + |pre|..4 + |pre| + |f|] == f
  {
    SliceWithin(a, 4, rest, pre, f);
  }

  /** After its 4-byte count, the archive is the frames. */
  lemma ArchiveTail(es: seq<Entry>, fs: Fs, sw: byte)
    ensures var a := Archive(es, fs, sw).bytes;
            |a| == 4 + |Frames(es, fs, sw).bytes| && a[4..] == Frames(es, fs, sw).bytes
  {
  }

  /** A stretch `b` of `a` that begins with `x + y` holds `y` right after `x`. */
  lemma SliceWithin<T>(a: seq<T>, off: nat, b: seq<T>, x: seq<T>, y: seq<T>)
    requires |a| == off + |b| && a[off..] == b
    requires |x| + |y| <= |b| && b[..|x| + |y|] == x + y
    ensures off + |x| + |y| <= |a| && a[off + |x|..off + |x| + |y|] == y
  {
    assert a[off + |x|..off + |x| + |y|] == b[..|x| + |y|][|x|..];
  }

  /** The frames of the first `i + 1` entries: those of the first `i`, then
      the frame of entry `i`. */
  lemma FramesSnocAt(es: seq<Entry>, fs: Fs, sw: byte, i: nat)
    requires forall k :: 0 <= k < |es| ==> Sound(es[k])
    requires i < |es|
    ensures Frames(es[..i + 1], fs, sw).bytes == Frames(es[..i], fs, sw).bytes + Frame(es[i], fs, sw).bytes
  {
    assert es[..i + 1][..i] == es[..i];
    FramesFault(es[..i], fs, sw);
    FramesSnoc(es[..i + 1], fs, sw);
  }

  /** The frames of the first `j` entries begin the frames of them all. */
  lemma FramesPrefix(es: seq<Entry>, fs: Fs, sw: byte, j: nat)
    requires forall k :: 0 <= k < |es| ==> Sound(es[k])
    requires j <= |es|
    ensures var pre := Frames(es[..j], fs, sw).bytes;
            |pre| <= |Frames(es, fs, sw).bytes| && Frames(es, fs, sw).bytes[..|pre|] == pre
  {
    FramesFault(es[..j], fs, sw);
    assert es == es[..j] + es[j..];
    FramesAppend(es[..j], es[j..], fs, sw);
  }

  /** The start of every frame, and where the last one ends. */
  function Starts(es: seq<Entry>, fs: Fs, sw: byte): (ps: seq<nat>)
    ensures |ps| == |es| + 1
    ensures forall k :: 0 <= k <= |es| ==> ps[k] == FrameStart(es, fs, sw, k)
  {
    seq(|es| + 1, k requires 0 <= k <= |es| => FrameStart(es, fs, sw, k))
  }

  /** `data` holds the frame of entry `k` from `ps[k]` up to `ps[k + 1]`. */
  predicate FrameAt(data: seq<byte>, ps: seq<nat>, es: seq<Entry>, fs: Fs, sw: byte, k: nat)
    requires |ps| == |es| + 1 && k < |es|
  {
    var f := Frame(es[k], fs, sw).bytes;
    && ps[k + 1] == ps[k] + |f|
    && ps[k + 1] <= |data| && data[ps[k]..ps[k + 1]] == f
  }

  /** Every pass of the extraction loop that starts at a frame reads back its
      entry and the bytes written for it, and stops at the next frame. */
  lemma PassesReadBack(data: seq<byte>, ps: seq<nat>, es: seq<Entry>, fs: Fs, sw: byte, blank: seq<byte>, sr: byte)
    requires forall k :: 0 <= k < |es| ==> Fits(es[k]) && Sound(es[k])
    requires |ps| == |es| + 1 && |blank| == H
    requires forall k :: 0 <= k < |es| ==> FrameAt(data, ps, es, fs, sw, k)
    ensures forall k :: 0 <= k < |es| ==>
              ExtractPass(data, blank, sr)(Cursor(ps[k], false)) == Step(Restored(es, fs, sw)[k], None, Cursor(ps[k + 1], false))
  {
    forall k | 0 <= k < |es|
      ensures ExtractPass(data, blank, sr)(Cursor(ps[k], false)) == Step(Restored(es, fs, sw)[k], None, Cursor(ps[k + 1], false))
    {
      assert FrameAt(data, ps, es, fs, sw, k);
      StepReadBack(data, ps[k], es[k], fs, sw, blank, sr);
    }
  }

  /** Passes that each read one item and go on where the next one starts read
      those items in order, from the `j`-th one on. */
  lemma {:induction false} RunFrom(pass: Cursor -> Step, ps: seq<nat>, items: seq<Item>, j: nat)
    requires |ps| == |items| + 1 && j <= |items|
    requires forall k :: j <= k < |items| ==> pass(Cursor(ps[k], false)) == Step(items[k], None, Cursor(ps[k + 1], false))
    ensures RunSteps(pass, Cursor(ps[j], false), |items| - j) == Scan(items[j..], None, Cursor(ps[|items|], false))
    decreases |items| - j
  {
    if j < |items| {
      RunFrom(pass, ps, items, j + 1);
      SuffixStep(items, j);
    } else {
      assert items[j..] == [];
    }
  }

  /** The count the writer puts in front is the count the readers see. */
  lemma CountReadBack(es: seq<Entry>, fs: Fs, sw: byte, sr: byte)
    requires |es| <= INT32_MAX
    ensures ReadCount(Archive(es, fs, sw).bytes, sr) == (|es|, Cursor(4, false))
  {
    var a := Archive(es, fs, sw).bytes;
    Int32RoundTrip(Wrap32(|es|));
    assert a[..4] == EncodeInt32(Wrap32(|es|));
  }

  /** Every frame of an archive the writer got all the way through sits at its
      start, and the last one ends at the end of the archive. */
  lemma ArchiveFrames(es: seq<Entry>, fs: Fs, sw: byte)
    requires forall e <- es :: Sound(e)
    ensures var a := Archive(es, fs, sw).bytes;
            var ps := Starts(es, fs, sw);
            && ps[0] == 4 && ps[|es|] == |a|
            && forall k :: 0 <= k < |es| ==> FrameAt(a, ps, es, fs, sw, k)
  {
    var a := Archive(es, fs, sw).bytes;
    var ps := Starts(es, fs, sw);
    assert forall k :: 0 <= k < |es| ==> es[k] in es;
    forall k | 0 <= k < |es|
      ensures FrameAt(a, ps, es, fs, sw, k)
    {
      FrameSits(es, fs, sw, k);
    }
    assert es[..0] == [] && es[..|es|] == es;
    ArchiveTail(es, fs, sw);
  }

  /** Extraction reads back, in order, the entries whose frames follow the
      count, and stops at the end of the last one. */
  lemma ReadBackAll(data: seq<byte>, ps: seq<nat>, es: seq<Entry>, fs: Fs, sw: byte, blank: seq<byte>, sr: byte)
    requires forall k :: 0 <= k < |es| ==> Fits(es[k]) && Sound(es[k])
    requires |ps| == |es| + 1 && |blank| == H && |es| <= INT32_MAX
    requires ReadCount(data, sr) == (|es|, Cursor(ps[0], false))
    requires forall k :: 0 <= k < |es| ==> FrameAt(data, ps, es, fs, sw, k)
    ensures Extract(data, blank, sr) == Scan(Restored(es, fs, sw), None, Cursor(ps[|es|], false))
  {
    PassesReadBack(data, ps, es, fs, sw, blank, sr);
    RunFrom(ExtractPass(data, blank, sr), ps, Restored(es, fs, sw), 0);
    ExtractFromRuns(data, Cursor(ps[0], false), |es|, blank, sr);
    assert Restored(es, fs, sw)[0..] == Restored(es, fs, sw);
  }

  /** Round trip: extracting an archive the writer got all the way through
      reads back every entry, in order, each with exactly the bytes written for
      it, and stops at the very end of the archive. */
  lemma ExtractRoundTrip(es: seq<Entry>, fs: Fs, sw: byte, blank: seq<byte>, sr: byte)
    requires forall e <- es :: Fits(e) && Sound(e)
    requires |es| <= INT32_MAX && |blank| == H
    ensures Archive(es, fs, sw).fault == None
    ensures Extract(Archive(es, fs, sw).bytes, blank, sr)
         == Scan(Restored(es, fs, sw), None, Cursor(|Archive(es, fs, sw).bytes|, false))
  {
    FramesFault(es, fs, sw);
    CountReadBack(es, fs, sw, sr);
    ArchiveFrames(es, fs, sw);
    assert forall k :: 0 <= k < |es| ==> es[k] in es;
    ReadBackAll(Archive(es, fs, sw).bytes, Starts(es, fs, sw), es, fs, sw, blank, sr);
  }

  /** Round trip for the listing: it prints the name of every entry written,
      in order, and ends at the very end of the archive. */
  lemma ListRoundTrip(es: seq<Entry>, fs: Fs, sw: byte, blank: seq<byte>, sr: byte)
    requires forall e <- es :: Fits(e) && Sound(e)
    requires |es| <= INT32_MAX && |blank| == H
    ensures var l := List(Archive(es, fs, sw).bytes, blank, sr);
            && l.fault == None
            && |l.names| == |es|
            && (forall i :: 0 <= i < |es| ==> l.names[i] == es[i].name)
            && l.end == Cursor(|Archive(es, fs, sw).bytes|, false)
  {
    var a := Archive(es, fs, sw).bytes;
    ExtractRoundTrip(es, fs, sw, blank, sr);
    CountReadBack(es, fs, sw, sr);
    ListingAgrees(a, Cursor(4, false), |es|, blank, sr);
  }

  /** The bytes written for a file are the file itself when its `stat` size is
      its length and fits in an `int`. */
  lemma ContentOfGetInfo(path: string, st: Stat, fs: Fs, stale: byte)
    requires !IsDirMode(st.mode) && st.size <= INT32_MAX
    requires path in fs && fs[path].File? && |fs[path].content| == st.size
    ensures Content(GetInfo(path, st), fs, stale) == fs[path].content
  {
    GetInfoSound(path, st);
    assert fs[path].content[..st.size] == fs[path].content;
  }

  /** Extracting an archive the writer got through changes only the paths of
      the entries written. */
  lemma ExtractTouchesOnlyNamed(es: seq<Entry>, fs: Fs, sw: byte, blank: seq<byte>, sr: byte, disk0: Fs, now: string, p: string)
    requires forall e <- es :: Fits(e) && Sound(e)
    requires |es| <= INT32_MAX && |blank| == H
    requires forall e <- es :: Key(e.name) != p
    ensures var r := Extracted(disk0, Extract(Archive(es, fs, sw).bytes, blank, sr), now);
            (p in r <==> p in disk0) && (p in r ==> r[p] == disk0[p])
  {
    ExtractRoundTrip(es, fs, sw, blank, sr);
    var scan := Extract(Archive(es, fs, sw).bytes, blank, sr);
    forall i | 0 <= i < |scan.items|
      ensures Key(scan.items[i].header.name) != p
    {
      assert es[i] in es;
    }
    ExtractedElsewhere(disk0, scan, now, p);
  }
}
