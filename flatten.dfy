/** The member list the writer archives: the operands as given (`getCwdFiles`),
    then every directory operand followed by everything beneath it
    (`getAllFiles`). */
module Flatten {
  import Bytes
  import opened Entries
  import opened Tree

  /** The operands of `jtar -cf archive operand...`: `argv[3]` onwards. */
  function Operands(argv: seq<string>): (ops: seq<string>)
    ensures |argv| <= 3 ==> ops == []
    ensures |argv| > 3 ==> |ops| == |argv| - 3 && forall i :: 0 <= i < |ops| ==> ops[i] == argv[i + 3]
  {
    if |argv| <= 3 then [] else argv[3..]
  }

  /** Every operand names something `lstat` can see (the argument check before
      `compressFiles` refuses the command line otherwise). */
  predicate AllFound(argv: seq<string>, tops: map<string, Node>) {
    forall a <- Operands(argv) :: a in tops
  }

  /** The entry `getInfo` builds for what the iterator yields. */
  function Info(f: Found): (e: Entry)
    ensures e.name == Text(f.path)
  {
    GetInfo(Text(f.path), f.node.stat)
  }

  /** The entries `getInfo` builds for what the iterator yields, in order. */
  function Infos(ds: seq<Found>): (es: seq<Entry>)
    ensures |es| == |ds|
    ensures forall k {:trigger es[k]} :: 0 <= k < |ds| ==> es[k] == Info(ds[k])
  {
    seq(|ds|, k requires 0 <= k < |ds| => Info(ds[k]))
  }

  /** The run of entries one operand contributes: itself, then, for a directory,
      the walk of the directory named `e.name` (which is `top`). */
  function Expand(e: Entry, top: Node): (run: seq<Entry>)
    ensures |run| >= 1 && run[0] == e
    ensures !e.isDir ==> run == [e]
  {
    if e.isDir then [e] + Infos(Walk(top.kids, Given(e.name))) else [e]
  }

  /** Every directory operand has a tree in `tops`. */
  predicate DirsFound(cwd: seq<Entry>, tops: map<string, Node>) {
    forall e <- cwd :: e.isDir ==> e.name in tops
  }

  function TopOf(e: Entry, tops: map<string, Node>): Node
    requires e.isDir ==> e.name in tops
  {
    if e.isDir then tops[e.name] else Node(e.name, Stat(0, 0, ""), [])
  }

  /** What `getAllFiles` returns: the runs of the operands, in operand order. */
  function Flatten(cwd: seq<Entry>, tops: map<string, Node>): (all: seq<Entry>)
    requires DirsFound(cwd, tops)
    ensures |all| >= |cwd|
  {
    if cwd == [] then []
    else
      var last := cwd[|cwd| - 1];
      Flatten(cwd[..|cwd| - 1], tops) + Expand(last, TopOf(last, tops))
  }

  /** What `getCwdFiles` returns: one entry per operand, in order, named by the
      operand. */
  function CwdFiles(argv: seq<string>, tops: map<string, Node>): (list: seq<Entry>)
    requires AllFound(argv, tops)
    ensures |list| == |Operands(argv)|
    ensures forall i :: 0 <= i < |list| ==> list[i].name == Operands(argv)[i]
    ensures DirsFound(list, tops)
  {
    var ops := Operands(argv);
    seq(|ops|, i requires 0 <= i < |ops| => GetInfo(ops[i], tops[ops[i]].stat))
  }

  /** `getCwdFiles`. */
  method GetCwdFiles(argv: seq<string>, tops: map<string, Node>) returns (list: seq<Entry>)
    requires AllFound(argv, tops)
    ensures list == CwdFiles(argv, tops)
  {
    list := [];
    var i := 3;
    while i < |argv|
      invariant |argv| > 3 ==> 3 <= i <= |argv| && |list| == i - 3
      invariant |argv| <= 3 ==> list == []
      invariant forall k :: 0 <= k < |list| ==> list[k] == GetInfo(argv[k + 3], tops[argv[k + 3]].stat)
    {
      assert argv[i] in tops by { assert argv[i] == Operands(argv)[i - 3]; }
      list := list + [GetInfo(argv[i], tops[argv[i]].stat)];
      i := i + 1;
    }
  }

  /** What `compressFiles` archives: the operands and everything beneath them. */
  function AllFiles(argv: seq<string>, tops: map<string, Node>): seq<Entry>
    requires AllFound(argv, tops)
  {
    Flatten(CwdFiles(argv, tops), tops)
  }

  /** `getAllFiles`: each operand, then, for a directory, the entry of every
      object the recursive iterator yields beneath it. */
  method GetAllFiles(cwd: seq<Entry>, tops: map<string, Node>) returns (all: seq<Entry>)
    requires DirsFound(cwd, tops)
    ensures all == Flatten(cwd, tops)
  {
    all := [];
    var i := 0;
    while i < |cwd|
      invariant 0 <= i <= |cwd|
      invariant all == Flatten(cwd[..i], tops)
    {
      assert cwd[..i + 1][..i] == cwd[..i];
      var e := cwd[i];
      if e.isDir {
        all := all + [e];
        all := PushWalk(all, Walk(tops[e.name].kids, Given(e.name)));
      } else {
        all := all + [e];
      }
      i := i + 1;
    }
    assert cwd[..i] == cwd;
  }

  /** The inner loop of `getAllFiles`: one `getInfo` per object the iterator
      yields, appended in the order yielded. */
  method PushWalk(start: seq<Entry>, ds: seq<Found>) returns (all: seq<Entry>)
    ensures all == start + Infos(ds)
  {
    all := start;
    var j := 0;
    while j < |ds|
      invariant 0 <= j <= |ds|
      invariant all == start + Infos(ds[..j])
    {
      InfosSnoc(ds, j);
      all := all + [Info(ds[j])];
      j := j + 1;
    }
    assert ds[..j] == ds;
  }

  /** The entries of the first `j + 1` objects: those of the first `j`, then
      the entry of object `j`. */
  lemma InfosSnoc(ds: seq<Found>, j: nat)
    requires j < |ds|
    ensures Infos(ds[..j + 1]) == Infos(ds[..j]) + [Info(ds[j])]
  {
    assert Infos(ds[..j + 1])[j] == Info(ds[j]);
  }

  /** Flattening works operand by operand: the list of a concatenation is the
      concatenation of the lists. */
  lemma {:induction false} FlattenAppend(a: seq<Entry>, b: seq<Entry>, tops: map<string, Node>)
    requires DirsFound(a, tops) && DirsFound(b, tops)
    ensures DirsFound(a + b, tops)
    ensures Flatten(a + b, tops) == Flatten(a, tops) + Flatten(b, tops)
    decreases |b|
  {
    if b != [] {
      var b', last := b[..|b| - 1], b[|b| - 1];
      assert (a + b)[..|a + b| - 1] == a + b' && (a + b)[|a + b| - 1] == last;
      FlattenAppend(a, b', tops);
      Bytes.AppendAssoc(Flatten(a, tops), Flatten(b', tops), Expand(last, TopOf(last, tops)));
    } else {
      assert a + b == a;
    }
  }

  /** Where the run of operand `i` starts in the flattened list. */
  function Offset(cwd: seq<Entry>, tops: map<string, Node>, i: nat): nat
    requires i <= |cwd| && DirsFound(cwd, tops)
  {
    |Flatten(cwd[..i], tops)|
  }

  /** Top-level order: the run of every operand lies, whole and contiguous, at its
      offset, and the offsets grow with the operand index, so operands keep the
      order given and the descendants of a directory come right after it. */
  lemma RunAt(cwd: seq<Entry>, tops: map<string, Node>, i: nat)
    requires i < |cwd| && DirsFound(cwd, tops)
    ensures var run := Expand(cwd[i], TopOf(cwd[i], tops));
            && Offset(cwd, tops, i) + |run| == Offset(cwd, tops, i + 1)
            && Offset(cwd, tops, i + 1) <= |Flatten(cwd, tops)|
            && Flatten(cwd, tops)[Offset(cwd, tops, i)..Offset(cwd, tops, i + 1)] == run
            && Flatten(cwd, tops)[Offset(cwd, tops, i)] == cwd[i]
  {
    var run := Expand(cwd[i], TopOf(cwd[i], tops));
    assert cwd[..i + 1][..i] == cwd[..i];
    assert cwd == cwd[..i + 1] + cwd[i + 1..];
    FlattenAppend(cwd[..i + 1], cwd[i + 1..], tops);
    assert Flatten(cwd[..i + 1], tops) == Flatten(cwd[..i], tops) + run;
  }

  /** With no directory among the operands, the list is the operands themselves. */
  lemma {:induction false} FlattenNoDirs(cwd: seq<Entry>, tops: map<string, Node>)
    requires forall k :: 0 <= k < |cwd| ==> !cwd[k].isDir
    ensures DirsFound(cwd, tops) && Flatten(cwd, tops) == cwd
  {
    NoDirsFound(cwd, tops);
    if cwd != [] {
      var init, last := cwd[..|cwd| - 1], cwd[|cwd| - 1];
      assert init + [last] == cwd;
      FlattenNoDirs(init, tops);
      FlattenFile(init, last, tops);
    }
  }

  /** A file operand adds just itself to the list. */
  lemma FlattenFile(cwd: seq<Entry>, e: Entry, tops: map<string, Node>)
    requires DirsFound(cwd, tops) && !e.isDir
    ensures DirsFound(cwd + [e], tops) && Flatten(cwd + [e], tops) == Flatten(cwd, tops) + [e]
  {
    var all := cwd + [e];
    assert all[..|all| - 1] == cwd && all[|all| - 1] == e;
  }

  lemma NoDirsFound(cwd: seq<Entry>, tops: map<string, Node>)
    requires forall k :: 0 <= k < |cwd| ==> !cwd[k].isDir
    ensures DirsFound(cwd, tops)
  {
  }

  /** Every entry after the first in the run of directory operand `e` names a
      path inside it: the operand's name, a separator (unless the name ends in
      one), then more. */
  lemma DescendantNames(e: Entry, top: Node, k: nat)
    requires e.isDir && 1 <= k < |Expand(e, top)|
    ensures IsPrefix(DirPrefix(e.name), Expand(e, top)[k].name)
  {
    var ds := Walk(top.kids, Given(e.name));
    WalkExtendsAt(top.kids, Given(e.name), k - 1);
    assert Expand(e, top)[k] == Info(ds[k - 1]);
  }

  /** Pre-order inside a run: each entry the walk adds is followed at once by the
      entries of everything beneath it. */
  lemma DescendantsFollow(e: Entry, top: Node, k: nat)
    requires e.isDir && k < |Walk(top.kids, Given(e.name))|
    ensures var ds := Walk(top.kids, Given(e.name));
            var sub := Infos(Walk(Below(ds[k].node), ds[k].path));
            && k + 2 + |sub| <= |Expand(e, top)|
            && Expand(e, top)[k + 1] == Info(ds[k])
            && Expand(e, top)[k + 2..k + 2 + |sub|] == sub
  {
    var ds := Walk(top.kids, Given(e.name));
    WalkSubtreeFollows(top.kids, Given(e.name), k);
    var sub := Walk(Below(ds[k].node), ds[k].path);
    assert ds[k + 1..k + 1 + |sub|] == sub;
    RunFollows(e, ds, sub, k);
  }

  /** Entries keep the layout of the walk they come from, one place further on
      for the operand's own entry in front. */
  lemma RunFollows(e: Entry, ds: seq<Found>, sub: seq<Found>, k: nat)
    requires k + 1 + |sub| <= |ds| && ds[k + 1..k + 1 + |sub|] == sub
    ensures k + 2 + |Infos(sub)| <= |[e] + Infos(ds)|
    ensures ([e] + Infos(ds))[k + 1] == Info(ds[k])
    ensures ([e] + Infos(ds))[k + 2..k + 2 + |Infos(sub)|] == Infos(sub)
  {
    InfosSlice(ds, k + 1, k + 1 + |sub|);
    ConsSlice(e, Infos(ds), k + 1, |sub|, Infos(sub));
  }

  /** A stretch `t` of `s` sits one place further on in `[x] + s`. */
  lemma ConsSlice<T>(x: T, s: seq<T>, lo: nat, n: nat, t: seq<T>)
    requires lo + n <= |s| && s[lo..lo + n] == t
    ensures |t| == n && lo + 1 + n <= |[x] + s| && ([x] + s)[lo + 1..lo + 1 + n] == t
  {
    assert ([x] + s)[lo + 1..lo + 1 + n] == s[lo..lo + n];
  }

  /** The entries of a stretch of the walk are that stretch of its entries. */
  lemma InfosSlice(ds: seq<Found>, lo: nat, hi: nat)
    requires lo <= hi <= |ds|
    ensures Infos(ds)[lo..hi] == Infos(ds[lo..hi])
  {
  }
}
