/** A directory tree as the archiver finds it, and the pre-order walk that
    `recursive_directory_iterator` performs over it. */
module Tree {
  import opened Entries

  /** A filesystem object: its name inside its parent, what `lstat` reports for
      it, and, for a directory, its children in enumeration order. */
  datatype Node = Node(base: string, stat: Stat, kids: seq<Node>)

  /** A `std::filesystem::path` as the iterator builds it: the path the user gave,
      or a child name appended to a directory's path. */
  datatype Path = Given(text: string) | Child(parent: Path, name: string)

  /** What one step of the iterator yields: the path it built and the object. */
  datatype Found = Found(path: Path, node: Node)

  /** The children the iterator descends into: those of a directory only (a
      symbolic link is not followed, since `lstat` does not report it as a
      directory). */
  function Below(n: Node): (r: seq<Node>)
    ensures r == n.kids || r == []
  {
    if IsDirMode(n.stat.mode) then n.kids else []
  }

  /** How many objects a forest holds, counting every level; it measures the walk. */
  function Size(kids: seq<Node>): (n: nat)
    decreases kids
  {
    if kids == [] then 0 else 1 + Size(kids[0].kids) + Size(kids[1..])
  }

  /** The text `dir / base` starts with: a separator is added unless `dir`
      already ends in one. */
  function DirPrefix(dir: string): string {
    if |dir| > 0 && dir[|dir| - 1] == '/' then dir else dir + "/"
  }

  lemma DirPrefixExtends(dir: string)
    ensures IsPrefix(dir, DirPrefix(dir))
  {
  }

  /** The text of a path: `dir / name` adds a separator unless `dir` already ends
      in one. */
  function Text(p: Path): string {
    match p
    case Given(text) => text
    case Child(parent, name) => DirPrefix(Text(parent)) + name
  }

  /** Everything beneath a directory whose children are `kids` and whose path is
      `dir`, in the order the iterator yields it: each child, then everything
      beneath that child, then the next child. */
  function Walk(kids: seq<Node>, dir: Path): seq<Found>
    decreases Size(kids)
  {
    if kids == [] then []
    else
      var path := Child(dir, kids[0].base);
      [Found(path, kids[0])] + Walk(Below(kids[0]), path) + Walk(kids[1..], dir)
  }

  predicate IsPrefix(p: string, s: string) {
    |p| <= |s| && s[..|p|] == p
  }

  lemma PrefixTransitive(p: string, q: string, s: string)
    requires IsPrefix(p, q) && IsPrefix(q, s)
    ensures IsPrefix(p, s)
  {
    assert s[..|p|] == s[..|q|][..|p|];
  }

  /** `p` names something inside directory `dir`, at any depth. */
  predicate Under(p: Path, dir: Path) {
    p.Child? && (p.parent == dir || Under(p.parent, dir))
  }

  /** A path inside `dir` extends the text of `dir` with a separator and more. */
  lemma {:induction false} UnderExtends(p: Path, dir: Path)
    requires Under(p, dir)
    ensures IsPrefix(DirPrefix(Text(dir)), Text(p)) && |Text(p)| >= |DirPrefix(Text(dir))|
  {
    if p.parent != dir {
      UnderExtends(p.parent, dir);
      DirPrefixExtends(Text(p.parent));
      PrefixTransitive(DirPrefix(Text(dir)), Text(p.parent), DirPrefix(Text(p.parent)));
      PrefixTransitive(DirPrefix(Text(dir)), DirPrefix(Text(p.parent)), Text(p));
    }
  }

  /** Everything the walk of a directory yields lies inside that directory. */
  lemma {:induction false} WalkUnder(kids: seq<Node>, dir: Path)
    ensures forall f <- Walk(kids, dir) :: Under(f.path, dir)
    decreases Size(kids)
  {
    if kids != [] {
      WalkUnder(Below(kids[0]), Child(dir, kids[0].base));
      WalkUnder(kids[1..], dir);
      forall f <- Walk(Below(kids[0]), Child(dir, kids[0].base)) ensures Under(f.path, dir) {
        UnderTransitive(f.path, Child(dir, kids[0].base), dir);
      }
    }
  }

  /** Whatever the walk of `dir` yields at position `k` has a text that extends
      the text of `dir` with a separator. */
  lemma WalkExtendsAt(kids: seq<Node>, dir: Path, k: nat)
    requires k < |Walk(kids, dir)|
    ensures IsPrefix(DirPrefix(Text(dir)), Text(Walk(kids, dir)[k].path))
  {
    WalkUnder(kids, dir);
    assert Walk(kids, dir)[k] in Walk(kids, dir);
    UnderExtends(Walk(kids, dir)[k].path, dir);
  }

  lemma {:induction false} UnderTransitive(p: Path, q: Path, dir: Path)
    requires Under(p, q) && Under(q, dir)
    ensures Under(p, dir)
  {
    if p.parent != q {
      UnderTransitive(p.parent, q, dir);
    }
  }

  /** What the walk yields at position `i` of `ds` is followed at once,
      contiguously, by everything beneath it. */
  predicate SubtreeFollows(ds: seq<Found>, i: nat)
    requires i < |ds|
  {
    var sub := Walk(Below(ds[i].node), ds[i].path);
    i + 1 + |sub| <= |ds| && ds[i + 1..i + 1 + |sub|] == sub
  }

  /** `SubtreeFollows` survives embedding the walk `x` in a longer sequence. */
  lemma FollowsShift(ds: seq<Found>, pre: seq<Found>, x: seq<Found>, post: seq<Found>, i: nat)
    requires ds == pre + x + post && |pre| <= i < |pre| + |x| && SubtreeFollows(x, i - |pre|)
    ensures i < |ds| && SubtreeFollows(ds, i)
  {
    var j := i - |pre|;
    assert ds[i] == x[j];
    StretchShift(ds, pre, x, post, j + 1, Walk(Below(x[j].node), x[j].path));
  }

  /** The same, for a walk that closes the sequence. */
  lemma FollowsShiftLast(ds: seq<Found>, pre: seq<Found>, x: seq<Found>, i: nat)
    requires ds == pre + x && |pre| <= i < |ds| && SubtreeFollows(x, i - |pre|)
    ensures SubtreeFollows(ds, i)
  {
    var j := i - |pre|;
    assert ds[i] == x[j];
    StretchShift(ds, pre, x, [], j + 1, Walk(Below(x[j].node), x[j].path));
  }

  /** A stretch of `x` reappears, moved along by `|pre|`, in `pre + x + post`
      (or in `pre + x`, taking `post` empty). */
  lemma StretchShift<T>(ds: seq<T>, pre: seq<T>, x: seq<T>, post: seq<T>, j: nat, sub: seq<T>)
    requires ds == pre + x + post || (post == [] && ds == pre + x)
    requires j + |sub| <= |x| && x[j..j + |sub|] == sub
    ensures |pre| + j + |sub| <= |ds| && ds[|pre| + j..|pre| + j + |sub|] == sub
  {
    assert ds[|pre| + j..|pre| + j + |sub|] == x[j..j + |sub|];
  }

  lemma WalkCons(kids: seq<Node>, dir: Path)
    requires kids != []
    ensures var path := Child(dir, kids[0].base);
            Walk(kids, dir) == [Found(path, kids[0])] + Walk(Below(kids[0]), path) + Walk(kids[1..], dir)
  {
  }

  /** Pre-order: whatever the walk yields, everything beneath it follows it at
      once, before anything else. */
  lemma {:induction false} WalkSubtreeFollows(kids: seq<Node>, dir: Path, i: nat)
    requires i < |Walk(kids, dir)|
    ensures SubtreeFollows(Walk(kids, dir), i)
    decreases Size(kids), 1
  {
    var a := Walk(Below(kids[0]), Child(dir, kids[0].base));
    WalkCons(kids, dir);
    if i == 0 {
      assert Walk(kids, dir)[1..1 + |a|] == a;
    } else if i <= |a| {
      FollowsInFirstChild(kids, dir, i);
    } else {
      FollowsInLaterChild(kids, dir, i);
    }
  }

  lemma {:induction false} FollowsInFirstChild(kids: seq<Node>, dir: Path, i: nat)
    requires kids != [] && 0 < i <= |Walk(Below(kids[0]), Child(dir, kids[0].base))|
    ensures i < |Walk(kids, dir)| && SubtreeFollows(Walk(kids, dir), i)
    decreases Size(kids), 0
  {
    var path := Child(dir, kids[0].base);
    WalkCons(kids, dir);
    WalkSubtreeFollows(Below(kids[0]), path, i - 1);
    FollowsShift(Walk(kids, dir), [Found(path, kids[0])], Walk(Below(kids[0]), path), Walk(kids[1..], dir), i);
  }

  lemma {:induction false} FollowsInLaterChild(kids: seq<Node>, dir: Path, i: nat)
    requires kids != [] && |Walk(Below(kids[0]), Child(dir, kids[0].base))| < i < |Walk(kids, dir)|
    ensures SubtreeFollows(Walk(kids, dir), i)
    decreases Size(kids), 0
  {
    var path := Child(dir, kids[0].base);
    var pre := [Found(path, kids[0])] + Walk(Below(kids[0]), path);
    var b := Walk(kids[1..], dir);
    WalkCons(kids, dir);
    var j := i - |pre|;
    assert j < |b|;
    WalkSubtreeFollows(kids[1..], dir, j);
    FollowsShiftLast(Walk(kids, dir), pre, b, i);
  }
}
