/** The file system as extraction changes it: what the shell commands
    `touch -t`, `mkdir` and `chmod` and an output `fstream` do to it. */
module Disk {
  import opened Bytes

  /** A file-system object: its modification time (a `touch -t` stamp, or the
      time at which it was last written), the mode text `chmod` last applied to
      it (empty while it keeps the mode it was created with) and, for a regular
      file, its bytes. */
  datatype Obj = Dir(time: string, perm: string) | File(content: seq<byte>, time: string, perm: string)

  /** Objects by path, each under its `Key`. */
  type Fs = map<string, Obj>

  /** Where the last `/` in `path` is, if any. */
  function LastSlash(path: string): (k: int)
    ensures -1 <= k < |path|
    ensures k >= 0 ==> path[k] == '/'
    ensures forall i :: k < i < |path| ==> path[i] != '/'
  {
    if path == [] then -1
    else if path[|path| - 1] == '/' then |path| - 1
    else LastSlash(path[..|path| - 1])
  }

  /** How long `path[..n]` is once trailing `/` characters are dropped from
      it, its first character always kept. */
  function KeyLength(path: string, n: nat): (m: nat)
    requires n <= |path|
    ensures m <= n
  {
    if n > 1 && path[n - 1] == '/' then KeyLength(path, n - 1) else n
  }

  /** `path` without its trailing `/` characters (the root `/` stays `/`). The
      map `Fs` holds every object under this form of its path; which object a
      path with trailing `/` characters reaches is `Finds`'s business. */
  function Key(path: string): (k: string)
    ensures |k| <= |path|
  {
    path[..KeyLength(path, |path|)]
  }

  /** `KeyLength` drops `/` characters only, and all of them down to the first
      character. */
  lemma {:induction false} KeyLengthShape(path: string, n: nat)
    requires n <= |path|
    ensures var m := KeyLength(path, n);
            && (m == 0 <==> n == 0)
            && (m > 1 ==> path[m - 1] != '/')
            && (forall i :: m <= i < n ==> path[i] == '/')
  {
    if n > 1 && path[n - 1] == '/' {
      KeyLengthShape(path, n - 1);
    }
  }

  /** A key is its path with only `/` characters dropped from the end, and
      ends in `/` only when it is the root. */
  lemma KeyShape(path: string)
    ensures var k := Key(path);
            && k == path[..|k|] && (k == [] <==> path == [])
            && (|k| > 1 ==> k[|k| - 1] != '/')
            && (forall i :: |k| <= i < |path| ==> path[i] == '/')
  {
    KeyLengthShape(path, |path|);
  }

  /** What `KeyLength` sees of a path is the part before `n`. */
  lemma {:induction false} KeyLengthPrefix(path: string, more: string, n: nat)
    requires n <= |path|
    ensures KeyLength(path + more, n) == KeyLength(path, n)
  {
    if n > 1 && path[n - 1] == '/' {
      KeyLengthPrefix(path, more, n - 1);
    }
  }

  /** The directory a new object at `path` goes in, as a key; empty for the
      working directory and for the root, which both always exist. */
  function Parent(path: string): (p: string)
    ensures |p| < |path| || path == []
    ensures p != "/"
  {
    var q := Key(path);
    var k := LastSlash(q);
    if k <= 0 then [] else if Key(q[..k]) == "/" then [] else Key(q[..k])
  }

  /** A new object can be made at `path` when the directory it goes in exists. */
  predicate CanCreate(fs: Fs, path: string) {
    path != [] && (Parent(path) == [] || (Parent(path) in fs && fs[Parent(path)].Dir?))
  }

  /** Everything but the object at key `key` is as in `fs`. */
  ghost predicate SameElsewhere(fs: Fs, r: Fs, key: string) {
    forall p :: p != key ==> (p in r <==> p in fs) && (p in r ==> r[p] == fs[p])
  }

  /** `path` ends in `/` characters that its key drops. */
  predicate Slashed(path: string) {
    |Key(path)| < |path|
  }

  /** The system reaches an object through `path` (`fs::exists`, and the
      commands below): the object under its key, except that a path ending in
      `/` reaches a directory only; through a regular file it fails with
      ENOTDIR. */
  predicate Finds(fs: Fs, path: string) {
    Key(path) in fs && (!Slashed(path) || fs[Key(path)].Dir?)
  }

  /** `touch -t stamp path`: an object it reaches takes the stamp as its time;
      where nothing is, an empty file with that time is made, if it can be and
      the path does not end in `/` (opening `p/` to create it fails with
      EISDIR). */
  function Touched(fs: Fs, path: string, stamp: string): (r: Fs)
    ensures var k := Key(path); Finds(fs, path) ==> k in r && r[k] == fs[k].(time := stamp)
    ensures var k := Key(path); k !in fs && !Slashed(path) && CanCreate(fs, path) ==> k in r && r[k] == File([], stamp, "")
    ensures !Finds(fs, path) && (Key(path) in fs || Slashed(path) || !CanCreate(fs, path)) ==> r == fs
    ensures SameElsewhere(fs, r, Key(path))
  {
    var k := Key(path);
    if Finds(fs, path) then fs[k := fs[k].(time := stamp)]
    else if k !in fs && !Slashed(path) && CanCreate(fs, path) then fs[k := File([], stamp, "")]
    else fs
  }

  /** Opening `path` as an output `fstream` and writing `bytes`: the file is
      truncated, then holds exactly `bytes`, and its time is the time of the
      write. A directory cannot be opened this way, nor can any path that ends
      in `/`; then nothing changes. */
  function WrittenOut(fs: Fs, path: string, bytes: seq<byte>, now: string): (r: Fs)
    ensures var k := Key(path); !Slashed(path) && k in fs && fs[k].File? ==> k in r && r[k] == fs[k].(content := bytes, time := now)
    ensures var k := Key(path); !Slashed(path) && k !in fs && CanCreate(fs, path) ==> k in r && r[k] == File(bytes, now, "")
    ensures var k := Key(path); Slashed(path) || (k in fs && fs[k].Dir?) || (k !in fs && !CanCreate(fs, path)) ==> r == fs
    ensures SameElsewhere(fs, r, Key(path))
  {
    var k := Key(path);
    if Slashed(path) then fs
    else if k in fs then
      if fs[k].File? then fs[k := fs[k].(content := bytes, time := now)] else fs
    else if CanCreate(fs, path) then fs[k := File(bytes, now, "")]
    else fs
  }

  /** `mkdir path` (without `-p`): a new directory, when nothing is at `path`
      and its parent exists; anything already under its key, a regular file
      included, makes it fail with EEXIST. */
  function DirMade(fs: Fs, path: string, now: string): (r: Fs)
    ensures var k := Key(path); k !in fs && CanCreate(fs, path) ==> k in r && r[k] == Dir(now, "")
    ensures Key(path) in fs || !CanCreate(fs, path) ==> r == fs
    ensures SameElsewhere(fs, r, Key(path))
  {
    var k := Key(path);
    if k !in fs && CanCreate(fs, path) then fs[k := Dir(now, "")] else fs
  }

  /** `chmod mode path`: an object it reaches takes the mode; nothing else changes. */
  function ModeSet(fs: Fs, path: string, mode: string): (r: Fs)
    ensures var k := Key(path); Finds(fs, path) ==> k in r && r[k] == fs[k].(perm := mode)
    ensures !Finds(fs, path) ==> r == fs
    ensures SameElsewhere(fs, r, Key(path))
  {
    var k := Key(path);
    if Finds(fs, path) then fs[k := fs[k].(perm := mode)] else fs
  }

  /** A path with a `/` after it has the same key and the same parent, and
      reaches the object the path names exactly when that is a directory. */
  lemma TrailingSlash(fs: Fs, path: string)
    requires path != []
    ensures Key(path + "/") == Key(path) && Parent(path + "/") == Parent(path)
    ensures Finds(fs, path + "/") <==> Key(path) in fs && fs[Key(path)].Dir?
  {
    KeyLengthPrefix(path, "/", |path|);
    assert (path + "/")[..|path|] == path;
  }

  /** The file system extraction works on, changed in place by each command. */
  class FileSystem {
    var files: Fs

    constructor(files0: Fs)
      ensures files == files0
    {
      files := files0;
    }

    method Touch(path: string, stamp: string)
      modifies this
      ensures files == Touched(old(files), path, stamp)
    {
      files := Touched(files, path, stamp);
    }

    method WriteOut(path: string, bytes: seq<byte>, now: string)
      modifies this
      ensures files == WrittenOut(old(files), path, bytes, now)
    {
      files := WrittenOut(files, path, bytes, now);
    }

    method MakeDir(path: string, now: string)
      modifies this
      ensures files == DirMade(old(files), path, now)
    {
      files := DirMade(files, path, now);
    }

    method Chmod(path: string, mode: string)
      modifies this
      ensures files == ModeSet(old(files), path, mode)
    {
      files := ModeSet(files, path, mode);
    }
  }
}
