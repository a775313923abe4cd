# jtar, modelled in Dafny

`jtar` is a small tar-like archiver with three commands:

- `jtar -cf archive paths...` packs files and directories, recursively, into one binary archive.
- `jtar -tf archive` prints the names the archive holds.
- `jtar -xf archive` recreates the files and directories, with their permissions and time stamps.

This project models the core of `jtar.cpp` and proves properties of the model:

- the entry record that `getInfo` builds from `lstat`;
- the list of entries that `getCwdFiles` and `getAllFiles` build;
- the archive that `compressFiles` writes;
- the two readers of that archive: `tfOption` lists it and `extractFiles` extracts it.

The archive is the entry count as a 4-byte `int`. Each entry then follows as one fixed-width header. For a file that is not a directory, exactly as many content bytes as its size field says come right after the header.

Module layout, following the source:

| module | file | what it is |
|---|---|---|
| `Bytes` | bytes.dfy | bytes, 32-bit `int` wrap-around, the 4-byte count, buffers a short read leaves partly untouched |
| `Decimal` | decimal.dfy | `std::to_string` and `std::stoi` on decimal text |
| `Entries` | entry.dfy | `struct stat` as far as it is used, the entry record, `getInfo` |
| `Format` | format.dfy | the fixed-width header codec and the two uncaught exceptions |
| `Tree` | tree.dfy | directory trees and the pre-order walk of `recursive_directory_iterator` |
| `Flatten` | flatten.dfy | `getCwdFiles` and `getAllFiles`, as loops that append, and the list they build |
| `Stream` | stream.dfy | binary `fstream`s: reads that may come up short, `seekg`, writes |
| `Disk` | disk.dfy | the file system as `touch -t`, `mkdir`, `chmod` and an output stream change it |
| `Writer` | writer.dfy | `compressFiles`: the writing loop and the archive it produces |
| `Reader` | reader.dfy | `tfOption` and `extractFiles`: the two reading loops and their effects |
| `RoundTrip` | roundtrip.dfy | the readers run on what the writer wrote |

Every loop of the source is a `method` with a `while` loop. Each is proved against a function of its inputs that states the whole result: `Flatten.Flatten`, `Writer.Archive`, `Reader.ListFrom` and `Reader.ExtractFrom`. The properties are lemmas about those functions. The streams and the file system are classes whose methods change their fields.

The model follows the code as written, also where it differs from what one would expect of an archiver:

- The stamp comes from `st_ctime`, not from the modification time.
- A file is `touch`ed with its stamp and only then opened and written. Its time therefore ends up as the time of the write, not the stamp: `Reader.RestoreShape` says so.
- A directory gets its stamp only when `extractFiles` creates it. An existing directory only gets its mode.
- No read is checked. A short read leaves the rest of the buffer as it was, and a failed stream stays failed.
- A size goes through `int` on the way in (`int sizeRaw = buf.st_size`) and through `stoi` on the way out. A size that `stoi` rejects ends the program with an uncaught exception. So does a negative size in `compressFiles` and `extractFiles` (`new char[size]`); `tfOption` seeks backwards by it instead. For `tfOption` the names printed so far stay printed, and for `extractFiles` every change made so far stays. For `compressFiles` the model says what was handed to the output stream; how much of it reaches the archive file is not modelled (see `Writer.CompressFiles` under "## Left out").

## Model

| member | source | states |
|---|---|---|
| Bytes.Wrap32 | jtar.cpp:110 | the size kept in an `int` is the stat size modulo 2^32 and in the range of `int`; a size already in range is unchanged |
| Bytes.EncodeInt32 | jtar.cpp:174 | the entry count written as the 4 bytes of an `int`, in the fixed little-endian order; read back by `DecodeInt32` (`Int32RoundTrip`) |
| Bytes.DecodeInt32 | jtar.cpp:206 | the `int` that 4 bytes of the archive hold, always in the range of `int` |
| Bytes.Int32RoundTrip | jtar.cpp:173-174 | the 4 bytes written for the entry count are read back as the same count |
| Bytes.Overlay | jtar.cpp:211 | the buffer after a read keeps its length, starts with exactly the bytes the read returned, and keeps what it held before in every byte past them |
| Decimal.NatToString | jtar.cpp:111 | `to_string` of a non-negative value is at least one decimal digit, with no leading zero unless the value is 0 |
| Decimal.IntToString | jtar.cpp:111 | `to_string` of an `int`: a minus sign comes first exactly when the value is negative, followed by its digits |
| Decimal.NatToStringValue | jtar.cpp:111 | the digits `to_string` writes denote the value written |
| Decimal.IntToStringValue | jtar.cpp:111 | for a negative value the text is a minus sign followed by the digits of its magnitude; otherwise it is only digits, and they denote the value |
| Decimal.Stoi | jtar.cpp:183 | `stoi` gives a value only when that value is in the range of `int` |
| Decimal.StoiIntToString | jtar.cpp:183 | `stoi` reads back every `int` that `to_string` writes |
| Entries.IsDirMode | jtar.cpp:124 | `S_ISDIR`: bits 12 to 15 of the mode hold octal 04; `IsDirModeMask` shows this is the test `(mode & S_IFMT) == S_IFDIR` |
| Entries.IsDirModeMask | jtar.cpp:124 | `IsDirMode` (the `S_ISDIR` test) holds exactly when the file-type bits of the mode, `mode & S_IFMT`, equal `S_IFDIR` |
| Entries.PermissionString | jtar.cpp:114-116 | the permission text is exactly three characters, each an octal digit |
| Entries.PermissionValue | jtar.cpp:114-116 | the three digits, read in base 8 as `chmod` reads them, are the owner, group and other bits of the mode (mode mod 0o1000) |
| Entries.GetInfo | jtar.cpp:102-128 | the entry is named by the path; it is flagged as a directory exactly when `S_ISDIR` holds for the mode; its stamp is the `st_ctime` stamp |
| Entries.GetInfoMode | jtar.cpp:113-116 | the entry's permission field is three octal digits whose base-8 value is the mode's permission bits |
| Entries.GetInfoSize | jtar.cpp:108-111 | `stoi` of the size field gives the stat size cut to an `int`; a size that fits in an `int` comes back unchanged, written in plain digits |
| Format.DecodeEncode | jtar.cpp:179 | a header read back gives the entry written, whenever its text fields fit their widths |
| Format.Encode | jtar.cpp:179 | the header written for an entry: exactly `H` bytes, its four text fields NUL-padded to their widths, then the directory flag; read back by `Decode` (`DecodeEncode`) |
| Format.Decode | jtar.cpp:211 | the entry read from any `H` header bytes; it is a directory exactly when the flag byte is non-zero |
| Format.GetInfoFits | jtar.cpp:123 | every entry `getInfo` builds keeps all its fields in the header, provided its path and stamp fit |
| Tree.Text | jtar.cpp:151 | the text of an iterator path: a child's text is its directory's text, a separator unless that text already ends in one, then the child's name; `WalkExtendsAt` states it for every path the walk yields |
| Tree.Walk | jtar.cpp:150 | what `recursive_directory_iterator` yields beneath a directory: each child, then everything beneath it if it is a directory, then the next child; its order is stated by `WalkSubtreeFollows` |
| Tree.WalkExtendsAt | jtar.cpp:150-151 | every path the recursive iterator yields extends the directory's path with a separator |
| Tree.WalkSubtreeFollows | jtar.cpp:150-153 | the walk is pre-order: everything beneath an object the iterator yields follows it at once, contiguously |
| Flatten.Expand | jtar.cpp:148-158 | the run one operand contributes: its own entry first; for a non-directory nothing else, for a directory the entries of its walk; `DescendantNames` and `DescendantsFollow` state the rest |
| Flatten.Flatten | jtar.cpp:147-159 | the list `getAllFiles` builds: the runs of the operands in operand order, at least one entry per operand; `RunAt` and `FlattenAppend` state its layout |
| Flatten.CwdFiles | jtar.cpp:131-140 | one entry per operand from `argv[3]` on, in order, each named by its operand |
| Flatten.GetCwdFiles | jtar.cpp:131-140 | the loop over `argv` builds exactly `CwdFiles` |
| Flatten.GetAllFiles | jtar.cpp:143-162 | the loop over the operands builds exactly `Flatten` of them |
| Flatten.PushWalk | jtar.cpp:150-153 | the inner loop appends one `getInfo` entry per object the iterator yields, in the order yielded |
| Flatten.FlattenAppend | jtar.cpp:147-159 | the operands are expanded one at a time: the list for two runs of operands is the first run's list followed by the second's |
| Flatten.RunAt | jtar.cpp:147-159 | the expansion of every operand lies whole and contiguous at its offset, starting with the operand's own entry, and offsets follow operand order |
| Flatten.FlattenNoDirs | jtar.cpp:156-158 | with no directory among the operands, the list is the operands' entries themselves |
| Flatten.DescendantNames | jtar.cpp:148-153 | every entry after a directory operand's own entry in its expansion is named by a path inside that directory |
| Flatten.DescendantsFollow | jtar.cpp:148-153 | inside a directory operand's expansion, each entry is followed at once by the entries of everything beneath it |
| Stream.ReadAt | jtar.cpp:186 | a read within the data returns those bytes and moves past them; a read that comes up short, or any read on a failed stream, leaves the stream failed and returns fewer bytes than asked; a read of no bytes on a good stream changes nothing, wherever the stream is; `ReadAtShort` states which bytes a short read returns |
| Stream.ReadAtShort | jtar.cpp:245 | a short read on a good stream returns exactly the bytes left after the position (none when the position is past the end); a read on a failed stream returns nothing and does not move |
| Stream.SeekAt | jtar.cpp:214 | a relative seek on a good stream moves by the offset unless that goes before the start, which fails the stream; a failed stream does not move |
| Stream.InStream.Read | jtar.cpp:211 | the input stream's `read` returns and moves as `ReadAt` says |
| Stream.InStream.SeekCur | jtar.cpp:214 | the input stream's `seekg(off, ios::cur)` moves as `SeekAt` says |
| Stream.OutStream.Write | jtar.cpp:188 | the output stream's `write` appends the bytes to what was written |
| Disk.FileSystem.Touch | jtar.cpp:236-240 | `touch -t` changes the file system in place as `Touched` says: a path ending in `/` reaches only a directory and never creates anything |
| Disk.FileSystem.WriteOut | jtar.cpp:247-249 | opening a path for output and writing changes the file system in place as `WrittenOut` says: a path ending in `/` cannot be opened and changes nothing |
| Disk.FileSystem.MakeDir | jtar.cpp:256-258 | `mkdir` changes the file system in place as `DirMade` says |
| Disk.FileSystem.Chmod | jtar.cpp:268-272 | `chmod` changes the file system in place as `ModeSet` says: a path ending in `/` reaches only a directory |
| Disk.Key | jtar.cpp:236-272 | the key of a path, under which the file system holds the object it may reach, is never longer than the path; `KeyShape` states what it is |
| Disk.KeyShape | jtar.cpp:236-272 | the key is the path with only its trailing `/` characters dropped, empty only for the empty path, and ending in `/` only for the root |
| Disk.TrailingSlash | jtar.cpp:255-272 | `p` and `p/` have one key and one parent directory, so `mkdir d/` makes `d`; but `p/` reaches the object `p` names exactly when that object is a directory |
| Disk.Touched | jtar.cpp:236-240 | `touch -t` sets the time of the object the path reaches to the stamp; where nothing is under the key, the path has no trailing `/` and the parent exists, it creates an empty file with that time; otherwise (a regular file named with a trailing `/`, a missing path ending in `/`, a missing parent) it fails and nothing changes; nothing else changes in any case |
| Disk.WrittenOut | jtar.cpp:247-249 | opening a path without a trailing `/` for output and writing leaves a regular file holding exactly those bytes, timed at the write, over an existing file or where nothing was and the parent exists; a path with a trailing `/`, a directory at the path or a missing parent make the open fail and nothing changes; nothing else changes in any case |
| Disk.DirMade | jtar.cpp:256-258 | `mkdir` creates a directory only where nothing of any kind is yet under the key and the parent exists; nothing else changes |
| Disk.ModeSet | jtar.cpp:268-272 | `chmod` gives the object the path reaches the mode text; where the path reaches nothing (missing, or a regular file named with a trailing `/`) nothing changes; nothing else changes in any case |
| Writer.Payload | jtar.cpp:182-186 | the content buffer holds `size` bytes, and they are the file's first `size` bytes whenever the file has that many |
| Writer.Frame | jtar.cpp:179-193 | one step of the writing loop: the header; for a file, the `stoi` of its size, which may throw, the allocation, which throws on a negative size, then the `size`-byte buffer; `FrameShape` states its layout |
| Writer.Archive | jtar.cpp:173-194 | the archive `compressFiles` writes: the count as an `int`, then the steps of the entries up to the first that throws; `ArchiveFraming`, `ExtractRoundTrip` and `ListRoundTrip` state its properties |
| Writer.FrameShape | jtar.cpp:179-193 | each step starts with the entry's header; it throws exactly when the entry is not sound, and otherwise adds exactly `size` content bytes (none for a directory) |
| Writer.FramesAppend | jtar.cpp:177-194 | the steps for two runs of entries are those of the first run, then, if none threw, those of the second |
| Writer.FramesFault | jtar.cpp:177-194 | the writer gets through every entry exactly when every entry is sound |
| Writer.FramesLength | jtar.cpp:177-194 | when every entry is sound, the steps write exactly one header per entry plus the sum of the file sizes |
| Writer.ArchiveFraming | jtar.cpp:173-194 | the archive of sound entries is 4 + n·H + the sum of the file sizes bytes long, and its first 4 bytes read back as the entry count n when n fits in an `int` |
| Writer.GetInfoSound | jtar.cpp:110-111 | a file entry `getInfo` builds from a size that fits in an `int` is sound, and its content length is that size |
| Writer.CompressFiles | jtar.cpp:165-196 | `compressFiles` writes exactly `Archive` of the flattened list, and stops with the exception `Archive` names, if any |
| Writer.WriteArchive | jtar.cpp:171-194 | opening the output, writing the entry count as a 4-byte `int` and running the loop leaves exactly `Archive` of the entries, with its exception |
| Writer.WriteFrames | jtar.cpp:177-194 | the writing loop appends the steps of every entry up to the first that throws, and returns that exception |
| Writer.WriteFrame | jtar.cpp:179-193 | one pass writes the header then, for a sound file, the `size`-byte buffer filled by one read; it returns the exception the size parse or the allocation throws |
| Reader.ReadCount | jtar.cpp:205-206 | the count read from an archive of at least 4 bytes is the `int` those bytes hold, and the stream is then at offset 4 |
| Reader.ReadHeader | jtar.cpp:210-211 | a header read within the data decodes those `H` bytes and moves past them; on a failed stream it is the default-made record |
| Reader.ListStep | jtar.cpp:210-215 | one pass prints the header's name; a directory is not skipped over; the only exception is the one `stoi` throws on the size field |
| Reader.ListFrom | jtar.cpp:209-216 | `k` passes print at most `k` names, exactly `k` when none throws, and the first is the name in the header at the start |
| Reader.List | jtar.cpp:202-216 | what `tfOption` prints: the count from the first 4 bytes, then that many passes of the listing loop (none for a negative count) |
| Reader.ListFiles | jtar.cpp:199-218 | `tfOption` prints exactly the names of `List` and ends with its exception |
| Reader.ListLoop | jtar.cpp:209-216 | the listing loop prints the names that `count` listing passes print (`RunLines` over `ListPass`, which `ListFromRuns` equates with `ListFrom`), stops with their exception and leaves the stream where they end |
| Reader.ListEntry | jtar.cpp:210-215 | one pass of the listing loop on the stream does what `ListStep` says |
| Reader.ExtractStepShape | jtar.cpp:231-245 | one pass reads a header; a directory reads nothing more; the pass throws only on a file, right after its header; a pass that gets through a file fills a buffer of exactly `size` bytes, and `RoundTrip.StepOver` gives its content and end position when the bytes are there |
| Reader.ExtractFrom | jtar.cpp:230-273 | `k` passes get through at most `k` entries, exactly `k` when none throws, and only a file entry can stop them |
| Reader.RestoreShape | jtar.cpp:234-272 | what `Restore` does for one entry: a file entry named without a trailing `/`, over a regular file or where nothing is and the parent exists, leaves a regular file holding exactly its content bytes, timed at the write and with its mode; a file entry over a directory only stamps it and gives it the mode; a directory entry that `fs::exists` finds (a slashed name finds only a directory) only gets its mode; one under whose key nothing is, with its parent there, is created, stamped and given its mode; where the parent is missing, or the name ends in `/` but the object under its key is a regular file, or a file entry's name ends in `/` and nothing is there, nothing changes; every other path is unchanged in every case |
| Reader.SlashedOverFile | jtar.cpp:236-272 | a directory entry `d/` extracted over a regular file `d` leaves the file system exactly as it was: `fs::exists("d/")` fails, so `mkdir` runs and fails, and `touch` and `chmod` of `d/` fail too |
| Reader.Extract | jtar.cpp:223-273 | what `extractFiles` reads: the count from the first 4 bytes, then that many passes of the extraction loop (none for a negative count) |
| Reader.RestoreAll | jtar.cpp:230-273 | the effects on the file system of the passes that got through, in archive order |
| Reader.Halt | jtar.cpp:235-244 | the pass that throws has already run `touch -t` on its file and does nothing more |
| Reader.Extracted | jtar.cpp:230-273 | the file system after extraction: every pass that got through, then the touch of the one that threw, if any; `ExtractedElsewhere` states which paths it leaves alone |
| Reader.ExtractFiles | jtar.cpp:221-275 | `extractFiles` changes the file system exactly as `Extracted` of `Extract` says, and ends with the exception of the entry it stops at, if any |
| Reader.ExtractLoop | jtar.cpp:230-273 | the extraction loop leaves the file system as `Remaining` says `count` extraction passes leave it (every entry they get through restored in order, the one they stop at touched), and returns that entry's exception; `RemainingDone` equates this with `Extracted` of `ExtractFrom` |
| Reader.ExtractEntry | jtar.cpp:231-272 | one pass of the extraction loop moves the stream and changes the file system as `ExtractStep` and `Restore` say, making the directory only when `fs::exists` does not find its name; a pass that throws has only touched its file |
| Reader.ExtractedElsewhere | jtar.cpp:230-273 | extraction leaves unchanged every object that no entry it reaches names, trailing `/` aside |
| Reader.RestoreSlashedDir | jtar.cpp:236-272 | a directory archived as `d/` with a file `d/a` in it extracts, where nothing exists, as the directory `d` holding the file `d/a` |
| Reader.StepsAgree | jtar.cpp:210-215 | at the same position, the listing pass prints the name of the header the extraction pass reads; it ends where the extraction pass ends when that pass gets through and its stream has not failed; both throw the same `stoi` exception |
| Reader.ListingAgrees | jtar.cpp:209-216 | when extraction gets through with a good stream, the listing prints exactly the names extracted, in order, and ends where extraction ends; when extraction stops at a size `stoi` rejects, the listing prints that name too and stops with the same exception |
| RoundTrip.StepReadBack | jtar.cpp:179-188 | one step of the writer, read back by one extraction pass, gives the same entry and the bytes written for it, and the stream ends right after them |
| RoundTrip.CountReadBack | jtar.cpp:173-174 | the count the writer puts first is the count both readers see |
| RoundTrip.ExtractRoundTrip | jtar.cpp:230-245 | extracting an archive that the writer got through reads back every entry written, in order, each with exactly the bytes written for it, and stops at the very end of the archive |
| RoundTrip.ListRoundTrip | jtar.cpp:209-216 | listing such an archive prints the name of every entry written, in write order, and ends at the end of the archive |
| RoundTrip.ContentOfGetInfo | jtar.cpp:182-188 | the bytes written for a file are the whole file when its stat size is its length and fits in an `int` |
| RoundTrip.ExtractTouchesOnlyNamed | jtar.cpp:230-272 | extracting such an archive changes no path that no written entry names |

## Left out

- The command line (`main`, `argCheck`, jtar.cpp:23-91) and `fileExists`: `Flatten.AllFound` stands for the argument check that every operand exists.
- `lstat`, `localtime` and `strftime`: `Entries.Stat` holds what `lstat` reports, with the stamp already formatted as text.
- The shell commands: `touch -t`, `mkdir` and `chmod` are effects on the map in `Disk`. Command strings, quoting and process execution are not modelled.
- Disk.Touched, Disk.WrittenOut, Disk.DirMade, Reader.Restore: a command fails only where the path or its parent directory is missing, where `mkdir` finds something already there, where a path ending in `/` does not reach a directory, or where `fstream(name, ios::out)` is opened on a directory or on any path ending in `/`. Otherwise the process is taken to have every access right, as root has. Three consequences for a process without them are not captured:
  - After `chmod` gives an extracted directory a mode without owner write permission (jtar.cpp:268-272), the `touch` and the output stream of every entry beneath it fail. Because the walk is pre-order, those entries come after the directory, so nothing beneath it is extracted.
  - `fstream temp(name, ios::out)` (jtar.cpp:247) cannot open an existing read-only file, so its old content stays.
  - `recursive_directory_iterator` (jtar.cpp:150) throws `filesystem_error` on a directory it cannot open. This happens before the archive is opened (jtar.cpp:171), so no archive file is created; `Tree.Walk` always descends.
  One `now` stands for the time of every write in an extraction.
- The order of `recursive_directory_iterator`: it is the child order of `Tree.Node`. The walk does not follow symbolic links.
- The trees that `lstat` and the iterator see (`Tree.Node`) and the file contents that the writer reads (`Disk.Fs`) are separate inputs. The model does not require them to describe the same file system.
- `Disk.DirMade`, `Disk.WrittenOut`, `Disk.Touched`: the parent directory's time is not updated when an object is created in it. Paths are normalised only by dropping trailing `/` characters (`Disk.Key`), so `a/b` and `a//b` are different paths, and so are `a/b` and `./a/b`. A path with trailing `/` characters reaches only a directory (`Disk.Finds`). Symbolic links are not modelled, so a slashed path never reaches a directory through a link.
- `Disk.Parent`: the working directory and the root are taken to exist always, so an object may be created directly in them; but `Disk.Finds` looks the paths `.` and `/` up in the map like any other. A map that describes the disk faithfully must therefore hold `.` and `/` as `Dir` keys: a map without them lets `Reader.Restore` create and stamp a directory entry named `.` or `/` that the system would only give its mode.
- `Disk.ModeSet`: stores the mode text that `chmod` is given, without parsing it into bits.
- The `File` class of `file.h` is not part of this model. Its raw `sizeof(File)` bytes are replaced by the header layout of `Format`: four NUL-padded text fields and a flag byte. So `Format.DecodeEncode` and the round trips need every field to fit its width (`Format.Fits`).
- The byte order of the count: the model fixes little-endian.
- Uninitialised memory: it is modelled as one unknown byte value (`stale`). A header buffer that a read leaves partly untouched keeps the bytes of a default-made record (`blank`).
- Heap allocation and freeing are left out, apart from the exception that `new char[size]` throws on a negative size.
- `Decimal.Stoi`: reads the digit run with unbounded precision, then checks the range of `int`. This matches `stoi` on every input, but it is not the library's step-by-step overflow check.
- Writer.CompressFiles: on an uncaught exception (a size field `stoi` rejects, or a size over 2 GiB that wraps to a negative `int` and makes `new char[size]` throw), `std::terminate` runs without closing `output` (jtar.cpp:171). Only the prefix of `archive` that the stream had already flushed reaches the file. The model's `archive` is every byte handed to the stream up to the exception.
- Reader.ListingAgrees: says nothing once the stream has failed, and nothing about a negative size. On a negative size the lister seeks backwards where the extractor throws.
- Console output of `tfOption` is modelled as the sequence of names printed.
