/** An abstract filesystem rooted at the writer's target directory, and the
    primitives the writer calls on it.

    The filesystem is a finite map from slash-separated paths relative to the
    target directory to nodes; the target directory itself is the implicit
    root and is written `""` or `.`.  Every primitive consults the failure
    oracle `fails` first: an operation in it fails with kind `Injected` and
    changes nothing.  Otherwise the outcome depends on the tree alone, with
    the error kinds of `Errors`; symlinks are never followed. */
module FileSystem {
  import opened Values
  import opened Errors
  import opened Paths

  datatype Node =
    | File(data: seq<byte>, mode: nat)
    | Dir(mode: nat)
    | Link(target: string)

  type FS = map<string, Node>

  /** `os.ModePerm` (0777), the mode `MkdirAll` asks for. */
  const DirPerm: nat := 0x1FF
  /** The mode `os.MkdirTemp` creates its directory with (0700). */
  const TempDirMode: nat := 0x1C0
  /** The mode a new timestamp directory is given (0755). */
  const TsDirMode: nat := 0x1ED

  /** `os.FileMode(int32)`: the conversion to an unsigned 32-bit value, the
      one value in that range congruent to `m` modulo 2^32. */
  function FileMode(m: int32): (r: nat)
    ensures r < 0x1_0000_0000
    ensures (r - m as int) % 0x1_0000_0000 == 0
  {
    if m < 0 then m as int + 0x1_0000_0000 else m as int
  }

  /** The bit of `m` of weight `w` (a power of two). */
  function Flag(m: nat, w: nat): (b: nat)
    requires w > 0
    ensures b <= 1
  {
    (m / w) % 2
  }

  /** Go's own setuid, setgid and sticky flags in an `os.FileMode`. */
  const ModeSetuid: nat := 0x80_0000
  const ModeSetgid: nat := 0x40_0000
  const ModeSticky: nat := 0x10_0000

  /** Go's `syscallMode`: the mode bits `os.WriteFile`, `os.Chmod` and
      `os.MkdirAll` hand to the kernel.  The permission bits (0777) are kept,
      Go's setuid, setgid and sticky flags become the POSIX bits 04000, 02000
      and 01000, and every other bit is dropped. */
  function SyscallMode(m: nat): (r: nat)
    ensures r < 0x1000
    ensures r % 0x200 == m % 0x200
    ensures Flag(r, 0x800) == Flag(m, ModeSetuid)
    ensures Flag(r, 0x400) == Flag(m, ModeSetgid)
    ensures Flag(r, 0x200) == Flag(m, ModeSticky)
  {
    var perm := m % 0x200;
    var suid := if Flag(m, ModeSetuid) == 1 then 0x800 else 0;
    var sgid := if Flag(m, ModeSetgid) == 1 then 0x400 else 0;
    var svtx := if Flag(m, ModeSticky) == 1 then 0x200 else 0;
    perm + suid + sgid + svtx
  }

  /** The mode a payload file requested with mode `m` is created and
      chmod-ed with: `syscallMode(os.FileMode(m))`. */
  function DiskMode(m: int32): nat {
    SyscallMode(FileMode(m))
  }

  /** The POSIX setuid bit in a requested mode is not Go's setuid flag and
      is dropped, while a negative request sets all twelve bits. */
  lemma DiskModeExamples()
    ensures DiskMode(0x9ED) == 0x1ED
    ensures DiskMode(-1) == 0xFFF
  {
    assert FileMode(-1) == 0xFFFF_FFFF;
  }

  predicate IsRoot(p: string) {
    p == "" || p == "."
  }

  predicate HasChildren(fs: FS, p: string) {
    exists q :: q in fs && Below(p, q)
  }

  /** Every entry of `fs` is still in `fs'`, unchanged. */
  predicate Preserved(fs: FS, fs': FS) {
    forall q :: q in fs ==> q in fs' && fs'[q] == fs[q]
  }

  /** `fs'` is `fs` with some entries removed and nothing else changed. */
  predicate Shrunk(fs: FS, fs': FS) {
    forall q :: q in fs' ==> q in fs && fs'[q] == fs[q]
  }

  function Fail(op: Op): Error {
    Error(op, Injected)
  }

  /** The parent directory of `p` exists (the root always does). */
  predicate ParentIsDir(fs: FS, p: string) {
    var d := Parent(p);
    d == "" || (d in fs && fs[d].Dir?)
  }

  /** `os.Readlink`. */
  function Readlink(fs: FS, fails: set<Op>, p: string): (r: Res<string>)
    ensures r.Ok? <==> ReadlinkOp(p) !in fails && !IsRoot(p) && p in fs && fs[p].Link?
    ensures r.Ok? ==> r.value == fs[p].target
    ensures r.Err? && IsNotExist(r.error) <==>
              ReadlinkOp(p) !in fails && !IsRoot(p) && p !in fs
  {
    var op := ReadlinkOp(p);
    if op in fails then Err(Fail(op))
    else if IsRoot(p) then Err(Error(op, NotLink))
    else if p !in fs then Err(Error(op, NotExist))
    else if fs[p].Link? then Ok(fs[p].target)
    else Err(Error(op, NotLink))
  }

  /** `os.Symlink(target, link)`: creates `link`, which must not exist. */
  function Symlink(fs: FS, fails: set<Op>, target: string, link: string): (r: Res<FS>)
    ensures r.Ok? <==> SymlinkOp(link, target) !in fails && !IsRoot(link)
                       && link !in fs && ParentIsDir(fs, link)
    ensures r.Ok? ==> r.value == fs[link := Link(target)]
    ensures r.Err? ==> r.error.op == SymlinkOp(link, target)
  {
    var op := SymlinkOp(link, target);
    if op in fails then Err(Fail(op))
    else if IsRoot(link) || link in fs then Err(Error(op, Exist))
    else if !ParentIsDir(fs, link) then Err(Error(op, NotExist))
    else Ok(fs[link := Link(target)])
  }

  /** `os.Rename` of a non-directory entry: the destination, if present, must
      not be a directory and is replaced. */
  function Rename(fs: FS, fails: set<Op>, src: string, dst: string): (r: Res<FS>)
    ensures r.Ok? <==> RenameOp(src, dst) !in fails && src in fs && !fs[src].Dir?
                       && !IsRoot(dst) && !(dst in fs && fs[dst].Dir?) && ParentIsDir(fs, dst)
    ensures r.Ok? && src != dst ==> r.value == (fs - {src})[dst := fs[src]]
    ensures r.Ok? && src == dst ==> r.value == fs
    ensures r.Err? ==> r.error.op == RenameOp(src, dst)
  {
    var op := RenameOp(src, dst);
    if op in fails then Err(Fail(op))
    else if src !in fs then Err(Error(op, NotExist))
    else if fs[src].Dir? then Err(Error(op, IsDir))
    else if IsRoot(dst) || (dst in fs && fs[dst].Dir?) then Err(Error(op, IsDir))
    else if !ParentIsDir(fs, dst) then Err(Error(op, NotExist))
    else if src == dst then Ok(fs)
    else Ok((fs - {src})[dst := fs[src]])
  }

  /** Whether `os.Remove` of `p` succeeds: it exists and is not a non-empty
      directory. */
  predicate Removable(fs: FS, fails: set<Op>, p: string) {
    RemoveOp(p) !in fails && p in fs && !(fs[p].Dir? && HasChildren(fs, p))
  }

  /** `os.Remove`. */
  function Remove(fs: FS, fails: set<Op>, p: string): (r: Res<FS>)
    ensures r.Ok? <==> Removable(fs, fails, p)
    ensures r.Ok? ==> r.value == fs - {p}
    ensures r.Err? ==> r.error.op == RemoveOp(p)
  {
    var op := RemoveOp(p);
    if op in fails then Err(Fail(op))
    else if p !in fs then Err(Error(op, NotExist))
    else if fs[p].Dir? && HasChildren(fs, p) then Err(Error(op, NotEmpty))
    else Ok(fs - {p})
  }

  /** `os.RemoveAll`: removes `p` and everything inside it; a missing `p` is
      not an error. */
  function RemoveAll(fs: FS, fails: set<Op>, p: string): (r: Res<FS>)
    ensures r.Ok? <==> RemoveAllOp(p) !in fails
    ensures r.Ok? ==> forall q :: q in r.value <==> q in fs && !Within(p, q)
    ensures r.Ok? ==> Shrunk(fs, r.value)
    ensures r.Err? ==> r.error.op == RemoveAllOp(p)
  {
    var op := RemoveAllOp(p);
    if op in fails then Err(Fail(op))
    else Ok(map q | q in fs && !Within(p, q) :: fs[q])
  }

  /** `os.MkdirAll`: creates `p` and every missing ancestor with mode 0777;
      fails if one of them exists and is not a directory. */
  function MkdirAll(fs: FS, fails: set<Op>, p: string): (r: Res<FS>)
    ensures r.Ok? <==> MkdirAllOp(p) !in fails
                       && forall q :: q in AncestorSet(p) && q in fs ==> fs[q].Dir?
    ensures r.Ok? ==> Preserved(fs, r.value)
    ensures r.Ok? ==> forall q :: q in AncestorSet(p) ==> q in r.value && r.value[q].Dir?
    ensures r.Ok? ==> forall q :: q in r.value && q !in fs ==> q in AncestorSet(p) && r.value[q] == Dir(DirPerm)
    ensures r.Err? ==> r.error.op == MkdirAllOp(p)
  {
    var op := MkdirAllOp(p);
    if op in fails then Err(Fail(op))
    else if exists q :: q in AncestorSet(p) && q in fs && !fs[q].Dir? then Err(Error(op, NotDir))
    else Ok(fs + map q | q in AncestorSet(p) && q !in fs :: Dir(DirPerm))
  }

  /** `os.MkdirTemp` with the name it generated: creates a directory of mode
      0700, failing if the name is taken. */
  function MkdirTemp(fs: FS, fails: set<Op>, name: string): (r: Res<FS>)
    ensures r.Ok? <==> MkdirTempOp(name) !in fails && !IsRoot(name) && name !in fs
                       && ParentIsDir(fs, name)
    ensures r.Ok? ==> r.value == fs[name := Dir(TempDirMode)]
    ensures r.Err? ==> r.error.op == MkdirTempOp(name)
  {
    var op := MkdirTempOp(name);
    if op in fails then Err(Fail(op))
    else if IsRoot(name) || name in fs then Err(Error(op, Exist))
    else if !ParentIsDir(fs, name) then Err(Error(op, NotExist))
    else Ok(fs[name := Dir(TempDirMode)])
  }

  /** `os.WriteFile`: replaces the content of an existing regular file (its
      mode is kept) or creates the file with `perm`. */
  function WriteFile(fs: FS, fails: set<Op>, p: string, data: seq<byte>, perm: nat): (r: Res<FS>)
    ensures r.Ok? <==> WriteFileOp(p) !in fails && !IsRoot(p) && (p in fs ==> fs[p].File?)
                       && ParentIsDir(fs, p)
    ensures r.Ok? && p in fs ==> r.value == fs[p := File(data, fs[p].mode)]
    ensures r.Ok? && p !in fs ==> r.value == fs[p := File(data, perm)]
    ensures r.Err? ==> r.error.op == WriteFileOp(p)
  {
    var op := WriteFileOp(p);
    if op in fails then Err(Fail(op))
    else if IsRoot(p) || (p in fs && fs[p].Dir?) then Err(Error(op, IsDir))
    else if p in fs && fs[p].Link? then Err(Error(op, NotRegular))
    else if !ParentIsDir(fs, p) then Err(Error(op, NotExist))
    else if p in fs then Ok(fs[p := File(data, fs[p].mode)])
    else Ok(fs[p := File(data, perm)])
  }

  /** `os.Chmod` on a file or directory. */
  function Chmod(fs: FS, fails: set<Op>, p: string, mode: nat): (r: Res<FS>)
    ensures r.Ok? <==> ChmodOp(p) !in fails && p in fs && !fs[p].Link?
    ensures r.Ok? && fs[p].File? ==> r.value == fs[p := File(fs[p].data, mode)]
    ensures r.Ok? && fs[p].Dir? ==> r.value == fs[p := Dir(mode)]
    ensures r.Err? ==> r.error.op == ChmodOp(p)
  {
    var op := ChmodOp(p);
    if op in fails then Err(Fail(op))
    else if p !in fs then Err(Error(op, NotExist))
    else match fs[p]
      case File(d, _) => Ok(fs[p := File(d, mode)])
      case Dir(_) => Ok(fs[p := Dir(mode)])
      case Link(_) => Err(Error(op, NotRegular))
  }

  /** Some proper ancestor of `p` is present and is not a directory, so
      resolving `p` fails with "not a directory" rather than "does not
      exist". */
  predicate Blocked(fs: FS, p: string) {
    exists a :: a in AncestorSet(Parent(p)) && a in fs && !fs[a].Dir?
  }

  /** `os.Lstat`, as far as the writer looks at it: whether it reports that
      `p` does not exist. */
  predicate LstatNotExist(fs: FS, p: string) {
    p !in fs && !Blocked(fs, p)
  }

  /** `os.ReadFile` of a regular file. */
  function ReadFile(fs: FS, fails: set<Op>, p: string): (r: Res<seq<byte>>)
    ensures r.Ok? <==> ReadFileOp(p) !in fails && p in fs && fs[p].File?
    ensures r.Ok? ==> r.value == fs[p].data
    ensures r.Err? && IsNotExist(r.error) <==> ReadFileOp(p) !in fails && LstatNotExist(fs, p)
    ensures r.Err? ==> r.error.op == ReadFileOp(p)
    ensures ReadFileOp(p) !in fails && p !in fs && Blocked(fs, p) ==> r.Err? && r.error.kind == NotDir
    ensures ReadFileOp(p) !in fails && p in fs && fs[p].Dir? ==> r.Err? && r.error.kind == IsDir
  {
    var op := ReadFileOp(p);
    if op in fails then Err(Fail(op))
    else if p !in fs then Err(Error(op, if Blocked(fs, p) then NotDir else NotExist))
    else match fs[p]
      case File(d, _) => Ok(d)
      case Dir(_) => Err(Error(op, IsDir))
      case Link(_) => Err(Error(op, NotRegular))
  }
}
