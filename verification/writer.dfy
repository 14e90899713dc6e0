/** The atomic writer: `Write` projects a payload into the target directory
    by materializing it in a fresh timestamped directory and swapping the
    `..data` link over to it, then prunes what the old snapshot held and the
    new payload no longer references. */
module Writer {
  import opened Values
  import opened Errors
  import opened Paths
  import opened Validation
  import opened FileSystem
  import opened Differ
  import opened Links
  import opened Materialize

  /** A writer bound to its target directory; the filesystem model is rooted
      at that directory. */
  datatype Writer = Writer(targetDir: string)

  /** `NewAtomicWriter`: only a stat result of "does not exist" is an error;
      any other stat error still yields a writer. */
  function NewAtomicWriter(targetDir: string, stat: Option<ErrKind>): (r: Res<Writer>)
    ensures r.Err? <==> stat == Some(NotExist)
    ensures r.Err? ==> IsNotExist(r.error)
    ensures r.Ok? ==> r.value.targetDir == targetDir
  {
    if stat == Some(NotExist) then Err(Error(StatOp(targetDir), NotExist)) else Ok(Writer(targetDir))
  }

  // ---------------------------------------------------------------------------
  // Freshness and the shape of a published snapshot

  /** The generated directory name is new to the tree: nothing lies at or
      inside it, which is what a successful `os.MkdirTemp` finds. */
  ghost predicate Fresh(fs: FS, n: string) {
    forall q :: q in fs ==> !Within(n, q)
  }

  lemma SnapPathWithin(n: string, k: string)
    ensures Within(n, SnapPath(n, k))
  {
  }

  /** The file for key `k` holds exactly the projected bytes and mode. */
  predicate Projected(fs: FS, n: string, k: string, fp: FileProjection) {
    var p := SnapPath(n, k);
    p in fs && fs[p] == File(fp.data, DiskMode(fp.mode))
  }

  /** The snapshot directory `n` holds the payload: mode 0755, every key's
      file with its bytes and mode, and nothing else but the directories
      leading to those files. */
  ghost predicate Holds(fs: FS, n: string, clean: Payload) {
    && n in fs && fs[n] == Dir(TsDirMode)
    && (forall k :: k in clean ==> Projected(fs, n, k, clean[k]))
    && (forall q :: q in fs && Below(n, q) ==>
          InFootprint(n, clean.Keys, q) && (fs[q].Dir? || q in Targets(n, clean.Keys)))
  }

  /** The new payload is live: `..data` names the snapshot that holds it. */
  ghost predicate NewActive(fs: FS, n: string, clean: Payload) {
    && DataDirName in fs && fs[DataDirName] == Link(n)
    && Holds(fs, n, clean)
  }

  // ---------------------------------------------------------------------------
  // Steps 5-7: new directory, payload, visible links

  /** Conditions under which steps 6-7 cannot fail: the new name is fresh,
      the keys can be written into it, and the links they call for can be
      created. */
  ghost predicate PopulateClear(fs: FS, fails: set<Op>, clean: Payload, n: string) {
    && Fresh(fs, n)
    && KeysWritable(fails, n, clean.Keys)
    && LinksCreatable(fails, clean.Keys)
  }

  /** Conditions under which steps 5-7 cannot fail: in addition, neither the
      creation nor the chmod of the new directory is made to fail. */
  ghost predicate StageClear(fs: FS, fails: set<Op>, clean: Payload, n: string) {
    && MkdirTempOp(n) !in fails && ChmodOp(n) !in fails
    && PopulateClear(fs, fails, clean, n)
  }

  /** Create the timestamped directory, write the payload into it and create
      the missing user-visible links.  Nothing that was there changes; a
      failure after the directory was made leaves it behind. */
  method Stage(fs: FS, fails: set<Op>, clean: Payload, t: Timestamp, suffix: nat)
    returns (fs': FS, err: Option<Error>)
    ensures Fresh(fs, TsName(t, suffix)) ==> Preserved(fs, fs')
    ensures forall q :: q in fs && !Within(TsName(t, suffix), q) ==> q in fs' && fs'[q] == fs[q]
    ensures forall q :: q in fs' && q !in fs ==>
              Within(TsName(t, suffix), q) || (q in LinkNames(clean.Keys) && fs'[q] == Link(DataLinkFor(q)))
    ensures StageClear(fs, fails, clean, TsName(t, suffix)) ==> err.None?
    ensures err.None? && Fresh(fs, TsName(t, suffix)) ==> Holds(fs', TsName(t, suffix), clean)
    ensures err.None? ==> forall k :: k in clean && LookupSees(fails, FirstSegment(k)) ==>
              FirstSegment(k) in fs'
    ensures err.Some? && err.value.op != MkdirTempOp(TsName(t, suffix)) ==> TsName(t, suffix) in fs'
    ensures err.Some? && err.value.op == MkdirTempOp(TsName(t, suffix)) ==> fs' == fs
    ensures err.Some? ==>
              (|| err.value.op == MkdirTempOp(TsName(t, suffix)) || err.value.op == ChmodOp(TsName(t, suffix))
               || err.value.op.MkdirAllOp? || err.value.op.WriteFileOp?
               || exists k :: k in clean && err.value.op == SymlinkOp(FirstSegment(k), DataLinkFor(FirstSegment(k))))
  {
    var n := TsName(t, suffix);
    TsNameShape(t, suffix);
    var fs1, ts := NewTimestampDir(fs, fails, t, suffix);
    if ts.Err? {
      return fs1, Some(ts.error);
    }
    fs', err := Populate(fs, fs1, fails, clean, n);
  }

  /** Steps 6-7 once the directory `n` is made: write the payload into it,
      then create the missing user-visible links. */
  method Populate(fs: FS, fs1: FS, fails: set<Op>, clean: Payload, n: string)
    returns (fs': FS, err: Option<Error>)
    requires Sep !in n
    requires fs1 == fs[n := Dir(TsDirMode)]
    ensures Fresh(fs, n) ==> Preserved(fs, fs')
    ensures forall q :: q in fs && !Within(n, q) ==> q in fs' && fs'[q] == fs[q]
    ensures forall q :: q in fs' && q !in fs ==>
              Within(n, q) || (q in LinkNames(clean.Keys) && fs'[q] == Link(DataLinkFor(q)))
    ensures PopulateClear(fs, fails, clean, n) ==> err.None?
    ensures err.None? && Fresh(fs, n) ==> Holds(fs', n, clean)
    ensures err.None? ==> forall k :: k in clean && LookupSees(fails, FirstSegment(k)) ==>
              FirstSegment(k) in fs'
    ensures n in fs'
    ensures err.Some? ==>
              (|| err.value.op.MkdirAllOp? || err.value.op.WriteFileOp?
               || exists k :: k in clean && err.value.op == SymlinkOp(FirstSegment(k), DataLinkFor(FirstSegment(k))))
  {
    if PopulateClear(fs, fails, clean, n) {
      ClearWritable(fs, fs1, fails, clean, n);
    }
    var fs2, e2 := WritePayloadToDir(fs1, fails, n, clean);
    NewEntriesWithin(fs, fs1, fs2, n, clean);
    OutsideKept(fs1, fs2, n, clean);
    if Fresh(fs, n) {
      FreshFrame(fs, fs1, fs2, n, clean);
    }
    if e2.Some? {
      return fs2, e2;
    }
    if Fresh(fs, n) {
      FreshWritten(fs, fs1, fs2, fails, n, clean);
    }
    var fs3, e3 := CreateUserVisibleFiles(fs2, fails, clean);
    LinkNamesTopLevel(clean.Keys);
    if Fresh(fs, n) && e3.None? {
      LinksOutside(fs2, fs3, n, clean);
    }
    return fs3, e3;
  }


  /** A fresh name, once made, is an empty directory the keys can be written
      into. */
  lemma ClearWritable(fs: FS, fs1: FS, fails: set<Op>, clean: Payload, n: string)
    requires Sep !in n
    requires fs1 == fs[n := Dir(TsDirMode)]
    requires PopulateClear(fs, fails, clean, n)
    ensures PayloadWritable(fs1, fails, n, clean.Keys)
  {
  }

  /** Everything the payload write adds lies in the new directory. */
  lemma NewEntriesWithin(fs: FS, fs1: FS, fs2: FS, n: string, clean: Payload)
    requires Sep !in n
    requires fs1 == fs[n := Dir(TsDirMode)]
    requires Framed(fs1, n, clean.Keys, clean.Keys, fs2)
    ensures n in fs2
    ensures forall q :: q in fs2 && q !in fs ==> Within(n, q)
  {
    forall q | q in fs2 && q !in fs ensures Within(n, q) {
      if q != n {
        var k :| k in clean.Keys && q in AncestorSet(SnapPath(n, k));
        if k != "." {
          AncestorsWithin(n, SnapPath(n, k), q);
        }
      }
    }
  }

  /** Writing the payload into `n` leaves every entry outside `n` as it
      was. */
  lemma OutsideKept(fs1: FS, fs2: FS, n: string, clean: Payload)
    requires Framed(fs1, n, clean.Keys, clean.Keys, fs2)
    ensures forall q :: q in fs1 && !Within(n, q) ==> q in fs2 && fs2[q] == fs1[q]
  {
    forall q | q in fs1 && !Within(n, q) ensures q in fs2 && fs2[q] == fs1[q] {
      if q in Targets(n, clean.Keys) {
        var k :| k in clean.Keys && q == SnapPath(n, k);
        SnapPathWithin(n, k);
      }
    }
  }

  /** Writing the payload into a fresh directory leaves the rest of the tree
      as it was. */
  lemma FreshFrame(fs: FS, fs1: FS, fs2: FS, n: string, clean: Payload)
    requires Sep !in n && Fresh(fs, n)
    requires fs1 == fs[n := Dir(TsDirMode)]
    requires Framed(fs1, n, clean.Keys, clean.Keys, fs2)
    ensures Preserved(fs, fs2)
  {
    forall q | q in fs ensures q in fs2 && fs2[q] == fs[q] {
      if q in Targets(n, clean.Keys) {
        var k :| k in clean.Keys && q == SnapPath(n, k);
        SnapPathWithin(n, k);
      }
    }
  }

  /** After a successful write into a fresh directory, the directory holds
      exactly the payload. */
  lemma FreshWritten(fs: FS, fs1: FS, fs2: FS, fails: set<Op>, n: string, clean: Payload)
    requires Sep !in n && Fresh(fs, n)
    requires fs1 == fs[n := Dir(TsDirMode)]
    requires Framed(fs1, n, clean.Keys, clean.Keys, fs2)
    requires forall k :: k in clean ==> WrittenAt(fs1, fails, n, clean, k, fs2)
    ensures Holds(fs2, n, clean)
  {
    forall k | k in clean ensures Projected(fs2, n, k, clean[k]) {
      assert WrittenAt(fs1, fails, n, clean, k, fs2);
      SnapPathWithin(n, k);
    }
  }

  /** The visible links are top-level names, so they leave the snapshot
      alone. */
  lemma LinksOutside(fs2: FS, fs3: FS, n: string, clean: Payload)
    requires Holds(fs2, n, clean)
    requires Preserved(fs2, fs3)
    requires forall q :: q in fs3 && q !in fs2 ==> Sep !in q
    ensures Holds(fs3, n, clean)
  {
    forall q | q in fs3 && Below(n, q) ensures q in fs2 {
      BelowHasSep(n, q);
    }
  }

  lemma LinkNamesTopLevel(keys: set<string>)
    ensures forall q :: q in LinkNames(keys) ==> Sep !in q
  {
  }

  // ---------------------------------------------------------------------------
  // Steps 8-9: the atomic swap

  /** The two reserved link names are top-level, separator-free names. */
  lemma ReservedNames()
    ensures Sep !in DataDirName && Sep !in NewDataDirName
    ensures Parent(DataDirName) == "" && Parent(NewDataDirName) == ""
    ensures !IsRoot(DataDirName) && !IsRoot(NewDataDirName)
  {
    assert LastSep(DataDirName) < 0;
    assert LastSep(NewDataDirName) < 0;
  }

  /** Create `..data_tmp -> n` and rename it over `..data`.  If the link
      cannot be created, `n` is removed; if the rename fails, the temporary
      link and `n` are removed.  The errors of those removals are ignored. */
  method Swap(fs: FS, fails: set<Op>, n: string) returns (fs': FS, err: Option<Error>)
    ensures err.None? <==>
              && SymlinkOp(NewDataDirName, n) !in fails && NewDataDirName !in fs
              && RenameOp(NewDataDirName, DataDirName) !in fails
              && !(DataDirName in fs && fs[DataDirName].Dir?)
    ensures err.None? ==> fs' == fs[DataDirName := Link(n)]
    ensures err.Some? ==>
              err.value.op == SymlinkOp(NewDataDirName, n) || err.value.op == RenameOp(NewDataDirName, DataDirName)
    ensures err.Some? ==> forall q :: q in fs && !Within(n, q) ==> q in fs' && fs'[q] == fs[q]
    ensures err.Some? ==> forall q :: q in fs' && q != NewDataDirName ==> q in fs && fs'[q] == fs[q]
    ensures err.Some? && err.value.op == SymlinkOp(NewDataDirName, n) ==> Shrunk(fs, fs')
    ensures err.Some? && RemoveAllOp(n) !in fails ==> forall q :: Within(n, q) ==> q !in fs'
    ensures err.Some? && err.value.op == RenameOp(NewDataDirName, DataDirName) && RemoveOp(NewDataDirName) !in fails ==>
              NewDataDirName !in fs'
  {
    ReservedNames();
    var made := Symlink(fs, fails, n, NewDataDirName);
    if made.Err? {
      var ra := RemoveAll(fs, fails, n);
      fs' := if ra.Ok? then ra.value else fs;
      return fs', Some(made.error);
    }
    var fs1 := made.value;
    var moved := Rename(fs1, fails, NewDataDirName, DataDirName);
    if moved.Err? {
      var rm := Remove(fs1, fails, NewDataDirName);
      var fs2 := if rm.Ok? then rm.value else fs1;
      var ra := RemoveAll(fs2, fails, n);
      fs' := if ra.Ok? then ra.value else fs2;
      return fs', Some(moved.error);
    }
    assert moved.value == fs[DataDirName := Link(n)];
    return moved.value, None;
  }

  // ---------------------------------------------------------------------------
  // Steps 10-11: pruning

  /** Remove the stale top-level paths, then, if there was an old snapshot,
      remove it with everything inside.  A failed removal of a stale path
      returns before the old snapshot is touched. */
  method Prune(fs: FS, fails: set<Op>, oldDir: string, stale: set<string>) returns (fs': FS, err: Option<Error>)
    ensures Shrunk(fs, fs')
    ensures forall q :: q in fs && !(q in stale && TopLevel(q)) && !(oldDir != "" && Within(oldDir, q)) ==> q in fs'
    ensures err.None? <==>
              && (forall p :: p in stale && TopLevel(p) ==> Removable(fs, fails, p))
              && (oldDir != "" ==> RemoveAllOp(oldDir) !in fails)
    ensures err.None? ==> forall p :: p in stale && TopLevel(p) ==> p !in fs'
    ensures err.None? && oldDir != "" ==> forall q :: Within(oldDir, q) ==> q !in fs'
    ensures err.Some? ==> err.value.op.RemoveOp? || err.value.op == RemoveAllOp(oldDir)
    ensures err.Some? && err.value.op.RemoveOp? ==>
              forall q :: q in fs && !(q in stale && TopLevel(q)) ==> q in fs'
  {
    var fs1, e1 := RemoveUserVisiblePaths(fs, fails, stale);
    if e1.Some? {
      return fs1, e1;
    }
    if oldDir != "" {
      var ra := RemoveAll(fs1, fails, oldDir);
      if ra.Err? {
        return fs1, Some(ra.error);
      }
      return ra.value, None;
    }
    return fs1, None;
  }

  // ---------------------------------------------------------------------------
  // Write

  /** The target of the `..data` link, or `""` when there is no link. */
  function OldTarget(fs: FS, fails: set<Op>): string {
    var look := Readlink(fs, fails, DataDirName);
    if look.Ok? then look.value else ""
  }

  /** Reading the `..data` link either succeeds or reports that it does not
      exist; anything else aborts the write. */
  predicate LinkReadable(fs: FS, fails: set<Op>) {
    var look := Readlink(fs, fails, DataDirName);
    look.Ok? || IsNotExist(look.error)
  }

  /** The paths of the old snapshot the new payload no longer references. */
  function Stale(fs: FS, oldDir: string, keys: set<string>): set<string> {
    if oldDir == "" then {} else SnapshotPaths(fs, oldDir) - Referenced(keys)
  }

  /** The old snapshot already holds the payload and nothing more: no update
      is needed. */
  predicate UpToDate(fs: FS, fails: set<Op>, clean: Payload, oldDir: string) {
    && oldDir != ""
    && (forall c :: c in clean ==> Same(fs, fails, SnapPath(oldDir, c), clean[c].data))
    && Stale(fs, oldDir, clean.Keys) == {}
  }

  /** Nothing the comparison sees calls for an update: there is an old
      snapshot, no key's file there is reported absent or found to hold
      other bytes, and nothing in it is stale.  Every key's file is then
      either the same or unreadable, and an unreadable one (a key whose
      path runs through a file of the old snapshot, say) stops the write
      with its read error. */
  predicate NothingNew(fs: FS, fails: set<Op>, clean: Payload, oldDir: string) {
    && oldDir != ""
    && (forall c :: c in clean ==> !Differs(fs, fails, SnapPath(oldDir, c), clean[c].data))
    && Stale(fs, oldDir, clean.Keys) == {}
  }

  /** A snapshot whose every entry lies on the way to one of the keys'
      files has nothing stale for those keys. */
  lemma FootprintNotStale(fs: FS, n: string, keys: set<string>)
    requires n != "" && "." !in keys
    requires forall q :: q in fs && Below(n, q) ==> InFootprint(n, keys, q)
    ensures Stale(fs, n, keys) == {}
  {
    forall p | p in SnapshotPaths(fs, n) ensures p in Referenced(keys) {
      var q :| q in fs && Below(n, q) && |q| > |n| + 1 && p == q[|n| + 1..];
      assert InFootprint(n, keys, q);
      var k :| k in keys && q in AncestorSet(SnapPath(n, k));
      AncestorBelow(n, k, q);
    }
  }

  /** Writing a payload again is a no-op: once `..data` names a snapshot
      that holds the payload, and the link and the payload's files can be
      read, the old target is that snapshot and it is up to date. */
  lemma ActiveIsUpToDate(fs: FS, fails: set<Op>, n: string, clean: Payload)
    requires n != "" && NewActive(fs, n, clean)
    requires ReadlinkOp(DataDirName) !in fails
    requires forall c :: c in clean ==> ReadFileOp(SnapPath(n, c)) !in fails
    ensures OldTarget(fs, fails) == n
    ensures UpToDate(fs, fails, clean, n)
  {
    ReservedNames();
    forall c | c in clean ensures Same(fs, fails, SnapPath(n, c), clean[c].data) {
      assert Projected(fs, n, c, clean[c]);
    }
    FootprintNotStale(fs, n, clean.Keys);
  }

  /** An old link target that names one entry of the target directory: the
      path the old snapshot is removed by, the target directory joined with
      the link target, is then that entry and nothing else.  A target `.`
      or `..`, or one with a separator, is cleaned by the join first. */
  predicate PlainTarget(o: string) {
    Sep !in o && o != "." && o != ".."
  }

  /** The assumptions under which the swap is clean: the generated name is
      fresh, and the old link is a plain name that points neither at
      `..data` nor at the generated name, and the old snapshot holds no
      top-level entry called `..data` or the generated name (pruning would
      remove either). */
  ghost predicate Sane(fs: FS, n: string) {
    && Fresh(fs, n)
    && (DataDirName in fs && fs[DataDirName].Link? ==>
          && PlainTarget(fs[DataDirName].target)
          && fs[DataDirName].target != DataDirName
          && fs[DataDirName].target + [Sep] + DataDirName !in fs
          && fs[DataDirName].target != n
          && fs[DataDirName].target + [Sep] + n !in fs)
  }

  /** Pointing `..data` at a directory that holds the payload makes the
      payload live. */
  lemma SwapActive(fs3: FS, fs4: FS, n: string, clean: Payload)
    requires n != DataDirName
    requires Holds(fs3, n, clean)
    requires fs4 == fs3[DataDirName := Link(n)]
    ensures NewActive(fs4, n, clean)
  {
    ReservedNames();
    forall k | k in clean ensures Projected(fs4, n, k, clean[k]) {
      BelowHasSep(n, SnapPath(n, k));
      assert Projected(fs3, n, k, clean[k]);
    }
    forall q | q in fs4 && Below(n, q)
      ensures InFootprint(n, clean.Keys, q) && (fs4[q].Dir? || q in Targets(n, clean.Keys))
    {
      BelowHasSep(n, q);
    }
  }

  /** Under `Sane`, neither pruning step can reach `..data` or the new
      snapshot: the stale set names neither, and the old snapshot does not
      contain them. */
  lemma SaneAvoids(fs: FS, fails: set<Op>, n: string, keys: set<string>)
    requires Sep !in n && Sane(fs, n)
    ensures var o := OldTarget(fs, fails);
      && n !in Stale(fs, o, keys) && DataDirName !in Stale(fs, o, keys)
      && (o != "" ==> !Within(o, DataDirName) && n !in Split(o))
  {
    var o := OldTarget(fs, fails);
    ReservedNames();
    if o != "" {
      SnapshotMemberIf(fs, o, n);
      SnapshotMemberIf(fs, o, DataDirName);
      SplitNoSep(o);
      BelowHasSep(o, DataDirName);
    }
  }

  lemma SnapshotMemberIf(fs: FS, dir: string, p: string)
    ensures p in SnapshotPaths(fs, dir) ==> dir + [Sep] + p in fs
  {
    if p in SnapshotPaths(fs, dir) {
      SnapshotMember(fs, dir, p);
    }
  }

  /** Pruning keeps a live snapshot live when it avoids `..data` and the
      snapshot. */
  lemma PruneKeepsActive(fs4: FS, fs': FS, n: string, clean: Payload, oldDir: string, stale: set<string>)
    requires Sep !in n
    requires NewActive(fs4, n, clean)
    requires Shrunk(fs4, fs')
    requires forall q :: q in fs4 && !(q in stale && TopLevel(q)) && !(oldDir != "" && Within(oldDir, q)) ==> q in fs'
    requires n !in stale && DataDirName !in stale
    requires oldDir != "" ==> !Within(oldDir, DataDirName) && n !in Split(oldDir)
    ensures NewActive(fs', n, clean)
  {
    forall k | k in clean ensures Projected(fs', n, k, clean[k]) {
      var p := SnapPath(n, k);
      assert Projected(fs4, n, k, clean[k]);
      SnapPathWithin(n, k);
      SharedWithin(n, oldDir, p);
      BelowHasSep(n, p);
    }
    SharedWithin(n, oldDir, n);
  }

  /** A non-empty relative key's first segment is one of its ancestors, so
      pruning never removes the link for a key it keeps. */
  lemma FirstSegmentAncestor(k: string)
    requires k != "" && k[0] != Sep
    ensures FirstSegment(k) in AncestorSet(k)
  {
    var i := FirstSep(k);
    if i < |k| {
      assert k[..i] in AncestorSet(k);
    }
  }

  /** Keys a valid payload cleans to are non-empty and relative. */
  predicate RelativeKeys(clean: Payload) {
    forall c :: c in clean ==> c != "" && c[0] != Sep
  }

  lemma CleanedRelative(payload: Payload, clean: Payload)
    requires CleanOf(payload, clean)
    ensures RelativeKeys(clean)
  {
    forall c | c in clean ensures c != "" && c[0] != Sep {
      var r :| r in payload && ValidPath(r) && Clean(r) == c && payload[r] == clean[c];
      CleanKeepsLimits(r);
    }
  }

  lemma VisibleKept(fs4: FS, fs': FS, fails: set<Op>, clean: Payload, oldDir: string, stale: set<string>)
    requires RelativeKeys(clean)
    requires forall k :: k in clean && LookupSees(fails, FirstSegment(k)) ==> FirstSegment(k) in fs4
    requires forall q :: q in fs4 && !(q in stale && TopLevel(q)) && !(oldDir != "" && Within(oldDir, q)) ==> q in fs'
    requires forall p :: p in stale ==> p !in Referenced(clean.Keys)
    ensures forall k :: k in clean && LookupSees(fails, FirstSegment(k)) && FirstSegment(k) != oldDir ==>
              FirstSegment(k) in fs'
  {
    forall k | k in clean && LookupSees(fails, FirstSegment(k)) && FirstSegment(k) != oldDir
      ensures FirstSegment(k) in fs'
    {
      FirstSegmentAncestor(k);
      BelowHasSep(oldDir, FirstSegment(k));
    }
  }

  /** What steps 5-11 promise, for the generated name `n` and the old link
      target `oldDir`:
      - under `Sane`, the tree is either untouched (entries may have been
        added) or the new payload is live;
      - on success under `Sane`, the new payload is live, `..data_tmp` is
        gone, every stale top-level path is gone and the old snapshot is
        gone;
      - on success with a plain old target, the link of every key whose
        lookup went through is present (unless it is the old snapshot's
        own name);
      - a failure to create or rename `..data_tmp` removes `n` unless that
        removal fails, and a failed rename also removes `..data_tmp`;
      - a failure after `n` was made and before the swap leaves `n`
        behind;
      - a failure before pruning leaves every entry outside `n`, `..data`
        among them, as it was;
      - the only entries ever added are inside `n`, the two reserved links
        and visible links `<name> -> ..data/<name>` for the keys;
      - under `CommitClear` the whole sequence succeeds. */
  ghost predicate Committed(fs: FS, fails: set<Op>, clean: Payload, oldDir: string, n: string,
                            fs': FS, err: Option<Error>)
  {
    && (Sane(fs, n) ==> Preserved(fs, fs') || NewActive(fs', n, clean))
    && (err.None? && Sane(fs, n) ==>
          && NewActive(fs', n, clean)
          && NewDataDirName !in fs'
          && (forall p :: p in Stale(fs, oldDir, clean.Keys) && TopLevel(p) ==> p !in fs')
          && (oldDir != "" ==> forall q :: Within(oldDir, q) ==> q !in fs'))
    && (err.None? && PlainTarget(oldDir) ==>
          forall k :: k in clean && LookupSees(fails, FirstSegment(k)) && FirstSegment(k) != oldDir ==>
            FirstSegment(k) in fs')
    && (err.Some? ==> !err.value.op.ReadFileOp?)
    && (err.Some? && !err.value.op.RemoveOp? && !err.value.op.RemoveAllOp? ==>
          forall q :: q in fs && !Within(n, q) ==> q in fs' && fs'[q] == fs[q])
    && (err.Some? && RemoveAllOp(n) !in fails
        && (err.value.op == SymlinkOp(NewDataDirName, n) || err.value.op == RenameOp(NewDataDirName, DataDirName)) ==>
          forall q :: Within(n, q) ==> q !in fs')
    && (err.Some? && err.value.op == RenameOp(NewDataDirName, DataDirName) && RemoveOp(NewDataDirName) !in fails ==>
          NewDataDirName !in fs')
    && (err.Some? && (|| err.value.op.MkdirAllOp? || err.value.op.WriteFileOp? || err.value.op.ChmodOp?
                      || (err.value.op.SymlinkOp? && err.value.op != SymlinkOp(NewDataDirName, n))) ==>
          n in fs')
    && (forall q :: q in fs' && q !in fs ==>
          || Within(n, q) || q == DataDirName || q == NewDataDirName
          || (q in LinkNames(clean.Keys) && fs'[q] == Link(DataLinkFor(q))))
    && (CommitClear(fs, fails, clean, oldDir, n) ==> err.None?)
  }

  /** Conditions under which steps 8-11 cannot fail: neither creating nor
      renaming `..data_tmp` is made to fail, nothing is at `..data_tmp` nor
      will a visible link be, `..data` is not a directory, every stale
      top-level path can be removed and so can the old snapshot. */
  ghost predicate PublishClear(fs: FS, fails: set<Op>, clean: Payload, oldDir: string, n: string) {
    && SymlinkOp(NewDataDirName, n) !in fails && RenameOp(NewDataDirName, DataDirName) !in fails
    && NewDataDirName !in fs && NewDataDirName !in LinkNames(clean.Keys)
    && !(DataDirName in fs && fs[DataDirName].Dir?)
    && (forall p :: p in Stale(fs, oldDir, clean.Keys) && TopLevel(p) ==> Removable(fs, fails, p))
    && (oldDir != "" ==> RemoveAllOp(oldDir) !in fails)
  }

  /** Conditions under which steps 5-11 cannot fail. */
  ghost predicate CommitClear(fs: FS, fails: set<Op>, clean: Payload, oldDir: string, n: string) {
    && Sane(fs, n)
    && StageClear(fs, fails, clean, n)
    && PublishClear(fs, fails, clean, oldDir, n)
  }

  /** Staging keeps `PublishClear` true of the staged tree: `..data_tmp`
      is still absent, `..data` still no directory, and every stale path
      still removable once `..data` points at `n`. */
  lemma StagedClear(fs: FS, fs3: FS, fails: set<Op>, clean: Payload, oldDir: string, n: string)
    requires Sep !in n && n != DataDirName && n != NewDataDirName
    requires oldDir == OldTarget(fs, fails)
    requires CommitClear(fs, fails, clean, oldDir, n)
    requires Preserved(fs, fs3)
    requires forall q :: q in fs3 && q !in fs ==>
               Within(n, q) || (q in LinkNames(clean.Keys) && fs3[q] == Link(DataLinkFor(q)))
    ensures NewDataDirName !in fs3 && !(DataDirName in fs3 && fs3[DataDirName].Dir?)
    ensures forall p :: p in Stale(fs, oldDir, clean.Keys) && TopLevel(p) ==>
              Removable(fs3[DataDirName := Link(n)], fails, p)
  {
    ReservedNames();
    BelowHasSep(n, NewDataDirName);
    BelowHasSep(n, DataDirName);
    StaleRemovable(fs, fs3, fails, clean, oldDir, n);
  }

  lemma StaleRemovable(fs: FS, fs3: FS, fails: set<Op>, clean: Payload, oldDir: string, n: string)
    requires Sep !in n
    requires oldDir == OldTarget(fs, fails)
    requires Sane(fs, n)
    requires forall p :: p in Stale(fs, oldDir, clean.Keys) && TopLevel(p) ==> Removable(fs, fails, p)
    requires Preserved(fs, fs3)
    requires forall q :: q in fs3 && q !in fs ==> Within(n, q) || q in LinkNames(clean.Keys)
    ensures forall p :: p in Stale(fs, oldDir, clean.Keys) && TopLevel(p) ==>
              Removable(fs3[DataDirName := Link(n)], fails, p)
  {
    ReservedNames();
    LinkNamesTopLevel(clean.Keys);
    SaneAvoids(fs, fails, n, clean.Keys);
    var fs4 := fs3[DataDirName := Link(n)];
    forall p | p in Stale(fs, oldDir, clean.Keys) && TopLevel(p) ensures Removable(fs4, fails, p) {
      RemovableKept(fs, fs4, fails, n, p);
    }
  }

  /** A stale top-level path that could be removed before the new snapshot,
      its links and `..data` were added can still be removed: none of those
      lies inside it. */
  lemma RemovableKept(fs: FS, fs4: FS, fails: set<Op>, n: string, p: string)
    requires Sep !in n && TopLevel(p) && p != n && p != DataDirName
    requires Removable(fs, fails, p)
    requires forall q :: q in fs && q != DataDirName ==> q in fs4 && fs4[q] == fs[q]
    requires forall q :: q in fs4 && q !in fs ==> Within(n, q) || Sep !in q
    ensures Removable(fs4, fails, p)
  {
    if fs4[p].Dir? && HasChildren(fs4, p) {
      var q :| q in fs4 && Below(p, q);
      BelowHasSep(p, q);
      if q !in fs {
        SharedWithin(n, p, q);
        SplitNoSep(p);
      }
    }
  }

  /** Steps 5-11 once an update is known to be needed: stage the new
      snapshot, swap the link, prune.  `oldDir` is the old link's target and
      `stale` what pruning removes. */
  method Commit(fs: FS, fails: set<Op>, clean: Payload, oldDir: string, stale: set<string>, t: Timestamp, suffix: nat)
    returns (fs': FS, err: Option<Error>)
    requires RelativeKeys(clean)
    requires oldDir == OldTarget(fs, fails)
    requires stale == Stale(fs, oldDir, clean.Keys)
    ensures Committed(fs, fails, clean, oldDir, TsName(t, suffix), fs', err)
  {
    var n := TsName(t, suffix);
    TsNameShape(t, suffix);
    var fs3, e3 := Stage(fs, fails, clean, t, suffix);
    if e3.Some? {
      return fs3, e3;
    }
    fs', err := Publish(fs, fs3, fails, clean, oldDir, stale, n);
  }

  /** Steps 8-11 on the staged tree `fs3`: swap the link, then prune. */
  method Publish(fs: FS, fs3: FS, fails: set<Op>, clean: Payload, oldDir: string, stale: set<string>, n: string)
    returns (fs': FS, err: Option<Error>)
    requires Sep !in n && IsReserved(n) && n != DataDirName && n != NewDataDirName
    requires RelativeKeys(clean)
    requires oldDir == OldTarget(fs, fails)
    requires stale == Stale(fs, oldDir, clean.Keys)
    requires Fresh(fs, n) ==> Preserved(fs, fs3) && Holds(fs3, n, clean)
    requires forall q :: q in fs && !Within(n, q) ==> q in fs3 && fs3[q] == fs[q]
    requires forall q :: q in fs3 && q !in fs ==>
               Within(n, q) || (q in LinkNames(clean.Keys) && fs3[q] == Link(DataLinkFor(q)))
    requires forall k :: k in clean && LookupSees(fails, FirstSegment(k)) ==> FirstSegment(k) in fs3
    ensures Committed(fs, fails, clean, oldDir, n, fs', err)
  {
    ReservedNames();
    LinkNamesTopLevel(clean.Keys);
    if CommitClear(fs, fails, clean, oldDir, n) {
      StagedClear(fs, fs3, fails, clean, oldDir, n);
    }
    var fs4, e4 := Swap(fs3, fails, n);
    if e4.Some? {
      SwapFailed(fs, fs3, fs4, fails, clean, oldDir, n, e4.value);
      return fs4, e4;
    }
    if Sane(fs, n) {
    }
    if Sane(fs, n) {
      SwapActive(fs3, fs4, n, clean);
    }
    fs', err := Retire(fs, fs4, fails, clean, oldDir, stale, n);
  }

  /** A failed swap leaves the staged tree as `Swap` describes it, and that
      is all `Committed` asks of a failure. */
  lemma SwapFailed(fs: FS, fs3: FS, fs4: FS, fails: set<Op>, clean: Payload, oldDir: string, n: string, e: Error)
    requires Sep !in n
    requires Fresh(fs, n) ==> Preserved(fs, fs3)
    requires forall q :: q in fs && !Within(n, q) ==> q in fs3 && fs3[q] == fs[q]
    requires forall q :: q in fs3 && q !in fs ==>
               Within(n, q) || (q in LinkNames(clean.Keys) && fs3[q] == Link(DataLinkFor(q)))
    requires !CommitClear(fs, fails, clean, oldDir, n)
    requires e.op == SymlinkOp(NewDataDirName, n) || e.op == RenameOp(NewDataDirName, DataDirName)
    requires forall q :: q in fs3 && !Within(n, q) ==> q in fs4 && fs4[q] == fs3[q]
    requires forall q :: q in fs4 && q != NewDataDirName ==> q in fs3 && fs4[q] == fs3[q]
    requires RemoveAllOp(n) !in fails ==> forall q :: Within(n, q) ==> q !in fs4
    requires e.op == RenameOp(NewDataDirName, DataDirName) && RemoveOp(NewDataDirName) !in fails ==>
               NewDataDirName !in fs4
    ensures Committed(fs, fails, clean, oldDir, n, fs4, Some(e))
  {
    if Sane(fs, n) {
    }
  }

  /** Steps 10-11 once `..data` points at `n`: prune the stale paths and
      the old snapshot. */
  method Retire(fs: FS, fs4: FS, fails: set<Op>, clean: Payload, oldDir: string, stale: set<string>, n: string)
    returns (fs': FS, err: Option<Error>)
    requires Sep !in n && n != DataDirName && n != NewDataDirName
    requires RelativeKeys(clean)
    requires oldDir == OldTarget(fs, fails)
    requires stale == Stale(fs, oldDir, clean.Keys)
    requires Sane(fs, n) ==> NewActive(fs4, n, clean)
    requires NewDataDirName !in fs4
    requires forall q :: q in fs4 && q !in fs ==>
               || Within(n, q) || q == DataDirName
               || (q in LinkNames(clean.Keys) && fs4[q] == Link(DataLinkFor(q)))
    requires forall k :: k in clean && LookupSees(fails, FirstSegment(k)) ==> FirstSegment(k) in fs4
    requires CommitClear(fs, fails, clean, oldDir, n) ==>
               forall p :: p in stale && TopLevel(p) ==> Removable(fs4, fails, p)
    ensures Committed(fs, fails, clean, oldDir, n, fs', err)
  {
    if Sane(fs, n) {
      SaneAvoids(fs, fails, n, clean.Keys);
    }
    fs', err := Prune(fs4, fails, oldDir, stale);
    if Sane(fs, n) {
      PruneKeepsActive(fs4, fs', n, clean, oldDir, stale);
    }
    VisibleKept(fs4, fs', fails, clean, oldDir, stale);
  }


  /** The outcome of steps 1-4: stop with a result, or go on with the
      cleaned payload, the old link target and the stale paths. */
  datatype Plan =
    | Stop(result: Option<Error>)
    | Go(clean: Payload, oldDir: string, stale: set<string>)

  /** Steps 1-4: validate the payload, read the `..data` link, and, when
      there is an old snapshot, compute the stale paths and compare; an
      unchanged payload with nothing stale stops without error. */
  method Prepare(fs: FS, fails: set<Op>, payload: Payload) returns (plan: Plan, ghost clean: Payload)
    ensures (exists k :: k in payload && !ValidPath(k)) ==>
              && plan.Stop? && plan.result.Some?
              && exists k :: k in payload && ValidatePath(k).Some?
                             && plan.result.value == Error(Validate(k), InvalidPath(ValidatePath(k).value))
    ensures (forall k :: k in payload ==> ValidPath(k)) ==> CleanOf(payload, clean)
    ensures (forall k :: k in payload ==> ValidPath(k)) && !LinkReadable(fs, fails) ==>
              plan == Stop(Some(Readlink(fs, fails, DataDirName).error))
    ensures (forall k :: k in payload ==> ValidPath(k)) && LinkReadable(fs, fails)
            && UpToDate(fs, fails, clean, OldTarget(fs, fails)) ==>
              plan == Stop(None)
    ensures (forall k :: k in payload ==> ValidPath(k)) && LinkReadable(fs, fails)
            && !UpToDate(fs, fails, clean, OldTarget(fs, fails)) ==>
              plan.Go? || (plan.Stop? && plan.result.Some? && plan.result.value.op.ReadFileOp?)
    ensures plan.Stop? && plan.result.Some? && plan.result.value.op.ReadFileOp? ==>
              && OldTarget(fs, fails) != ""
              && exists c :: c in clean && Unreadable(fs, fails, SnapPath(OldTarget(fs, fails), c))
    ensures plan.Go? ==>
              && (forall k :: k in payload ==> ValidPath(k)) && LinkReadable(fs, fails)
              && !UpToDate(fs, fails, clean, OldTarget(fs, fails))
              && plan.clean == clean && RelativeKeys(clean)
              && plan.oldDir == OldTarget(fs, fails)
              && plan.stale == Stale(fs, plan.oldDir, clean.Keys)
              && !NothingNew(fs, fails, clean, plan.oldDir)
  {
    clean := map[];
    var v := ValidatePayload(payload);
    if v.Err? {
      return Stop(Some(v.error)), clean;
    }
    var cleaned := v.value;
    clean := cleaned;
    CleanedRelative(payload, clean);
    var oldDir := "";
    var look := Readlink(fs, fails, DataDirName);
    if look.Err? {
      if !IsNotExist(look.error) {
        return Stop(Some(look.error)), clean;
      }
    } else {
      oldDir := look.value;
    }
    plan := Compare(fs, fails, cleaned, oldDir);
  }

  /** Step 4: with an old snapshot, compute the stale paths and compare the
      payload against it; stop without error exactly when it is up to date,
      and with the first read error met. */
  method Compare(fs: FS, fails: set<Op>, clean: Payload, oldDir: string) returns (plan: Plan)
    ensures plan == Stop(None) <==> UpToDate(fs, fails, clean, oldDir)
    ensures plan.Stop? && plan.result.Some? ==>
              && plan.result.value.op.ReadFileOp? && oldDir != ""
              && exists c :: c in clean && Unreadable(fs, fails, SnapPath(oldDir, c))
    ensures plan.Go? ==> plan.clean == clean && plan.oldDir == oldDir && plan.stale == Stale(fs, oldDir, clean.Keys)
    ensures plan.Go? ==> !NothingNew(fs, fails, clean, oldDir)
  {
    var stale: set<string> := {};
    if oldDir != "" {
      stale := PathsToRemove(fs, oldDir, clean);
      var should := ShouldWritePayload(fs, fails, oldDir, clean);
      if should.Err? {
        return Stop(Some(should.error));
      }
      if !should.value && stale == {} {
        return Stop(None);
      }
    }
    return Go(clean, oldDir, stale);
  }

  /** `Write`: validate, read the current link, compare, stage the new
      snapshot, swap the link, prune.  `clean` is the cleaned payload the
      validator produced. */
  method Write(fs: FS, fails: set<Op>, payload: Payload, t: Timestamp, suffix: nat)
    returns (fs': FS, err: Option<Error>, ghost clean: Payload)
    ensures (exists k :: k in payload && !ValidPath(k)) ==>
              && fs' == fs && err.Some?
              && exists k :: k in payload && ValidatePath(k).Some?
                             && err.value == Error(Validate(k), InvalidPath(ValidatePath(k).value))
    ensures (forall k :: k in payload ==> ValidPath(k)) ==> CleanOf(payload, clean)
    ensures (forall k :: k in payload ==> ValidPath(k)) && !LinkReadable(fs, fails) ==>
              fs' == fs && err == Some(Readlink(fs, fails, DataDirName).error)
    ensures (forall k :: k in payload ==> ValidPath(k)) && LinkReadable(fs, fails)
            && UpToDate(fs, fails, clean, OldTarget(fs, fails)) ==>
              err.None? && fs' == fs
    ensures err.Some? && err.value.op.ReadFileOp? ==>
              && fs' == fs && OldTarget(fs, fails) != ""
              && exists c :: c in clean && Unreadable(fs, fails, SnapPath(OldTarget(fs, fails), c))
    ensures (forall k :: k in payload ==> ValidPath(k)) && LinkReadable(fs, fails)
            && (OldTarget(fs, fails) != "" ==>
                  forall c :: c in clean ==> !Unreadable(fs, fails, SnapPath(OldTarget(fs, fails), c)))
            && CommitClear(fs, fails, clean, OldTarget(fs, fails), TsName(t, suffix)) ==>
              err.None?
    ensures (forall k :: k in payload ==> ValidPath(k)) && LinkReadable(fs, fails)
            && NothingNew(fs, fails, clean, OldTarget(fs, fails)) ==>
              && fs' == fs
              && (err.None? <==> UpToDate(fs, fails, clean, OldTarget(fs, fails)))
              && (err.Some? ==> err.value.op.ReadFileOp?)
    ensures Sane(fs, TsName(t, suffix)) ==> Preserved(fs, fs') || NewActive(fs', TsName(t, suffix), clean)
    ensures (forall k :: k in payload ==> ValidPath(k)) && LinkReadable(fs, fails)
            && !UpToDate(fs, fails, clean, OldTarget(fs, fails))
            && !(err.Some? && err.value.op.ReadFileOp?) ==>
              Committed(fs, fails, clean, OldTarget(fs, fails), TsName(t, suffix), fs', err)
  {
    var plan;
    plan, clean := Prepare(fs, fails, payload);
    if plan.Stop? {
      return fs, plan.result, clean;
    }
    fs', err := Commit(fs, fails, plan.clean, plan.oldDir, plan.stale, t, suffix);
  }
}
