/** The snapshot directory manager and the payload materializer: creating a
    fresh timestamped directory (`newTimestampDir`) and writing the payload
    into it (`writePayloadToDir`). */
module Materialize {
  import opened Values
  import opened Errors
  import opened Paths
  import opened Validation
  import opened FileSystem

  // ---------------------------------------------------------------------------
  // Timestamp directory names

  /** A UTC wall-clock reading, as `time.Now().UTC()` supplies it. */
  datatype Timestamp = Timestamp(year: nat, month: nat, day: nat, hour: nat, minute: nat, second: nat)

  predicate IsDigit(c: char) {
    '0' <= c <= '9'
  }

  predicate AllDigits(s: string) {
    forall i :: 0 <= i < |s| ==> IsDigit(s[i])
  }

  /** Decimal digits of `n`, as `strconv.Itoa` writes them. */
  function Digits(n: nat): (r: string)
    ensures |r| >= 1 && AllDigits(r)
  {
    var d := [(('0' as int) + n % 10) as char];
    if n < 10 then d else Digits(n / 10) + d
  }

  /** The digits of `n`, zero-padded on the left to at least `w` characters. */
  function Pad(n: nat, w: nat): (r: string)
    ensures |r| >= 1 && |r| >= w && AllDigits(r)
    decreases w
  {
    var d := Digits(n);
    if |d| >= w then d else "0" + Pad(n, w - 1)
  }

  /** `t.Format("..2006_01_02_15_04_05.")`. */
  function StampPrefix(t: Timestamp): string {
    ".." + Pad(t.year, 4) + "_" + Pad(t.month, 2) + "_" + Pad(t.day, 2)
      + "_" + Pad(t.hour, 2) + "_" + Pad(t.minute, 2) + "_" + Pad(t.second, 2) + "."
  }

  /** The name `os.MkdirTemp` gives the new directory: the pattern followed by
      its random decimal suffix. */
  function TsName(t: Timestamp, suffix: nat): string {
    StampPrefix(t) + Digits(suffix)
  }

  /** Every generated name starts with `..`, has no separator and differs
      from both reserved link names, whose third character is not a digit. */
  lemma TsNameShape(t: Timestamp, suffix: nat)
    ensures var n := TsName(t, suffix);
      && IsReserved(n) && Sep !in n && IsDigit(n[2])
      && n != "..data" && n != "..data_tmp"
      && Parent(n) == "" && !IsRoot(n)
  {
    var n := TsName(t, suffix);
    var y := Pad(t.year, 4);
    assert n[2] == y[0];
    assert forall i :: 0 <= i < |n| ==> n[i] == '.' || n[i] == '_' || IsDigit(n[i]);
    assert "..data"[2] == 'd';
    assert "..data_tmp"[2] == 'd';
    assert LastSep(n) < 0;
  }

  /** `newTimestampDir`: create the directory, then set its mode to 0755.  A
      failed chmod returns an error and leaves the 0700 directory behind. */
  method NewTimestampDir(fs: FS, fails: set<Op>, t: Timestamp, suffix: nat)
    returns (fs': FS, r: Res<string>)
    ensures var n := TsName(t, suffix);
      && (r.Ok? <==> MkdirTempOp(n) !in fails && n !in fs && ChmodOp(n) !in fails)
      && (r.Ok? ==> r.value == n && fs' == fs[n := Dir(TsDirMode)])
      && (r.Err? ==> r.error.op == MkdirTempOp(n) || r.error.op == ChmodOp(n))
      && (r.Err? && r.error.op == MkdirTempOp(n) ==> fs' == fs && (n in fs || MkdirTempOp(n) in fails))
      && (r.Err? && r.error.op == ChmodOp(n) ==> n !in fs && fs' == fs[n := Dir(TempDirMode)])
  {
    var n := TsName(t, suffix);
    TsNameShape(t, suffix);
    var made := MkdirTemp(fs, fails, n);
    if made.Err? {
      return fs, Err(made.error);
    }
    fs' := made.value;
    var chmod := Chmod(fs', fails, n, TsDirMode);
    if chmod.Err? {
      return fs', Err(chmod.error);
    }
    return chmod.value, Ok(n);
  }

  // ---------------------------------------------------------------------------
  // writePayloadToDir

  /** The files the payload is written to inside `dir`. */
  function Targets(dir: string, keys: set<string>): set<string> {
    set k | k in keys :: SnapPath(dir, k)
  }

  /** `q` is one of the files, or a directory on the way to one of them. */
  lemma TargetsMono(dir: string, a: set<string>, b: set<string>)
    requires a <= b
    ensures Targets(dir, a) <= Targets(dir, b)
  {
  }

  lemma FramedMono(fs: FS, dir: string, keys: set<string>, done: set<string>, cur: FS)
    requires done <= keys
    requires Framed(fs, dir, keys, done, cur)
    ensures Framed(fs, dir, keys, keys, cur)
  {
    TargetsMono(dir, done, keys);
  }

  ghost predicate InFootprint(dir: string, keys: set<string>, q: string) {
    exists k :: k in keys && q in AncestorSet(SnapPath(dir, k))
  }

  lemma ParentAncestors(s: string)
    ensures AncestorSet(Parent(s)) <= AncestorSet(s)
  {
    if s != "" {
      AncestorSetStep(s);
    }
  }

  /** The effect of writing the file `full` on the rest of the tree: other
      entries are unchanged, a directory at `full` stays, `full` ends up a file
      or as it was, and the only other new entries are 0777 directories on
      the way to `full`. */
  ghost predicate EntryStep(full: string, prev: FS, next: FS)
  {
    && (forall q :: q in prev && q != full ==> q in next && next[q] == prev[q])
    && (full in prev ==> full in next && (prev[full].Dir? ==> next[full] == prev[full]))
    && (full in next ==> next[full].File? || (full in prev && next[full] == prev[full]))
    && (full in next && full !in prev ==> !IsRoot(full))
    && (forall q :: q in next && q !in prev ==>
          q == full || (q in AncestorSet(Parent(full)) && next[q] == Dir(DirPerm)))
  }

  /** `MkdirAll` of the parent of `full` succeeds: it is not made to fail and
      every ancestor that exists is a directory. */
  predicate ParentsMakeable(fs: FS, fails: set<Op>, full: string) {
    && MkdirAllOp(Parent(full)) !in fails
    && forall a :: a in AncestorSet(Parent(full)) && a in fs ==> fs[a].Dir?
  }

  /** Writing the file `full` succeeds: its parents can be made, the write
      is not made to fail, and `full` names a regular file if it exists. */
  predicate EntryWritable(fs: FS, fails: set<Op>, full: string) {
    && ParentsMakeable(fs, fails, full)
    && WriteFileOp(full) !in fails
    && !IsRoot(full)
    && (full in fs ==> fs[full].File?)
  }

  /** One iteration of `writePayloadToDir`: create the parent directories,
      write the bytes, then set the mode; a failed chmod is ignored. */
  method WriteEntry(fs: FS, fails: set<Op>, full: string, fp: FileProjection)
    returns (fs': FS, err: Option<Error>)
    ensures err.None? <==> EntryWritable(fs, fails, full)
    ensures err.Some? ==> (err.value.op == MkdirAllOp(Parent(full)) <==> !ParentsMakeable(fs, fails, full))
    ensures EntryStep(full, fs, fs')
    ensures err.None? ==> full in fs' && fs'[full].File? && fs'[full].data == fp.data
    ensures err.None? && (full !in fs || ChmodOp(full) !in fails) ==>
              fs'[full].mode == DiskMode(fp.mode)
    ensures err.Some? ==> err.value.op == MkdirAllOp(Parent(full)) || err.value.op == WriteFileOp(full)
  {
    var mode := DiskMode(fp.mode);
    var dirs := MkdirAll(fs, fails, Parent(full));
    if dirs.Err? {
      return fs, Some(dirs.error);
    }
    var fs1 := dirs.value;
    assert Parent(full) != "" ==> Parent(full) in AncestorSet(Parent(full));
    assert full !in AncestorSet(Parent(full)) by {
      if full != "" {
        assert forall a :: a in AncestorSet(Parent(full)) ==> |a| < |full| by {
          forall a | a in AncestorSet(Parent(full)) ensures |a| < |full| {
            AncestorsArePrefixes(Parent(full), a);
          }
        }
      }
    }
    var written := WriteFile(fs1, fails, full, fp.data, mode);
    if written.Err? {
      return fs1, Some(written.error);
    }
    var fs2 := written.value;
    var chmod := Chmod(fs2, fails, full, mode);
    if chmod.Err? {
      return fs2, None;
    }
    return chmod.value, None;
  }

  /** What `writePayloadToDir` keeps of the original tree after the keys in
      `done` were handled: entries that were there stay (directories and
      non-targets unchanged), and new entries are directories on the way to
      a file or the file of a handled key. */
  ghost predicate Framed(fs: FS, dir: string, keys: set<string>, done: set<string>, cur: FS)
  {
    && (forall q :: q in fs ==> q in cur)
    && (forall q :: q in fs && (fs[q].Dir? || q !in Targets(dir, keys)) ==> cur[q] == fs[q])
    && (forall q :: q in cur && q !in fs ==>
          InFootprint(dir, keys, q)
          && (cur[q] == Dir(DirPerm) || (cur[q].File? && q in Targets(dir, done))))
  }

  /** The file for key `k` holds its bytes, and its mode unless a chmod of a
      file that already existed failed. */
  ghost predicate WrittenAt(fs: FS, fails: set<Op>, dir: string, payload: Payload, k: string, cur: FS)
    requires k in payload
  {
    var p := SnapPath(dir, k);
    && p in cur && cur[p].File? && cur[p].data == payload[k].data
    && (p !in fs || ChmodOp(p) !in fails ==> cur[p].mode == DiskMode(payload[k].mode))
  }

  /** One iteration keeps the frame. */
  lemma FramedStep(fs: FS, dir: string, keys: set<string>, done: set<string>, k: string, prev: FS, next: FS)
    requires k in keys
    requires Framed(fs, dir, keys, done, prev)
    requires EntryStep(SnapPath(dir, k), prev, next)
    ensures Framed(fs, dir, keys, done + {k}, next)
  {
    var full := SnapPath(dir, k);
    ParentAncestors(full);
    assert full in Targets(dir, keys);
    assert full in Targets(dir, done + {k});
    forall q | q in next && q !in fs
      ensures InFootprint(dir, keys, q)
      ensures next[q] == Dir(DirPerm) || (next[q].File? && q in Targets(dir, done + {k}))
    {
      if q !in prev {
        assert q in AncestorSet(full);
      }
    }
  }

  /** One iteration keeps every earlier file, and a successful one adds its
      own. */
  lemma WrittenStep(fs: FS, fails: set<Op>, dir: string, payload: Payload, done: set<string>,
                    k: string, prev: FS, next: FS, ok: bool)
    requires k in payload && done <= payload.Keys
    requires forall j :: j in payload && j in done ==> WrittenAt(fs, fails, dir, payload, j, prev)
    requires k !in done
    requires Framed(fs, dir, payload.Keys, done, prev)
    requires EntryStep(SnapPath(dir, k), prev, next)
    requires var full := SnapPath(dir, k);
      && (ok ==> full in next && next[full].File? && next[full].data == payload[k].data)
      && (ok && (full !in prev || ChmodOp(full) !in fails) ==>
            next[full].mode == DiskMode(payload[k].mode))
    ensures forall j :: j in payload && j in (if ok then done + {k} else done) ==>
              WrittenAt(fs, fails, dir, payload, j, next)
  {
    var full := SnapPath(dir, k);
    forall j | j in payload && j in done && j != k
      ensures WrittenAt(fs, fails, dir, payload, j, next)
    {
      if SnapPath(dir, j) == full {
        SnapPathInjective(dir, j, k);
      }
      assert WrittenAt(fs, fails, dir, payload, j, prev);
    }
    if ok && full in prev && full !in fs {
      if prev[full].File? {
        var j :| j in done && full == SnapPath(dir, j);
        SnapPathInjective(dir, j, k);
      }
    }
  }

  /** The loop state of `writePayloadToDir` after the keys in `done` were
      written. */
  ghost predicate Progress(fs: FS, fails: set<Op>, dir: string, payload: Payload, done: set<string>, cur: FS)
  {
    && done <= payload.Keys
    && Framed(fs, dir, payload.Keys, done, cur)
    && forall j :: j in payload && j in done ==> WrittenAt(fs, fails, dir, payload, j, cur)
  }

  /** One call of `WriteEntry` for a key not yet written keeps the frame,
      and a successful one extends the progress by that key. */
  lemma ProgressStep(fs: FS, fails: set<Op>, dir: string, payload: Payload, done: set<string>,
                     k: string, prev: FS, next: FS, ok: bool)
    requires k in payload && k !in done
    requires Progress(fs, fails, dir, payload, done, prev)
    requires EntryStep(SnapPath(dir, k), prev, next)
    requires var full := SnapPath(dir, k);
      && (ok ==> full in next && next[full].File? && next[full].data == payload[k].data)
      && (ok && (full !in prev || ChmodOp(full) !in fails) ==>
            next[full].mode == DiskMode(payload[k].mode))
    ensures Framed(fs, dir, payload.Keys, payload.Keys, next)
    ensures ok ==> Progress(fs, fails, dir, payload, done + {k}, next)
  {
    WrittenStep(fs, fails, dir, payload, done, k, prev, next, ok);
    FramedStep(fs, dir, payload.Keys, done, k, prev, next);
    FramedMono(fs, dir, payload.Keys, done + {k}, next);
  }

  /** No key is a proper ancestor of another: no key needs a directory where
      another needs a file. */
  ghost predicate PrefixFree(keys: set<string>) {
    forall j, k :: j in keys && k in keys && j in AncestorSet(k) ==> j == k
  }

  /** What the keys must satisfy for their files to be written into `dir`:
      none is empty or `.` (the key `.` names `dir` itself), they are
      prefix-free, and no `MkdirAll` or `WriteFile` for them is made to
      fail. */
  ghost predicate KeysWritable(fails: set<Op>, dir: string, keys: set<string>) {
    && "." !in keys && "" !in keys
    && PrefixFree(keys)
    && (forall k :: k in keys ==> MkdirAllOp(Parent(SnapPath(dir, k))) !in fails)
    && (forall k :: k in keys ==> WriteFileOp(SnapPath(dir, k)) !in fails)
  }

  /** Conditions under which `writePayloadToDir` cannot fail: `dir` is an
      existing, empty directory named by a single segment and the keys are
      writable into it. */
  ghost predicate PayloadWritable(fs: FS, fails: set<Op>, dir: string, keys: set<string>) {
    && Sep !in dir
    && dir in fs && fs[dir].Dir?
    && (forall q :: q in fs ==> !Below(dir, q))
    && KeysWritable(fails, dir, keys)
  }

  /** Among prefix-free keys, the file of one key is never a directory on
      the way to the file of another. */
  lemma TargetNotAbove(dir: string, keys: set<string>, j: string, k: string)
    requires j in keys && k in keys
    requires "." !in keys && "" !in keys && PrefixFree(keys)
    ensures SnapPath(dir, j) !in AncestorSet(Parent(SnapPath(dir, k)))
  {
    var a := SnapPath(dir, j);
    var full := SnapPath(dir, k);
    if a in AncestorSet(Parent(full)) {
      ParentAncestors(full);
      AncestorsArePrefixes(Parent(full), a);
      assert Below(dir, a) && |a| > |dir| + 1;
      AncestorBelow(dir, k, a);
    }
  }

  /** The step of the loop under `PayloadWritable`: with the targets of the
      keys still to come absent, the next entry can be written. */
  lemma EntryWritableAt(fs: FS, fails: set<Op>, dir: string, payload: Payload, done: set<string>,
                        cur: FS, k: string)
    requires PayloadWritable(fs, fails, dir, payload.Keys)
    requires done <= payload.Keys && Framed(fs, dir, payload.Keys, done, cur)
    requires k in payload && SnapPath(dir, k) !in cur
    ensures EntryWritable(cur, fails, SnapPath(dir, k))
  {
    var full := SnapPath(dir, k);
    assert Below(dir, full);
    forall a | a in AncestorSet(Parent(full)) && a in cur
      ensures cur[a].Dir?
    {
      AncestorDir(fs, fails, dir, payload, done, cur, k, a);
    }
  }

  lemma AncestorDir(fs: FS, fails: set<Op>, dir: string, payload: Payload, done: set<string>,
                    cur: FS, k: string, a: string)
    requires Sep !in dir && dir in fs && fs[dir].Dir?
    requires forall q :: q in fs ==> !Below(dir, q)
    requires "." !in payload && "" !in payload && PrefixFree(payload.Keys)
    requires done <= payload.Keys && Framed(fs, dir, payload.Keys, done, cur)
    requires k in payload
    requires a in AncestorSet(Parent(SnapPath(dir, k))) && a in cur
    ensures cur[a].Dir?
  {
    var full := SnapPath(dir, k);
    ParentAncestors(full);
    AncestorsWithin(dir, full, a);
    if a == dir {
      assert cur[a] == fs[a];
    } else if !cur[a].Dir? {
      assert a !in fs;
      assert a in Targets(dir, done);
      var j :| j in done && a == SnapPath(dir, j);
      TargetNotAbove(dir, payload.Keys, j, k);
    }
  }

  /** `writePayloadToDir`: every entry, in an arbitrary order, is written at
      its path inside `dir`; the first failing `MkdirAll` or `WriteFile`
      aborts with its error. */
  method WritePayloadToDir(fs: FS, fails: set<Op>, dir: string, payload: Payload)
    returns (fs': FS, err: Option<Error>)
    ensures Framed(fs, dir, payload.Keys, payload.Keys, fs')
    ensures err.None? ==> forall k :: k in payload ==> WrittenAt(fs, fails, dir, payload, k, fs')
    ensures err.Some? ==>
              exists k :: (k in payload &&
                           (err.value.op == MkdirAllOp(Parent(SnapPath(dir, k)))
                            || err.value.op == WriteFileOp(SnapPath(dir, k))))
    ensures PayloadWritable(fs, fails, dir, payload.Keys) ==> err.None?
  {
    fs' := fs;
    var done: set<string> := {};
    while done != payload.Keys
      invariant Progress(fs, fails, dir, payload, done, fs')
      invariant PayloadWritable(fs, fails, dir, payload.Keys) ==>
                  forall j :: j in payload && j !in done ==> SnapPath(dir, j) !in fs'
      decreases payload.Keys - done
    {
      var k :| k in payload.Keys && k !in done;
      var prev := fs';
      var e;
      fs', e := WriteEntry(prev, fails, SnapPath(dir, k), payload[k]);
      ProgressStep(fs, fails, dir, payload, done, k, prev, fs', e.None?);
      if PayloadWritable(fs, fails, dir, payload.Keys) {
        EntryWritableAt(fs, fails, dir, payload, done, prev, k);
        forall j | j in payload && j !in done + {k}
          ensures SnapPath(dir, j) !in fs'
        {
          if SnapPath(dir, j) == SnapPath(dir, k) {
            SnapPathInjective(dir, j, k);
          }
          TargetNotAbove(dir, payload.Keys, j, k);
        }
      }
      if e.Some? {
        return fs', e;
      }
      done := done + {k};
    }
    return fs', None;
  }
}
