/** The snapshot differ: whether a payload differs from the snapshot the data
    link currently names (`shouldWritePayload`/`shouldWriteFile`), and which
    paths of that snapshot the payload no longer references
    (`pathsToRemove`). */
module Differ {
  import opened Values
  import opened Errors
  import opened Paths
  import opened Validation
  import opened FileSystem

  // ---------------------------------------------------------------------------
  // Change detection

  /** The file at `p` is readable and holds exactly `data`. */
  predicate Same(fs: FS, fails: set<Op>, p: string, data: seq<byte>) {
    p in fs && fs[p].File? && ReadFileOp(p) !in fails && fs[p].data == data
  }

  /** `os.Lstat` reports the file at `p` absent, or it is readable and
      holds other bytes. */
  predicate Differs(fs: FS, fails: set<Op>, p: string, data: seq<byte>) {
    LstatNotExist(fs, p) || (p in fs && fs[p].File? && ReadFileOp(p) !in fails && fs[p].data != data)
  }

  /** Something is at `p` but it cannot be read as a file, or nothing is
      there but an ancestor is not a directory. */
  predicate Unreadable(fs: FS, fails: set<Op>, p: string) {
    || (p in fs && (ReadFileOp(p) in fails || !fs[p].File?))
    || (p !in fs && Blocked(fs, p))
  }

  /** `shouldWriteFile`: a file `os.Lstat` reports absent must be written;
      otherwise the file is read (which fails below a non-directory) and
      compared byte for byte. */
  function ShouldWriteFile(fs: FS, fails: set<Op>, p: string, data: seq<byte>): (r: Res<bool>)
    ensures r == Ok(false) <==> Same(fs, fails, p, data)
    ensures r == Ok(true) <==> Differs(fs, fails, p, data)
    ensures r.Err? <==> Unreadable(fs, fails, p)
    ensures r.Err? ==> r.error.op == ReadFileOp(p)
  {
    if LstatNotExist(fs, p) then Ok(true)
    else match ReadFile(fs, fails, p)
      case Err(e) => Err(e)
      case Ok(onDisk) => Ok(data != onDisk)
  }

  /** `shouldWritePayload`: the payload is visited in an arbitrary order; the
      first entry that errors or differs decides the answer. */
  method ShouldWritePayload(fs: FS, fails: set<Op>, oldDir: string, payload: Payload)
    returns (r: Res<bool>)
    ensures r == Ok(false) <==>
              forall k :: k in payload ==> Same(fs, fails, SnapPath(oldDir, k), payload[k].data)
    ensures r == Ok(true) ==>
              exists k :: k in payload && Differs(fs, fails, SnapPath(oldDir, k), payload[k].data)
    ensures r.Err? ==>
              exists k :: k in payload && Unreadable(fs, fails, SnapPath(oldDir, k))
                           && r.error.op == ReadFileOp(SnapPath(oldDir, k))
  {
    var remaining := payload.Keys;
    while remaining != {}
      invariant remaining <= payload.Keys
      invariant forall k :: k in payload && k !in remaining ==>
                  Same(fs, fails, SnapPath(oldDir, k), payload[k].data)
      decreases remaining
    {
      var k :| k in remaining;
      var should := ShouldWriteFile(fs, fails, SnapPath(oldDir, k), payload[k].data);
      if should.Err? {
        return Err(should.error);
      }
      if should.value {
        return Ok(true);
      }
      remaining := remaining - {k};
    }
    return Ok(false);
  }

  // ---------------------------------------------------------------------------
  // Removal set

  /** The relative paths the walk of the old snapshot directory reports:
      every entry strictly inside it.  A missing root, or a root that is not a
      directory, reports nothing (the walk's visitor ignores errors). */
  function SnapshotPaths(fs: FS, dir: string): set<string> {
    if dir in fs && fs[dir].Dir? then
      set q | q in fs && Below(dir, q) && |q| > |dir| + 1 :: q[|dir| + 1..]
    else {}
  }

  /** Every payload key together with all of its slash-ancestors. */
  function Referenced(keys: set<string>): set<string> {
    set k, a | k in keys && a in AncestorSet(k) :: a
  }

  /** The ancestor loop of `pathsToRemove`: starting from the key, insert the
      current path and move to its parent until nothing is left.  It
      terminates because every parent is strictly shorter. */
  method AncestorClosure(file: string) returns (acc: set<string>)
    ensures acc == AncestorSet(file)
  {
    acc := {};
    var sub := file;
    while sub != ""
      invariant acc + AncestorSet(sub) == AncestorSet(file)
      decreases |sub|
    {
      acc := acc + {sub};
      AncestorSetStep(sub);
      sub := Parent(sub);
    }
  }

  /** `pathsToRemove`: the paths in the old snapshot that neither are a
      payload key nor lie on the way to one. */
  method PathsToRemove(fs: FS, oldDir: string, payload: Payload) returns (r: set<string>)
    ensures r == SnapshotPaths(fs, oldDir) - Referenced(payload.Keys)
    ensures forall p :: p in r ==> oldDir + [Sep] + p in fs
    ensures forall k, a :: k in payload && a in AncestorSet(k) ==> a !in r
    ensures !(oldDir in fs && fs[oldDir].Dir?) ==> r == {}
  {
    var paths := SnapshotPaths(fs, oldDir);
    var newPaths := {};
    var remaining := payload.Keys;
    while remaining != {}
      invariant remaining <= payload.Keys
      invariant newPaths == Referenced(payload.Keys - remaining)
      decreases remaining
    {
      var file :| file in remaining;
      var sub := AncestorClosure(file);
      newPaths := newPaths + sub;
      remaining := remaining - {file};
      assert Referenced(payload.Keys - remaining)
          == Referenced(payload.Keys - (remaining + {file})) + AncestorSet(file);
    }
    r := paths - newPaths;
    forall p | p in r ensures oldDir + [Sep] + p in fs {
      SnapshotMember(fs, oldDir, p);
    }
  }

  /** A path the walk reports is an entry inside the walked directory. */
  lemma SnapshotMember(fs: FS, dir: string, p: string)
    requires p in SnapshotPaths(fs, dir)
    ensures dir + [Sep] + p in fs
  {
    var q :| q in fs && Below(dir, q) && |q| > |dir| + 1 && p == q[|dir| + 1..];
    assert q == dir + [Sep] + p;
  }
}
