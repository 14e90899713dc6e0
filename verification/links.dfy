/** The user-visible links at the root of the target directory: one symlink
    `<name> -> ..data/<name>` per distinct first segment of a payload key
    (`createUserVisibleFiles`), and the pruning of top-level paths that a new
    payload no longer references (`removeUserVisiblePaths`). */
module Links {
  import opened Errors
  import opened Paths
  import opened Validation
  import opened FileSystem

  const DataDirName: string := "..data"
  const NewDataDirName: string := "..data_tmp"

  /** `path.Join(dataDirName, name)`: the target of the visible link `name`. */
  function DataLinkFor(name: string): string {
    DataDirName + [Sep] + name
  }

  /** The names of the visible links a set of keys calls for. */
  function LinkNames(keys: set<string>): set<string> {
    set k | k in keys :: FirstSegment(k)
  }

  /** The link for `name` is looked up and, on "does not exist", created:
      its lookup neither names the root nor fails for another reason. */
  predicate LookupSees(fails: set<Op>, name: string) {
    !IsRoot(name) && ReadlinkOp(name) !in fails
  }

  /** No creation of a visible link the keys call for is made to fail. */
  predicate LinksCreatable(fails: set<Op>, keys: set<string>) {
    forall k :: k in keys ==> SymlinkOp(FirstSegment(k), DataLinkFor(FirstSegment(k))) !in fails
  }

  /** `createUserVisibleFiles`: for each key, in an arbitrary order, look up
      the link named by its first segment and create it only if nothing is
      there; the first failed creation is returned. */
  method CreateUserVisibleFiles(fs: FS, fails: set<Op>, payload: Payload)
    returns (fs': FS, err: Option<Error>)
    ensures Preserved(fs, fs')
    ensures forall q :: q in fs' && q !in fs ==>
              q in LinkNames(payload.Keys) && fs'[q] == Link(DataLinkFor(q))
    ensures err.None? ==> forall k :: k in payload && LookupSees(fails, FirstSegment(k)) ==>
              FirstSegment(k) in fs'
    ensures err.Some? ==>
              exists k :: (k in payload && FirstSegment(k) !in fs
                           && err.value.op == SymlinkOp(FirstSegment(k), DataLinkFor(FirstSegment(k))))
    ensures err.Some? ==> err.value.op in fails
    ensures err.None? <==> forall k :: k in payload && LookupSees(fails, FirstSegment(k)) && FirstSegment(k) !in fs ==>
                             SymlinkOp(FirstSegment(k), DataLinkFor(FirstSegment(k))) !in fails
  {
    fs' := fs;
    var remaining := payload.Keys;
    while remaining != {}
      invariant remaining <= payload.Keys
      invariant Preserved(fs, fs')
      invariant forall q :: q in fs' && q !in fs ==>
                  q in LinkNames(payload.Keys) && fs'[q] == Link(DataLinkFor(q))
      invariant forall k :: k in payload && k !in remaining && LookupSees(fails, FirstSegment(k)) ==>
                  FirstSegment(k) in fs'
      invariant forall q :: q in fs' && q !in fs ==> SymlinkOp(q, DataLinkFor(q)) !in fails
      decreases remaining
    {
      var k :| k in remaining;
      var name := FirstSegment(k);
      var look := Readlink(fs', fails, name);
      if look.Err? && IsNotExist(look.error) {
        assert Parent(name) == "";
        var made := Symlink(fs', fails, DataLinkFor(name), name);
        if made.Err? {
          return fs', Some(made.error);
        }
        fs' := made.value;
      }
      remaining := remaining - {k};
    }
    return fs', None;
  }

  /** The top-level paths pruning acts on. */
  predicate TopLevel(p: string) {
    Sep !in p
  }

  /** `removeUserVisiblePaths`: removes every separator-free path of the set,
      never touches the others, and reports the last failure. */
  method RemoveUserVisiblePaths(fs: FS, fails: set<Op>, paths: set<string>)
    returns (fs': FS, err: Option<Error>)
    ensures Shrunk(fs, fs')
    ensures forall q :: q in fs && !(q in paths && TopLevel(q)) ==> q in fs'
    ensures forall q :: q in paths && TopLevel(q) ==> (q in fs' <==> q in fs && !Removable(fs, fails, q))
    ensures err.None? <==> forall p :: p in paths && TopLevel(p) ==> Removable(fs, fails, p)
    ensures err.Some? ==> exists p :: p in paths && TopLevel(p) && !Removable(fs, fails, p)
                                      && err.value.op == RemoveOp(p)
  {
    fs' := fs;
    err := None;
    var remaining := paths;
    while remaining != {}
      invariant remaining <= paths
      invariant Shrunk(fs, fs')
      invariant forall q :: q in fs && !(q in paths && TopLevel(q) && q !in remaining) ==> q in fs'
      invariant forall q :: q in paths && TopLevel(q) && q !in remaining ==>
                  (q in fs' <==> q in fs && !Removable(fs, fails, q))
      invariant err.None? <==> forall p :: p in paths && TopLevel(p) && p !in remaining ==>
                  Removable(fs, fails, p)
      invariant err.Some? ==> exists p :: p in paths && TopLevel(p) && !Removable(fs, fails, p)
                                          && err.value.op == RemoveOp(p)
      decreases remaining
    {
      var p :| p in remaining;
      remaining := remaining - {p};
      if !TopLevel(p) {
        continue;
      }
      RemovableUnchanged(fs, fs', fails, p);
      var removed := Remove(fs', fails, p);
      if removed.Err? {
        err := Some(removed.error);
      } else {
        fs' := removed.value;
      }
    }
  }

  /** Removing top-level entries does not change whether another top-level
      entry can be removed: its children all contain a separator. */
  lemma RemovableUnchanged(fs: FS, cur: FS, fails: set<Op>, p: string)
    requires Shrunk(fs, cur)
    requires forall q :: q in fs && !TopLevel(q) ==> q in cur
    requires p in fs ==> p in cur
    ensures Removable(cur, fails, p) == Removable(fs, fails, p)
  {
    if HasChildren(fs, p) {
      var q :| q in fs && Below(p, q);
      assert q[|p|] == Sep;
      assert q in cur;
    }
  }
}
