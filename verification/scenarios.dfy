/** Two concrete runs of `Write`.

    The first is the first write into an empty target directory with no
    failures: the payload with the single key `a` is published, `..data`
    names the new snapshot, which holds `a`, and the visible link
    `a -> ..data/a` is created.

    The second is a key that needs a directory where the old snapshot holds a
    file.  The old snapshot `..ts1` holds the file `a`; the new payload has
    the single key `a/b`.  Reading `..ts1/a/b` fails with "not a directory",
    so the comparison neither finds the file absent nor finds it different,
    and the write stops with that read error and leaves the tree as it was,
    however often it is repeated. */
module Scenarios {
  import opened Values
  import opened Errors
  import opened Paths
  import opened Validation
  import opened FileSystem
  import opened Differ
  import opened Links
  import opened Materialize
  import opened Writer

  // ---------------------------------------------------------------------------
  // A first write into an empty directory

  const Empty: FS := map[]
  const PayloadA: Payload := map["a" := FileProjection([7], 0x1A4)]

  /** `a` is a valid key and is its own cleaned form. */
  lemma AValid()
    ensures ValidPath("a") && Cleanable("a") && Clean("a") == "a"
  {
    SplitNoSep("a");
    assert ByteLen("a") == 1;
    assert Kept(["a"]) == ["a"];
  }

  lemma EmptyLink()
    ensures LinkReadable(Empty, {}) && OldTarget(Empty, {}) == ""
  {
  }

  lemma ALinkName(keys: set<string>)
    requires keys == {"a"}
    ensures LinkNames(keys) == {"a"}
  {
    SplitNoSep("a");
    assert FirstSegment("a") == "a";
  }

  lemma AKeysWritable(keys: set<string>, n: string)
    requires keys == {"a"}
    ensures KeysWritable({}, n, keys) && LinksCreatable({}, keys)
  {
  }

  /** Over the empty tree with no failures, nothing can stop the commit of a
      payload whose only key is `a`. */
  lemma EmptyClear(clean: Payload, n: string)
    requires clean.Keys == {"a"}
    ensures CommitClear(Empty, {}, clean, "", n)
  {
    EmptySane(n);
    EmptyStage(clean, n);
    EmptyPublish(clean, n);
  }

  lemma EmptySane(n: string)
    ensures Sane(Empty, n)
  {
  }

  lemma EmptyStage(clean: Payload, n: string)
    requires clean.Keys == {"a"}
    ensures StageClear(Empty, {}, clean, n)
  {
    AKeysWritable(clean.Keys, n);
  }

  lemma EmptyPublish(clean: Payload, n: string)
    requires clean.Keys == {"a"}
    ensures PublishClear(Empty, {}, clean, "", n)
  {
    ALinkName(clean.Keys);
    assert "a"[0] != NewDataDirName[0];
  }

  /** The validator returns the payload `{a}` unchanged. */
  lemma ACleaned(clean: Payload)
    requires CleanOf(PayloadA, clean)
    ensures clean.Keys == {"a"} && clean["a"] == PayloadA["a"]
  {
    ACleanKeys();
    assert clean.Keys == {"a"};
    var k :| k in PayloadA && ValidPath(k) && Clean(k) == "a" && PayloadA[k] == clean["a"];
    assert k == "a";
  }

  lemma ACleanKeys()
    ensures CleanKeys(PayloadA) == {"a"}
  {
    AValid();
    assert PayloadA.Keys == {"a"};
    assert Clean("a") in CleanKeys(PayloadA);
  }

  /** A write of `{a}` over the empty tree that succeeds whenever nothing
      can stop it, and keeps the promises of `Committed` when it succeeds,
      does succeed and keeps them. */
  lemma EmptyOutcome(n: string, clean: Payload, fs': FS, err: Option<Error>)
    requires Sep !in n && n != "a"
    requires CleanOf(PayloadA, clean)
    requires (forall k :: k in PayloadA ==> ValidPath(k)) && LinkReadable(Empty, {})
             && (OldTarget(Empty, {}) != "" ==>
                   forall c :: c in clean ==> !Unreadable(Empty, {}, SnapPath(OldTarget(Empty, {}), c)))
             && CommitClear(Empty, {}, clean, OldTarget(Empty, {}), n) ==>
               err.None?
    requires (forall k :: k in PayloadA ==> ValidPath(k)) && LinkReadable(Empty, {})
             && !UpToDate(Empty, {}, clean, OldTarget(Empty, {}))
             && !(err.Some? && err.value.op.ReadFileOp?) ==>
               Committed(Empty, {}, clean, OldTarget(Empty, {}), n, fs', err)
    ensures err.None?
    ensures DataDirName in fs' && fs'[DataDirName] == Link(n)
    ensures SnapPath(n, "a") in fs' && fs'[SnapPath(n, "a")] == File([7], DiskMode(0x1A4))
    ensures "a" in fs' && fs'["a"] == Link(DataLinkFor("a"))
  {
    AValid();
    ACleaned(clean);
    EmptyLink();
    EmptySucceeds(n, clean, err);
    EmptyKept(n, clean, fs', err);
  }

  lemma EmptySucceeds(n: string, clean: Payload, err: Option<Error>)
    requires clean.Keys == {"a"} && OldTarget(Empty, {}) == ""
    requires CommitClear(Empty, {}, clean, OldTarget(Empty, {}), n) ==> err.None?
    ensures err.None?
  {
    EmptyClear(clean, n);
  }

  lemma EmptyKept(n: string, clean: Payload, fs': FS, err: Option<Error>)
    requires Sep !in n && n != "a"
    requires clean.Keys == {"a"} && clean["a"] == PayloadA["a"]
    requires OldTarget(Empty, {}) == "" && err.None?
    requires !UpToDate(Empty, {}, clean, OldTarget(Empty, {})) ==>
               Committed(Empty, {}, clean, OldTarget(Empty, {}), n, fs', err)
    ensures DataDirName in fs' && fs'[DataDirName] == Link(n)
    ensures SnapPath(n, "a") in fs' && fs'[SnapPath(n, "a")] == File([7], DiskMode(0x1A4))
    ensures "a" in fs' && fs'["a"] == Link(DataLinkFor("a"))
  {
    EmptyCommitted(n, clean, fs');
  }

  /** What `Committed` promises of a successful first write of `{a}`. */
  lemma EmptyCommitted(n: string, clean: Payload, fs': FS)
    requires Sep !in n && n != "a"
    requires clean.Keys == {"a"} && clean["a"] == PayloadA["a"]
    requires Committed(Empty, {}, clean, "", n, fs', None)
    ensures DataDirName in fs' && fs'[DataDirName] == Link(n)
    ensures SnapPath(n, "a") in fs' && fs'[SnapPath(n, "a")] == File([7], DiskMode(0x1A4))
    ensures "a" in fs' && fs'["a"] == Link(DataLinkFor("a"))
  {
    EmptySane(n);
    assert Projected(fs', n, "a", clean["a"]);
    assert FirstSegment("a") == "a" by {
      SplitNoSep("a");
    }
    assert !Within(n, "a") by {
      BelowHasSep(n, "a");
      SplitNoSep(n);
    }
  }

  /** The first write publishes the payload: `..data` names the new snapshot,
      the snapshot holds `a` with its bytes and mode, and `a` is the link
      `..data/a`. */
  method WriteIntoEmpty(t: Timestamp, suffix: nat) returns (fs': FS, err: Option<Error>)
    ensures err.None?
    ensures DataDirName in fs' && fs'[DataDirName] == Link(TsName(t, suffix))
    ensures SnapPath(TsName(t, suffix), "a") in fs'
            && fs'[SnapPath(TsName(t, suffix), "a")] == File([7], DiskMode(0x1A4))
    ensures "a" in fs' && fs'["a"] == Link(DataLinkFor("a"))
  {
    var n := TsName(t, suffix);
    TsNameShape(t, suffix);
    AValid();
    ghost var clean;
    fs', err, clean := Write(Empty, {}, PayloadA, t, suffix);
    assert n[0] != "a"[0];
    EmptyOutcome(n, clean, fs', err);
  }

  // ---------------------------------------------------------------------------
  // A key blocked by a file of the old snapshot

  /** The old snapshot directory. */
  const Old: string := ".." + "ts1"
  /** The new payload's only key, `a/b`. */
  const Key: string := "a" + [Sep] + "b"
  /** The old snapshot's file `a`. */
  const OldA: string := Old + [Sep] + "a"

  /** `..data -> ..ts1`, `..ts1/a` a file, and the user-visible link
      `a -> ..data/a`. */
  const Before: FS := map[
    DataDirName := Link(Old),
    Old := Dir(TsDirMode),
    OldA := File([], 0x1A4),
    "a" := Link(DataDirName + [Sep] + "a")]

  const Payload1: Payload := map[Key := FileProjection([1], 0x1A4)]

  lemma KeySplits()
    ensures Split(Key) == ["a", "b"]
  {
    FirstSepOfConcat("a", "b");
    SplitCons(Key);
    ConcatSlices("a", "b");
    SplitNoSep("b");
  }

  /** `a/b` is a valid key and is its own cleaned form. */
  lemma KeyValid()
    ensures ValidPath(Key) && Cleanable(Key) && Clean(Key) == Key
  {
    KeySplits();
    assert ByteLen("a") == 1 && ByteLen("b") == 1;
    assert ByteLen(Key) == 3;
    assert Kept(["a", "b"]) == ["a", "b"];
    JoinCons("a", ["b"]);
  }

  /** Whatever the validator produces from the payload has the one key
      `a/b`. */
  lemma CleanedKeys(clean: Payload)
    requires CleanOf(Payload1, clean)
    ensures clean.Keys == {Key}
  {
    KeyValid();
    assert CleanKeys(Payload1) == {Key};
  }

  /** The file `..ts1/a` stands where the key needs a directory. */
  lemma KeyBlocked()
    ensures SnapPath(Old, Key) !in Before
    ensures Blocked(Before, SnapPath(Old, Key))
  {
    var p := SnapPath(Old, Key);
    assert p == OldA + [Sep] + "b";
    assert |p| == 9 && |OldA| == 7;
    assert p[|OldA|] == Sep && p[..|OldA|] == OldA;
    assert OldA in AncestorSet(p);
    AncestorSetStep(p);
    assert OldA in AncestorSet(Parent(p));
  }

  /** The old snapshot holds `a` only, and `a` is an ancestor of `a/b`: the
      payload makes nothing stale. */
  lemma NothingStale(keys: set<string>)
    requires Key in keys
    ensures Stale(Before, Old, keys) == {}
  {
    assert Key[1] == Sep && Key[..1] == "a";
    assert "a" in AncestorSet(Key);
    assert "a" in Referenced(keys);
    forall q | q in Before && Below(Old, q) && |q| > |Old| + 1
      ensures q[|Old| + 1..] == "a"
    {
      assert (Old + [Sep])[2] == 't';
      assert DataDirName[2] == 'd';
      assert q == OldA;
    }
  }

  /** The link `..data` reads as `..ts1`. */
  lemma OldLink()
    ensures LinkReadable(Before, {}) && OldTarget(Before, {}) == Old
  {
    ReservedNames();
  }

  /** Whatever bytes the key carries, its file is neither absent, nor
      different, nor the same: it cannot be read. */
  lemma KeyNeitherNorSame(data: seq<byte>)
    ensures !Differs(Before, {}, SnapPath(Old, Key), data)
    ensures !Same(Before, {}, SnapPath(Old, Key), data)
  {
    KeyBlocked();
  }

  /** For every payload the validator can produce, the comparison finds
      nothing new and yet the old snapshot is not up to date. */
  lemma StuckOnFile(clean: Payload)
    requires CleanOf(Payload1, clean)
    ensures LinkReadable(Before, {}) && OldTarget(Before, {}) == Old
    ensures NothingNew(Before, {}, clean, Old)
    ensures !UpToDate(Before, {}, clean, Old)
  {
    OldLink();
    CleanedKeys(clean);
    NothingStale(clean.Keys);
    forall c | c in clean ensures !Differs(Before, {}, SnapPath(Old, c), clean[c].data) {
      KeyNeitherNorSame(clean[c].data);
    }
    KeyNeitherNorSame(clean[Key].data);
  }

  /** Writing `a/b` over the old snapshot stops with a read error and
      changes nothing, so the next write meets the same tree. */
  method WriteStuckOnFile(t: Timestamp, suffix: nat) returns (fs': FS, err: Option<Error>)
    ensures fs' == Before
    ensures err.Some? && err.value.op.ReadFileOp?
  {
    KeyValid();
    ghost var clean;
    fs', err, clean := Write(Before, {}, Payload1, t, suffix);
    StuckOnFile(clean);
  }
}
