/** The durable steps a delete is made of. Each may fail when the machine is faulty, and each
    leaves a state in which the process can die. */
module DeleteMachine {
  import opened DeleteWorld

  function Moved(fs: Files, from: Path, to: Path): Files
    requires from in fs
  {
    (fs - {from})[to := fs[from]]
  }

  function Children(fs: Files, dir: Path): set<Path> {
    set p | p in fs && p.Child? && p.parent == dir
  }

  predicate Within(p: Path, dir: Path) {
    p == dir || (p.Child? && Within(p.parent, dir))
  }

  /** Nothing on the way is anything but a directory, and the end is no link. */
  ghost predicate Reachable(fs: Files, p: Path) {
    && (p in fs ==> !fs[p].Symlink?)
    && forall q :: q != p && Within(p, q) && q in fs ==> fs[q].IsDir()
  }

  lemma {:induction false} ClearWayIff(fs: Files, p: Path)
    ensures ClearWay(fs, p) <==> forall q :: q != p && Within(p, q) && q in fs ==> fs[q].IsDir()
    decreases p
  {
    if p.Child? {
      ClearWayIff(fs, p.parent);
      OwnParentIsAbove(p);
    }
  }

  lemma {:induction false} OwnParentIsAbove(p: Path)
    requires p.Child?
    ensures forall q :: Within(p, q) <==> q == p || Within(p.parent, q)
    ensures !Within(p.parent, p)
  {
    if Within(p.parent, p) {
      NoPathBelowItself(p.parent, p);
    }
  }

  function Depth(p: Path): nat {
    if p.Child? then 1 + Depth(p.parent) else 0
  }

  lemma {:induction false} NoPathBelowItself(p: Path, dir: Path)
    requires Within(p, dir)
    ensures Depth(dir) <= Depth(p)
    decreases p
  {
    if p != dir {
      NoPathBelowItself(p.parent, dir);
    }
  }

  lemma {:induction false} InTrashIff(p: Path)
    ensures InTrash(p) <==> Within(p, Child(Root, Name(".ylx-library-trash")))
    decreases p
  {
    if p.Child? {
      InTrashIff(p.parent);
    }
  }

  lemma ValidChainIff(fs: Files, p: Path)
    ensures ValidChain(fs, p) <==> Reachable(fs, p)
  {
    ClearWayIff(fs, p);
  }

  predicate PlainName(text: string) {
    text != "" && text != "." && text != ".." && forall k :: 0 <= k < |text| ==> text[k] != '/' && text[k] != '\\'
  }

  lemma SafeIdentifierIff(text: string)
    ensures SafeIdentifier(text) <==> PlainName(text)
  {
  }

  /** A payload in the directory of the operation and a source outside the trash, both reachable. */
  ghost predicate PathsAreGenuine(fs: Files, op: string, source: Path, payload: Path) {
    var trash := Child(Root, Name(".ylx-library-trash"));
    && payload.Child? && payload.parent == Child(trash, Name(op)) && payload.name.PayloadOf?
    && Reachable(fs, payload) && Reachable(fs, source) && !Within(source, trash)
  }

  lemma ValidPathsIff(fs: Files, op: string, source: Path, payload: Path)
    ensures ValidSource(fs, source) && ValidTrash(fs, op, payload) <==> PathsAreGenuine(fs, op, source, payload)
  {
    ValidChainIff(fs, payload);
    ValidChainIff(fs, source);
    InTrashIff(source);
    hide Reachable, ValidChain, InTrash, Within;
  }

  function WithoutTree(fs: Files, dir: Path): Files {
    map p | p in fs && !Within(p, dir) :: fs[p]
  }

  /** Of all leases exactly those of the operation are gone, and no metadata has changed. */
  ghost predicate LeasesReleased(before: Store, after: Store, op: string) {
    && after.library == before.library && after.revision == before.revision
    && (forall k :: k in after.leases <==> k in before.leases && before.leases[k].operationId != op)
    && forall k :: k in after.leases ==> after.leases[k] == before.leases[k]
  }

  lemma {:induction false} IntentsOfOthersStay(intents: seq<Intent>, op: string)
    ensures forall i ::
              multiset(WithoutOperation(intents, op))[i] == if i.operationId == op then 0 else multiset(intents)[i]
  {
    if intents != [] {
      IntentsOfOthersStay(intents[1..], op);
      assert intents == [intents[0]] + intents[1..];
    }
  }

  datatype RemoveDir = Removed | NotEmpty | Failed

  datatype Acquisition = Acquired | Busy | Unavailable

  class Machine {
    var fs: Files
    var store: Store
    /** Every durable state so far: the process may have died in any of them. */
    var visited: set<World>
    const faulty: bool

    function Now(): World
      reads this
    {
      World(fs, store)
    }

    constructor (start: World, faulty: bool)
      ensures Now() == start && visited == {start} && this.faulty == faulty
    {
      fs, store, visited := start.fs, start.store, {start};
      this.faulty := faulty;
    }

    /** An I/O error, possible only on a faulty machine. */
    method Fault() returns (fault: bool)
      ensures fault ==> faulty
    {
      var strikes: bool := *;
      fault := faulty && strikes;
    }

    method CreateDirectory(p: Path) returns (ok: bool)
      modifies this`fs, this`visited
      ensures visited == old(visited) + {Now()}
      ensures ok ==> p !in old(fs) && fs == old(fs)[p := Directory]
      ensures !ok ==> fs == old(fs)
      ensures !faulty && p !in old(fs) ==> ok
    {
      var fault := Fault();
      ok := !fault && p !in fs;
      if ok {
        fs := fs[p := Directory];
      }
      visited := visited + {Now()};
    }

    /** `write_marker`: creating the file, and then its contents. */
    method WriteMarker(p: Path, marker: TrashMarker) returns (ok: bool)
      modifies this`fs, this`visited
      ensures ok ==>
                && p !in old(fs) && fs == old(fs)[p := MarkerFile(marker)]
                && visited == old(visited) + {World(old(fs)[p := TornFile], store), Now()}
      ensures !ok ==>
                || (fs == old(fs) && visited == old(visited) + {Now()})
                || (p !in old(fs) && fs == old(fs)[p := TornFile] && visited == old(visited) + {Now()})
                || (p !in old(fs) && fs == old(fs)[p := MarkerFile(marker)]
                    && visited == old(visited) + {World(old(fs)[p := TornFile], store), Now()})
      ensures !faulty && p !in old(fs) ==> ok
    {
      var fault := Fault();
      ok := !fault && p !in fs;
      if ok {
        fs := fs[p := TornFile];
        visited := visited + {Now()};
        fault := Fault();
        ok := !fault;
      }
      if ok {
        fs := fs[p := MarkerFile(marker)];
        fault := Fault();
        ok := !fault;
      }
      visited := visited + {Now()};
    }

    /** A rename to a path at which nothing exists. */
    method Rename(from: Path, to: Path) returns (ok: bool)
      requires from in fs && to !in fs
      modifies this`fs, this`visited
      ensures visited == old(visited) + {Now()}
      ensures fs == if ok then Moved(old(fs), from, to) else old(fs)
      ensures !faulty ==> ok
    {
      var fault := Fault();
      ok := !fault;
      if ok {
        fs := Moved(fs, from, to);
      }
      visited := visited + {Now()};
    }

    /** `remove_if_exists`. */
    method RemoveFile(p: Path) returns (ok: bool)
      modifies this`fs, this`visited
      ensures visited == old(visited) + {Now()}
      ensures fs == if ok then old(fs) - {p} else old(fs)
      ensures !faulty && (p in old(fs) ==> !old(fs)[p].IsDir() && !old(fs)[p].Symlink?) ==> ok
    {
      var fault := Fault();
      ok := p !in fs || (!fault && !fs[p].IsDir() && !fs[p].Symlink?);
      if ok {
        fs := fs - {p};
      }
      visited := visited + {Now()};
    }

    /** `remove_dir_if_exists`: a recursive removal, which may stop half-way. */
    method RemoveTree(p: Path) returns (ok: bool)
      modifies this`fs, this`visited
      ensures ok ==> fs == if p in old(fs) then WithoutTree(old(fs), p) else old(fs)
      ensures fs == old(fs)
              || (p in old(fs) && fs == WithoutTree(old(fs), p))
              || (p in old(fs) && exists rest :: fs == WithoutTree(old(fs), p)[p := SessionTree(rest)])
      ensures old(visited) <= visited
      ensures forall w :: w in visited ==>
                || w in old(visited) || w == Now()
                || (p in old(fs) && exists rest :: w == World(WithoutTree(old(fs), p)[p := SessionTree(rest)], store))
      ensures Now() in visited
      ensures !faulty && (p in old(fs) ==> old(fs)[p].IsDir()) ==> ok
    {
      var fault := Fault();
      ok := p !in fs || (!fault && fs[p].IsDir());
      if ok && p in fs {
        var rest: Content := *;
        fs := WithoutTree(fs, p)[p := SessionTree(rest)];
        visited := visited + {Now()};
        fault := Fault();
        ok := !fault;
        if ok {
          fs := fs - {p};
        }
      }
      visited := visited + {Now()};
    }

    method RemoveEmptyDirectory(p: Path) returns (outcome: RemoveDir)
      modifies this`fs, this`visited
      ensures visited == old(visited) + {Now()}
      ensures fs == if outcome.Removed? then old(fs) - {p} else old(fs)
      ensures outcome.Removed? ==> Children(old(fs), p) == {}
      ensures outcome.NotEmpty? ==> Children(old(fs), p) != {}
      ensures !faulty && p in old(fs) && old(fs)[p].IsDir() ==> !outcome.Failed?
    {
      var fault := Fault();
      outcome :=
        if fault || p !in fs || !fs[p].IsDir() then Failed
        else if Children(fs, p) != {} then NotEmpty
        else Removed;
      if outcome.Removed? {
        fs := fs - {p};
      }
      visited := visited + {Now()};
    }

    // ------------------------------------------------------------- store transactions

    method AcquireLeases(op: string, keys: set<string>) returns (outcome: Acquisition)
      modifies this`store, this`visited
      ensures visited == old(visited) + {Now()}
      ensures store == if outcome.Acquired? then old(store).AcquireLeases(op, keys) else old(store)
      ensures outcome.Acquired? ==>
                store == old(store).(leases := old(store).leases + map k | k in keys :: Lease(op, DeleteLease))
      ensures outcome.Acquired? ==> keys !! old(store).leases.Keys
      ensures outcome.Busy? ==> !(keys !! old(store).leases.Keys)
      ensures !faulty ==> !outcome.Unavailable?
    {
      var fault := Fault();
      outcome := if fault then Unavailable else if keys !! store.leases.Keys then Acquired else Busy;
      if outcome.Acquired? {
        store := store.AcquireLeases(op, keys);
      }
      visited := visited + {Now()};
    }

    method ReleaseLeases(op: string) returns (ok: bool)
      modifies this`store, this`visited
      ensures visited == old(visited) + {Now()}
      ensures store == if ok then old(store).ReleaseLeases(op) else old(store)
      ensures ok ==> LeasesReleased(old(store), store, op) && store.intents == old(store).intents
      ensures !faulty ==> ok
    {
      var fault := Fault();
      ok := !fault;
      if ok {
        store := store.ReleaseLeases(op);
      }
      visited := visited + {Now()};
    }

    method RecordIntents(intents: seq<Intent>) returns (ok: bool)
      modifies this`store, this`visited
      ensures visited == old(visited) + {Now()}
      ensures store == if ok then old(store).RecordIntents(intents) else old(store)
      ensures ok ==> store == old(store).(intents := old(store).intents + intents)
      ensures !faulty ==> ok
    {
      var fault := Fault();
      ok := !fault;
      if ok {
        store := store.RecordIntents(intents);
      }
      visited := visited + {Now()};
    }

    /** `commit_library_delete_if_revision`: nothing unless the revision is the expected one. */
    method CommitDelete(expected: nat, op: string, keys: set<string>) returns (ok: bool)
      modifies this`store, this`visited
      ensures visited == old(visited) + {Now()}
      ensures store == if ok then old(store).CommitDelete(op, keys) else old(store)
      ensures ok ==> old(store).revision == expected && store.leases == old(store).leases
      ensures ok ==> store.library == old(store).library - keys
      ensures ok ==> store.revision == expected + if exists k :: k in keys && k in old(store).library then 1 else 0
      ensures ok ==> |store.intents| == |old(store).intents| && forall i :: 0 <= i < |store.intents| ==>
                store.intents[i] == var intent := old(store).intents[i];
                  if intent.operationId == op then intent.(state := Committed) else intent
      ensures !faulty && old(store).revision == expected ==> ok
    {
      var fault := Fault();
      ok := !fault && store.revision == expected;
      if ok {
        store := store.CommitDelete(op, keys);
      }
      visited := visited + {Now()};
    }

    /** `abort_library_delete` and `finalize_library_delete`. */
    method CloseDelete(op: string) returns (ok: bool)
      modifies this`store, this`visited
      ensures visited == old(visited) + {Now()}
      ensures store == if ok then old(store).CloseDelete(op) else old(store)
      ensures ok ==> LeasesReleased(old(store), store, op)
      ensures ok ==> forall i ::
                multiset(store.intents)[i] == if i.operationId == op then 0 else multiset(old(store).intents)[i]
      ensures !faulty ==> ok
    {
      var fault := Fault();
      ok := !fault;
      IntentsOfOthersStay(store.intents, op);
      if ok {
        store := store.CloseDelete(op);
      }
      visited := visited + {Now()};
    }
  }
}
