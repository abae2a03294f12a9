/** Marking and deletion together: the store that marking keeps valid is what deletion relies on, and the reverse. */
module BackupLifecycle {
  import opened Bytes
  import opened BackupForest
  import opened BackupDeletion

  /** `bs` lists the backups of the store. */
  ghost predicate Lists(store: Store, bs: seq<Backup>) {
    && UniqueNames(bs)
    && (forall b :: b in bs ==> b.name in store && store[b.name].parent == b.parent && store[b.name].permanent == b.permanent)
    && (forall n :: n in store ==> HasName(bs, n))
  }

  function StartRank(store: Store): map<Name, nat> {
    map n | n in store :: store[n].start
  }

  /** A valid store meets what deletion needs: no cycles, every parent present, permanence closed. */
  lemma ValidStoreIsDeletable(store: Store, bs: seq<Backup>)
    requires Valid(store) && Lists(store, bs)
    ensures Acyclic(bs, StartRank(store)) && ParentClosed(bs) && PermanenceClosed(bs)
  {
    forall b | b in bs && b.parent.Some?
      ensures HasName(bs, b.parent.value)
    {
      assert store[b.name].parent.value in store;
    }
    forall b, p | b in bs && p in bs && b.parent == Some(p.name)
      ensures store[p.name].start < store[b.name].start && (b.permanent ==> p.permanent)
    {
      assert store[b.name].parent == Some(p.name);
    }
  }

  /** The store after a deletion. */
  function Remaining(store: Store, kept: seq<Backup>): Store {
    map n | n in store && HasName(kept, n) :: store[n]
  }

  /** A deletion that leaves every delta its parent leaves a valid store, so marking and pushing can go on. */
  lemma DeletionKeepsValid(store: Store, bs: seq<Backup>, kept: seq<Backup>)
    requires Valid(store) && Lists(store, bs) && (forall b :: b in kept ==> b in bs) && ParentClosed(kept)
    ensures Valid(Remaining(store, kept))
  {
    var after := Remaining(store, kept);
    forall n | n in after && after[n].parent.Some?
      ensures after[n].parent.value in after
    {
      var b :| b in kept && b.name == n;
      assert HasName(kept, b.parent.value);
    }
  }

  /** Deleting a target from a valid store leaves a valid store and never takes a permanent backup. */
  method DeleteTargetFrom(store: Store, bs: seq<Backup>, target: Backup, findFull: bool) returns (after: Option<Store>)
    requires Valid(store) && Lists(store, bs) && target in bs
    requires findFull ==> Acyclic(bs, StartRank(store)) && BasesAreRoots(bs, StartRank(store))
    ensures after.Some? ==> Valid(after.value) && after.value.Keys <= store.Keys && target.name !in after.value
    ensures after.Some? ==> forall n :: n in store && store[n].permanent ==> n in after.value && after.value[n] == store[n]
  {
    hide Acyclic, BasesAreRoots, ChainsSurvive, Valid, Descends;
    ValidStoreIsDeletable(store, bs);
    var kept := DeleteTarget(bs, target, findFull, StartRank(store));
    if kept.None? {
      return None;
    }
    DeletionKeepsValid(store, bs, kept.value);
    return Some(Remaining(store, kept.value));
  }
}
