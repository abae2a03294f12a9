/** Stored backups as a forest: every delta backup names the backup it increments. */
module BackupForest {
  import opened Bytes

  type Name = string

  /** What the metadata of a backup says about its place in the forest. */
  datatype Meta = Meta(parent: Option<Name>, start: nat, finish: nat, permanent: bool)

  type Store = map<Name, Meta>

  /** `p` is the backup that `n` increments. */
  predicate IsParent(store: Store, p: Name, n: Name) {
    n in store && store[n].parent == Some(p)
  }

  /** Every delta finds its parent, and the parent was finished before the delta started. */
  predicate Linked(store: Store) {
    && (forall n :: n in store ==> store[n].start < store[n].finish)
    && (forall n :: n in store && store[n].parent.Some? ==>
          store[n].parent.value in store && store[store[n].parent.value].finish <= store[n].start)
  }

  /** Permanence is closed under ancestors. */
  predicate Closed(store: Store)
    requires Linked(store)
  {
    forall n :: n in store && store[n].permanent && store[n].parent.Some? ==> store[store[n].parent.value].permanent
  }

  predicate Valid(store: Store) {
    Linked(store) && Closed(store)
  }

  /** `a` is a proper ancestor of `n`. */
  predicate IsAncestor(store: Store, a: Name, n: Name)
    requires Linked(store) && n in store
    decreases store[n].start
  {
    store[n].parent.Some? && (store[n].parent.value == a || IsAncestor(store, a, store[n].parent.value))
  }

  lemma {:induction false} AncestorsAreOlder(store: Store, a: Name, n: Name)
    requires Linked(store) && n in store && IsAncestor(store, a, n)
    ensures a in store && store[a].finish <= store[n].start
    decreases store[n].start
  {
    var p := store[n].parent.value;
    if p != a {
      AncestorsAreOlder(store, a, p);
    }
  }

  lemma {:induction false} AncestorsInStore(store: Store, n: Name)
    requires Linked(store) && n in store
    ensures forall a :: IsAncestor(store, a, n) ==> a in store && a != n
  {
    forall a | IsAncestor(store, a, n)
      ensures a in store && a != n
    {
      AncestorsAreOlder(store, a, n);
    }
  }

  /** In a closed forest a permanent backup has only permanent ancestors. */
  lemma {:induction false} PermanentAncestors(store: Store, a: Name, n: Name)
    requires Valid(store) && n in store && store[n].permanent && IsAncestor(store, a, n)
    ensures a in store && store[a].permanent
    decreases store[n].start
  {
    var p := store[n].parent.value;
    if p != a {
      PermanentAncestors(store, a, p);
    }
  }
}
