/** Choosing and deleting backups: DeleteHandler. */
module BackupDeletion {
  import opened Bytes
  import opened BackupForest

  /**
   * A backup object. `parent` is absent for a full backup; `key` is its place in the strict total order the handler
   * compares with.
   */
  datatype Backup = Backup(name: Name, parent: Option<Name>, base: Name, key: int, permanent: bool) {
    predicate IsFull() {
      parent.None?
    }

    /** GetBaseBackupName: empty for a full backup. */
    function BaseName(): Name {
      if IsFull() then "" else base
    }
  }

  predicate UniqueNames(bs: seq<Backup>) {
    forall i, j :: 0 <= i < j < |bs| ==> bs[i].name != bs[j].name
  }

  predicate UniqueKeys(bs: seq<Backup>) {
    forall i, j :: 0 <= i < j < |bs| ==> bs[i].key != bs[j].key
  }

  /** `rank` shows that the increment graph has no cycle. */
  ghost predicate Acyclic(bs: seq<Backup>, rank: map<Name, nat>) {
    && (forall b :: b in bs ==> b.name in rank)
    && (forall b, p :: b in bs && p in bs && b.parent == Some(p.name) ==> rank[p.name] < rank[b.name])
  }

  /** The backup named `a` is a proper ancestor of `b` in its increment chain. */
  ghost predicate Descends(bs: seq<Backup>, rank: map<Name, nat>, a: Name, b: Backup)
    requires Acyclic(bs, rank) && b in bs
    decreases rank[b.name]
  {
    b.parent.Some? &&
    (b.parent.value == a || exists p :: p in bs && p.name == b.parent.value && Descends(bs, rank, a, p))
  }

  /** Every delta finds the backup it increments. */
  ghost predicate ParentClosed(bs: seq<Backup>) {
    forall b :: b in bs && b.parent.Some? ==> HasName(bs, b.parent.value)
  }

  predicate HasName(bs: seq<Backup>, n: Name) {
    exists p :: p in bs && p.name == n
  }

  predicate NoDuplicates<T(==)>(s: seq<T>) {
    forall i, j :: 0 <= i < j < |s| ==> s[i] != s[j]
  }

  lemma SameName(bs: seq<Backup>, a: Backup, b: Backup)
    requires UniqueNames(bs) && a in bs && b in bs && a.name == b.name
    ensures a == b
  {
  }

  lemma DifferentNames(bs: seq<Backup>, a: Backup, b: Backup)
    requires UniqueNames(bs) && a in bs && b in bs && a != b
    ensures a.name != b.name
  {
  }

  lemma {:induction false} DescendsIsOlder(bs: seq<Backup>, rank: map<Name, nat>, a: Backup, b: Backup)
    requires Acyclic(bs, rank) && UniqueNames(bs) && a in bs && b in bs && Descends(bs, rank, a.name, b)
    ensures rank[a.name] < rank[b.name]
    decreases rank[b.name]
  {
    if b.parent.value != a.name {
      var p :| p in bs && p.name == b.parent.value && Descends(bs, rank, a.name, p);
      DescendsIsOlder(bs, rank, a, p);
    }
  }

  lemma {:induction false} SizeOfPart(s: seq<Backup>, bs: seq<Backup>)
    requires NoDuplicates(s) && forall b :: b in s ==> b in bs
    ensures |s| <= |bs|
  {
    var all := set b | b in bs;
    var part := set b | b in s;
    SetSize(s);
    SetBound(bs);
    assert part <= all;
    SubsetSize(part, all);
  }

  lemma {:induction false} SetSize(s: seq<Backup>)
    requires NoDuplicates(s)
    ensures |set b | b in s| == |s|
  {
    if s != [] {
      var rest := s[..|s| - 1];
      SetSize(rest);
      assert (set b | b in s) == (set b | b in rest) + {s[|s| - 1]};
    }
  }

  lemma {:induction false} SetBound(s: seq<Backup>)
    ensures |set b | b in s| <= |s|
  {
    if s != [] {
      var rest := s[..|s| - 1];
      SetBound(rest);
      assert (set b | b in s) == (set b | b in rest) + {s[|s| - 1]};
    }
  }

  lemma {:induction false} SubsetSize(a: set<Backup>, b: set<Backup>)
    requires a <= b
    ensures |a| <= |b|
    decreases a
  {
    if a != {} {
      var x :| x in a;
      SubsetSize(a - {x}, b - {x});
    }
  }

  // ---- dependants -----------------------------------------------------------

  /** The increments made from the backup named `p`, in listing order. */
  function Increments(bs: seq<Backup>, p: Name): seq<Backup> {
    if bs == [] then []
    else Increments(bs[..|bs| - 1], p) + (if bs[|bs| - 1].parent == Some(p) then [bs[|bs| - 1]] else [])
  }

  lemma {:induction false} IncrementsMembers(bs: seq<Backup>, p: Name)
    ensures forall b :: b in Increments(bs, p) <==> b in bs && b.parent == Some(p)
  {
    if bs != [] {
      IncrementsMembers(bs[..|bs| - 1], p);
      assert bs == bs[..|bs| - 1] + [bs[|bs| - 1]];
    }
  }

  lemma {:induction false} IncrementsDistinct(bs: seq<Backup>, p: Name)
    requires UniqueNames(bs)
    ensures NoDuplicates(Increments(bs, p))
  {
    if bs != [] {
      IncrementsDistinct(bs[..|bs| - 1], p);
      IncrementsMembers(bs[..|bs| - 1], p);
    }
  }

  method IncrementsByBackup(bs: seq<Backup>) returns (links: map<Name, seq<Backup>>)
    ensures forall p :: Increments(bs, p) == if p in links then links[p] else []
  {
    links := map[];
    for i := 0 to |bs|
      invariant forall p :: Increments(bs[..i], p) == if p in links then links[p] else []
    {
      assert bs[..i + 1][..i] == bs[..i];
      if !bs[i].IsFull() {
        var from := bs[i].parent.value;
        links := links[from := (if from in links then links[from] else []) + [bs[i]]];
      }
    }
    assert bs[..|bs|] == bs;
  }

  /** What the breadth-first search has seen: the backups done with and those waiting in the queue. */
  ghost predicate Seen(bs: seq<Backup>, rank: map<Name, nat>, target: Backup, done: seq<Backup>, seen: seq<Backup>)
    requires Acyclic(bs, rank)
  {
    && NoDuplicates(seen) && target in seen
    && (forall b :: b in seen ==> b in bs && (b == target || Descends(bs, rank, target.name, b)))
    && (forall b :: b in seen && b != target ==> b.parent.Some? && HasName(done, b.parent.value))
    && (forall b :: b in bs && b.parent.Some? && HasName(done, b.parent.value) ==> b in seen)
  }

  lemma VisitKeepsSeen(bs: seq<Backup>, rank: map<Name, nat>, target: Backup,
                       done: seq<Backup>, curr: Backup, rest: seq<Backup>)
    requires Acyclic(bs, rank) && UniqueNames(bs) && target in bs
    requires Seen(bs, rank, target, done, done + [curr] + rest)
    ensures Seen(bs, rank, target, done + [curr], done + [curr] + rest + Increments(bs, curr.name))
  {
    hide Descends, Increments, NoDuplicates, HasName, Acyclic, UniqueNames;
    var seen, next := done + [curr] + rest, Increments(bs, curr.name);
    assert curr in seen;
    IncrementsMembers(bs, curr.name);
    IncrementsDistinct(bs, curr.name);
    IncrementsUnseen(bs, rank, target, done, curr, rest);
    JoinDistinct(seen, next);
    NamesGrow(done, curr);
  }

  lemma IncrementsUnseen(bs: seq<Backup>, rank: map<Name, nat>, target: Backup,
                         done: seq<Backup>, curr: Backup, rest: seq<Backup>)
    requires Acyclic(bs, rank) && UniqueNames(bs) && target in bs
    requires Seen(bs, rank, target, done, done + [curr] + rest)
    ensures forall c :: c in Increments(bs, curr.name) ==>
              c in bs && c !in done + [curr] + rest && Descends(bs, rank, target.name, c)
  {
    hide Descends, Increments, NoDuplicates, HasName, UniqueNames;
    IncrementsMembers(bs, curr.name);
    assert curr in done + [curr] + rest;
    forall c | c in Increments(bs, curr.name)
      ensures c !in done + [curr] + rest && Descends(bs, rank, target.name, c)
    {
      IncrementDescends(bs, rank, target, curr, c);
      NotSeenTwice(bs, rank, target, done, curr, rest, c);
    }
  }

  lemma JoinDistinct(a: seq<Backup>, b: seq<Backup>)
    requires NoDuplicates(a) && NoDuplicates(b) && forall x :: x in b ==> x !in a
    ensures NoDuplicates(a + b)
  {
    forall i, j | 0 <= i < j < |a + b|
      ensures (a + b)[i] != (a + b)[j]
    {
      if j >= |a| {
        assert (a + b)[j] == b[j - |a|] && b[j - |a|] in b;
      }
    }
  }

  lemma NamesGrow(done: seq<Backup>, curr: Backup)
    ensures forall n :: HasName(done + [curr], n) <==> HasName(done, n) || n == curr.name
  {
    forall n
      ensures HasName(done + [curr], n) <==> HasName(done, n) || n == curr.name
    {
      if HasName(done, n) {
        var p :| p in done && p.name == n;
        assert p in done + [curr];
      }
      if n == curr.name {
        assert curr in done + [curr];
      }
    }
  }

  lemma IncrementDescends(bs: seq<Backup>, rank: map<Name, nat>, target: Backup, curr: Backup, c: Backup)
    requires Acyclic(bs, rank) && c in bs && curr in bs && c.parent == Some(curr.name)
    requires curr == target || Descends(bs, rank, target.name, curr)
    ensures Descends(bs, rank, target.name, c)
  {
  }

  lemma NotSeenTwice(bs: seq<Backup>, rank: map<Name, nat>, target: Backup,
                     done: seq<Backup>, curr: Backup, rest: seq<Backup>, c: Backup)
    requires Acyclic(bs, rank) && UniqueNames(bs) && target in bs && c in bs && c.parent == Some(curr.name)
    requires Seen(bs, rank, target, done, done + [curr] + rest) && Descends(bs, rank, target.name, c)
    ensures c !in done + [curr] + rest
  {
    hide Descends;
    var seen := done + [curr] + rest;
    assert seen[|done|] == curr;
    forall i | 0 <= i < |done|
      ensures done[i].name != curr.name
    {
      assert seen[i] == done[i] && seen[i] != curr;
      DifferentNames(bs, done[i], curr);
    }
    if c == target {
      DescendsIsOlder(bs, rank, target, target);
    }
  }

  lemma {:induction false} SeenEverything(bs: seq<Backup>, rank: map<Name, nat>, target: Backup,
                                          done: seq<Backup>, b: Backup)
    requires Acyclic(bs, rank) && UniqueNames(bs) && target in bs && b in bs
    requires Seen(bs, rank, target, done, done) && Descends(bs, rank, target.name, b)
    ensures b in done
    decreases rank[b.name]
  {
    if b.parent.value == target.name {
      assert HasName(done, target.name);
    } else {
      var p :| p in bs && p.name == b.parent.value && Descends(bs, rank, target.name, p);
      SeenEverything(bs, rank, target, done, p);
      assert HasName(done, p.name);
    }
  }

  ghost predicate Dependant(bs: seq<Backup>, rank: map<Name, nat>, target: Backup, b: Backup)
    requires Acyclic(bs, rank) && b in bs
  {
    b == target || Descends(bs, rank, target.name, b)
  }

  /** The target and all its transitive increments, each exactly once. */
  ghost predicate IsDependants(bs: seq<Backup>, rank: map<Name, nat>, target: Backup, r: seq<Backup>)
    requires Acyclic(bs, rank)
  {
    NoDuplicates(r) && forall b :: b in r <==> b in bs && Dependant(bs, rank, target, b)
  }

  /** findDependantBackups: a breadth-first search that ends on every acyclic graph. */
  method FindDependantBackups(bs: seq<Backup>, target: Backup, ghost rank: map<Name, nat>) returns (related: seq<Backup>)
    requires Acyclic(bs, rank) && UniqueNames(bs) && target in bs
    ensures IsDependants(bs, rank, target, related)
  {
    hide Descends, Increments, Acyclic;
    var links := IncrementsByBackup(bs);
    related := [];
    var queue := [target];
    assert related + queue == [target];
    while queue != []
      invariant Seen(bs, rank, target, related, related + queue)
      decreases |bs| - |related|
    {
      var curr, rest := queue[0], queue[1..];
      assert related + queue == related + [curr] + rest;
      VisitKeepsSeen(bs, rank, target, related, curr, rest);
      var next := if curr.name in links then links[curr.name] else [];
      assert related + [curr] + rest + next == (related + [curr]) + (rest + next);
      related, queue := related + [curr], rest + next;
      VisitedBound(bs, rank, target, related, queue);
    }
    assert related + [] == related;
    forall b | b in bs && Descends(bs, rank, target.name, b)
      ensures b in related
    {
      SeenEverything(bs, rank, target, related, b);
    }
  }

  lemma VisitedBound(bs: seq<Backup>, rank: map<Name, nat>, target: Backup, done: seq<Backup>, queue: seq<Backup>)
    requires Acyclic(bs, rank) && Seen(bs, rank, target, done, done + queue)
    ensures |done| <= |bs|
  {
    hide Descends;
    assert done == (done + queue)[..|done|];
    assert forall b :: b in done ==> b in done + queue;
    SizeOfPart(done, bs);
  }

  // ---- deleting targets -----------------------------------------------------

  /** The backups whose names are not doomed, in order. */
  function Spared(bs: seq<Backup>, doomed: set<Name>): seq<Backup> {
    if bs == [] then []
    else Spared(bs[..|bs| - 1], doomed) + (if bs[|bs| - 1].name in doomed then [] else [bs[|bs| - 1]])
  }

  lemma {:induction false} SparedMembers(bs: seq<Backup>, doomed: set<Name>)
    ensures forall b :: b in Spared(bs, doomed) <==> b in bs && b.name !in doomed
  {
    if bs != [] {
      SparedMembers(bs[..|bs| - 1], doomed);
      assert bs == bs[..|bs| - 1] + [bs[|bs| - 1]];
    }
  }

  /** DeleteTargets: refuses when some target is permanent, deletes nothing then. */
  method DeleteTargets(bs: seq<Backup>, targets: seq<Backup>) returns (r: Option<seq<Backup>>)
    requires UniqueNames(bs) && forall t :: t in targets ==> t in bs
    ensures r.None? <==> exists t :: t in targets && t.permanent
    ensures r.Some? ==> r.value == Spared(bs, set t | t in targets :: t.name)
    ensures r.Some? ==> forall b :: b in r.value <==> b in bs && b !in targets
  {
    var doomed := {};
    for i := 0 to |targets|
      invariant doomed == set t | t in targets[..i] :: t.name
      invariant forall k :: 0 <= k < i ==> !targets[k].permanent
    {
      if targets[i].permanent {
        return None;
      }
      assert targets[..i + 1] == targets[..i] + [targets[i]];
      doomed := doomed + {targets[i].name};
    }
    assert targets[..|targets|] == targets;
    var kept := [];
    for i := 0 to |bs|
      invariant kept == Spared(bs[..i], doomed)
    {
      assert bs[..i + 1][..i] == bs[..i];
      if !(bs[i].name in doomed && !bs[i].permanent) {
        DoomedImpermanent(bs, targets, bs[i], doomed);
        kept := kept + [bs[i]];
      }
    }
    assert bs[..|bs|] == bs;
    SparedMembers(bs, doomed);
    forall b | b in bs
      ensures b.name in doomed <==> b in targets
    {
      DoomedImpermanent(bs, targets, b, doomed);
    }
    return Some(kept);
  }

  lemma DoomedImpermanent(bs: seq<Backup>, targets: seq<Backup>, b: Backup, doomed: set<Name>)
    requires UniqueNames(bs) && b in bs && (forall t :: t in targets ==> t in bs && !t.permanent)
    requires doomed == set t | t in targets :: t.name
    ensures b.name in doomed <==> b in targets
    ensures b.permanent ==> b.name !in doomed
  {
    if b.name in doomed {
      var t :| t in targets && t.name == b.name;
      SameName(bs, t, b);
    }
  }

  /** Every ancestor that a survivor had is a survivor. */
  ghost predicate ChainsSurvive(bs: seq<Backup>, rank: map<Name, nat>, kept: seq<Backup>)
    requires Acyclic(bs, rank)
  {
    forall a, b :: b in kept && b in bs && a in bs && Descends(bs, rank, a.name, b) ==> a in kept
  }

  /** Deleting a target with its dependants leaves every surviving delta its parent and its whole chain. */
  lemma TargetDeletionKeepsChains(bs: seq<Backup>, rank: map<Name, nat>, target: Backup,
                                  deleted: seq<Backup>, kept: seq<Backup>)
    requires Acyclic(bs, rank) && UniqueNames(bs) && ParentClosed(bs) && target in bs
    requires IsDependants(bs, rank, target, deleted)
    requires forall b :: b in kept <==> b in bs && b !in deleted
    ensures ParentClosed(kept) && ChainsSurvive(bs, rank, kept)
  {
    forall b | b in kept && b.parent.Some?
      ensures HasName(kept, b.parent.value)
    {
      var p :| p in bs && p.name == b.parent.value;
      if p in deleted {
        IncrementDescends(bs, rank, target, p, b);
      }
      assert p in kept;
    }
    forall a, b | b in kept && a in bs && Descends(bs, rank, a.name, b)
      ensures a in kept
    {
      if a in deleted {
        DescentJoins(bs, rank, target, a, b);
      }
    }
  }

  lemma {:induction false} DescentJoins(bs: seq<Backup>, rank: map<Name, nat>, target: Backup, a: Backup, b: Backup)
    requires Acyclic(bs, rank) && UniqueNames(bs) && a in bs && b in bs && Descends(bs, rank, a.name, b)
    requires a == target || Descends(bs, rank, target.name, a)
    ensures Descends(bs, rank, target.name, b)
    decreases rank[b.name]
  {
    if b.parent.value != a.name {
      var p :| p in bs && p.name == b.parent.value && Descends(bs, rank, a.name, p);
      DescentJoins(bs, rank, target, a, p);
    }
  }

  // ---- related backups (FIND_FULL) ------------------------------------------

  predicate Related(target: Backup, other: Backup) {
    if target.IsFull() then other.name == target.name || other.BaseName() == target.name
    else other.name == target.BaseName() || other.BaseName() == target.BaseName()
  }

  /** The name of the full backup under the target. */
  function RootName(b: Backup): Name {
    if b.IsFull() then b.name else b.base
  }

  /** Names are not empty and every delta's base name is that of the full backup its chain starts from. */
  ghost predicate BasesAreRoots(bs: seq<Backup>, rank: map<Name, nat>)
    requires Acyclic(bs, rank)
  {
    && (forall b :: b in bs ==> b.name != "")
    && (forall b :: b in bs && !b.IsFull() ==>
          exists r :: r in bs && r.IsFull() && r.name == b.base && Descends(bs, rank, r.name, b))
  }

  method FindRelatedBackups(bs: seq<Backup>, target: Backup) returns (related: seq<Backup>)
    requires UniqueNames(bs)
    ensures NoDuplicates(related) && forall b :: b in related <==> b in bs && Related(target, b)
  {
    related := [];
    for i := 0 to |bs|
      invariant NoDuplicates(related) && forall b :: b in related <==> b in bs[..i] && Related(target, b)
    {
      if Related(target, bs[i]) {
        related := related + [bs[i]];
      }
    }
  }

  lemma {:induction false} OneRoot(bs: seq<Backup>, rank: map<Name, nat>, r: Backup, q: Backup, b: Backup)
    requires Acyclic(bs, rank) && UniqueNames(bs) && r in bs && q in bs && b in bs && r.IsFull() && q.IsFull()
    requires Descends(bs, rank, r.name, b) && Descends(bs, rank, q.name, b)
    ensures r == q
    decreases rank[b.name]
  {
    if b.parent.value != r.name && b.parent.value != q.name {
      var p :| p in bs && p.name == b.parent.value && Descends(bs, rank, r.name, p);
      var p' :| p' in bs && p'.name == b.parent.value && Descends(bs, rank, q.name, p');
      SameName(bs, p, p');
      OneRoot(bs, rank, r, q, p);
    } else if r.name == q.name {
      SameName(bs, r, q);
    }
  }

  /** FIND_FULL deletes exactly the tree of the target: its full backup and everything that descends from it. */
  lemma RelatedIsWholeTree(bs: seq<Backup>, rank: map<Name, nat>, target: Backup, root: Backup, related: seq<Backup>)
    requires Acyclic(bs, rank) && UniqueNames(bs) && BasesAreRoots(bs, rank) && target in bs
    requires root in bs && root.IsFull() && root.name == RootName(target)
    requires NoDuplicates(related) && forall b :: b in related <==> b in bs && Related(target, b)
    ensures IsDependants(bs, rank, root, related)
  {
    hide Descends;
    forall b | b in bs
      ensures Related(target, b) <==> b == root || Descends(bs, rank, root.name, b)
    {
      if b.IsFull() {
        FullDescendsFromNone(bs, rank, root.name, b);
        if b.name == root.name {
          SameName(bs, b, root);
        }
      } else {
        var r :| r in bs && r.IsFull() && r.name == b.base && Descends(bs, rank, r.name, b);
        if b.name == root.name {
          SameName(bs, b, root);
        }
        if r.name == root.name {
          SameName(bs, r, root);
        } else if Descends(bs, rank, root.name, b) {
          OneRoot(bs, rank, r, root, b);
        }
      }
    }
  }

  lemma FullDescendsFromNone(bs: seq<Backup>, rank: map<Name, nat>, a: Name, b: Backup)
    requires Acyclic(bs, rank) && b in bs && b.IsFull()
    ensures !Descends(bs, rank, a, b)
  {
  }

  /** HandleDeleteTarget, both forms: refused without a change, or every surviving delta keeps its chain. */
  method DeleteTarget(bs: seq<Backup>, target: Backup, findFull: bool, ghost rank: map<Name, nat>)
    returns (r: Option<seq<Backup>>)
    requires Acyclic(bs, rank) && UniqueNames(bs) && ParentClosed(bs) && target in bs
    requires findFull ==> BasesAreRoots(bs, rank)
    ensures r.None? && !findFull <==> !findFull && exists b :: b in bs && b.permanent && Dependant(bs, rank, target, b)
    ensures r.None? && findFull <==> findFull && exists b :: b in bs && b.permanent && Related(target, b)
    ensures r.Some? ==> ParentClosed(r.value) && ChainsSurvive(bs, rank, r.value)
    ensures r.Some? && !findFull ==>
      forall b :: b in r.value <==> b in bs && !Dependant(bs, rank, target, b)
    ensures r.Some? && findFull ==> forall b :: b in r.value <==> b in bs && !Related(target, b)
    ensures r.Some? ==> forall b :: b in bs && b.permanent ==> b in r.value
  {
    hide Descends, Acyclic, ParentClosed, ChainsSurvive, UniqueNames;
    if findFull {
      var related := FindRelatedBackups(bs, target);
      r := DeleteTargets(bs, related);
      ghost var root := RootOf(bs, rank, target);
      RelatedIsWholeTree(bs, rank, target, root, related);
      if r.Some? {
        TargetDeletionKeepsChains(bs, rank, root, related, r.value);
      }
    } else {
      var dependants := FindDependantBackups(bs, target, rank);
      r := DeleteTargets(bs, dependants);
      if r.Some? {
        TargetDeletionKeepsChains(bs, rank, target, dependants, r.value);
      }
    }
  }

  ghost function RootOf(bs: seq<Backup>, rank: map<Name, nat>, target: Backup): (root: Backup)
    requires Acyclic(bs, rank) && BasesAreRoots(bs, rank) && target in bs
    ensures root in bs && root.IsFull() && root.name == RootName(target)
  {
    if target.IsFull() then target
    else var r :| r in bs && r.IsFull() && r.name == target.base && Descends(bs, rank, r.name, target); r
  }

  // ---- delete before --------------------------------------------------------

  /** What DeleteBeforeTarget leaves. */
  function KeptBefore(bs: seq<Backup>, target: Backup): seq<Backup> {
    if bs == [] then []
    else
      var last := bs[|bs| - 1];
      KeptBefore(bs[..|bs| - 1], target) + (if last.key < target.key && !last.permanent then [] else [last])
  }

  lemma {:induction false} KeptBeforeMembers(bs: seq<Backup>, target: Backup)
    ensures forall b :: b in KeptBefore(bs, target) <==> b in bs && (b.key >= target.key || b.permanent)
  {
    if bs != [] {
      KeptBeforeMembers(bs[..|bs| - 1], target);
      assert bs == bs[..|bs| - 1] + [bs[|bs| - 1]];
    }
  }

  /** DeleteBeforeTarget: forbidden for an incremental target. */
  method DeleteBeforeTarget(bs: seq<Backup>, target: Backup) returns (r: Option<seq<Backup>>)
    ensures r == if target.IsFull() then Some(KeptBefore(bs, target)) else None
  {
    if !target.IsFull() {
      return None;
    }
    var kept := [];
    for i := 0 to |bs|
      invariant kept == KeptBefore(bs[..i], target)
    {
      assert bs[..i + 1][..i] == bs[..i];
      if !(bs[i].key < target.key && !bs[i].permanent) {
        kept := kept + [bs[i]];
      }
    }
    assert bs[..|bs|] == bs;
    return Some(kept);
  }

  /** Permanence is closed under ancestors, as marking keeps it. */
  ghost predicate PermanenceClosed(bs: seq<Backup>) {
    forall b, p :: b in bs && p in bs && b.parent == Some(p.name) && b.permanent ==> p.permanent
  }

  /** Some delta after the target increments an impermanent backup before it. */
  ghost predicate Straddled(bs: seq<Backup>, target: Backup) {
    exists b, p :: IncrementOf(bs, b, p) && !p.permanent && p.key < target.key < b.key
  }

  predicate IncrementOf(bs: seq<Backup>, b: Backup, p: Backup) {
    b in bs && p in bs && b.parent == Some(p.name)
  }

  /** Deleting before a full target orphans no delta exactly when no impermanent increment straddles the target. */
  lemma DeleteBeforeSafe(bs: seq<Backup>, target: Backup)
    requires UniqueNames(bs) && UniqueKeys(bs) && ParentClosed(bs) && PermanenceClosed(bs)
    requires target in bs && target.IsFull()
    ensures ParentClosed(KeptBefore(bs, target)) <==> !Straddled(bs, target)
  {
    var kept := KeptBefore(bs, target);
    KeptBeforeMembers(bs, target);
    if Straddled(bs, target) {
      var b, p :| IncrementOf(bs, b, p) && !p.permanent && p.key < target.key < b.key;
      assert b in kept;
      forall q | q in bs && q.name == p.name
        ensures q == p
      {
        SameName(bs, p, q);
      }
    } else {
      forall b | b in kept && b.parent.Some?
        ensures HasName(kept, b.parent.value)
      {
        var p :| p in bs && p.name == b.parent.value;
        assert IncrementOf(bs, b, p);
        DifferentKeys(bs, b, target);
        assert p in kept;
      }
    }
  }

  /** A delta taken after the target on top of a full backup before it loses that backup. */
  lemma DeltaOrphaned()
    ensures var base, target := Backup("a", None, "", 1, false), Backup("b", None, "", 2, false);
      var delta := Backup("c", Some("a"), "a", 3, false);
      && ParentClosed([base, target, delta]) && PermanenceClosed([base, target, delta])
      && KeptBefore([base, target, delta], target) == [target, delta] && !ParentClosed([target, delta])
  {
    var base, target := Backup("a", None, "", 1, false), Backup("b", None, "", 2, false);
    var delta := Backup("c", Some("a"), "a", 3, false);
    var bs := [base, target, delta];
    assert "a"[0] != "b"[0] && "a"[0] != "c"[0] && "b"[0] != "c"[0];
    assert base in bs && target in bs && delta in bs;
    assert IncrementOf(bs, delta, base);
    DeleteBeforeSafe(bs, target);
    assert bs[..2] == [base, target] && bs[..2][..1] == [base] && [base][..0] == [];
    assert KeptBefore([base], target) == [];
    assert KeptBefore([base, target], target) == [target];
  }

  lemma DifferentKeys(bs: seq<Backup>, a: Backup, b: Backup)
    requires UniqueKeys(bs) && a in bs && b in bs && a != b
    ensures a.key != b.key
  {
  }

  /** Every backup is newer than the one it increments. */
  ghost predicate Chronological(bs: seq<Backup>) {
    forall b, p :: IncrementOf(bs, b, p) ==> p.key < b.key
  }

  /** No full backup lies strictly between a delta and the full backup under it. */
  ghost predicate TreesDoNotInterleave(bs: seq<Backup>, rank: map<Name, nat>)
    requires Acyclic(bs, rank)
  {
    forall b, r, t :: b in bs && r in bs && t in bs && r.IsFull() && t.IsFull() && Descends(bs, rank, r.name, b)
      ==> !(r.key < t.key < b.key)
  }

  lemma {:induction false} DescendsIsEarlier(bs: seq<Backup>, rank: map<Name, nat>, a: Backup, b: Backup)
    requires Acyclic(bs, rank) && UniqueNames(bs) && Chronological(bs)
    requires a in bs && b in bs && Descends(bs, rank, a.name, b)
    ensures a.key < b.key
    decreases rank[b.name]
  {
    if b.parent.value == a.name {
      assert IncrementOf(bs, b, a);
    } else {
      var p :| p in bs && p.name == b.parent.value && Descends(bs, rank, a.name, p);
      assert IncrementOf(bs, b, p);
      DescendsIsEarlier(bs, rank, a, p);
    }
  }

  /** When trees do not interleave, deleting before any full backup orphans no delta. */
  lemma DeleteBeforeKeepsTrees(bs: seq<Backup>, rank: map<Name, nat>, target: Backup)
    requires Acyclic(bs, rank) && UniqueNames(bs) && UniqueKeys(bs) && ParentClosed(bs) && PermanenceClosed(bs)
    requires Chronological(bs) && BasesAreRoots(bs, rank) && TreesDoNotInterleave(bs, rank)
    requires target in bs && target.IsFull()
    ensures ParentClosed(KeptBefore(bs, target))
  {
    hide Descends, UniqueNames, UniqueKeys, PermanenceClosed, ParentClosed, KeptBefore, Acyclic, BasesAreRoots;
    DeleteBeforeSafe(bs, target);
    if Straddled(bs, target) {
      var b, p :| IncrementOf(bs, b, p) && !p.permanent && p.key < target.key < b.key;
      var r := RootOf(bs, rank, p);
      if p != r {
        RootDescent(bs, rank, p);
        DescendsIsEarlier(bs, rank, r, p);
      }
      IncrementDescends(bs, rank, r, p, b);
    }
  }

  lemma RootDescent(bs: seq<Backup>, rank: map<Name, nat>, b: Backup)
    requires Acyclic(bs, rank) && UniqueNames(bs) && BasesAreRoots(bs, rank) && b in bs
    ensures RootOf(bs, rank, b) == b || Descends(bs, rank, RootOf(bs, rank, b).name, b)
  {
  }

  // ---- retain ---------------------------------------------------------------

  datatype Modifier = NoModifier | FullOnly | FindFull

  predicate Newer(a: Backup, b: Backup) {
    a.key > b.key
  }

  predicate NewestFirst(s: seq<Backup>) {
    forall i, j :: 0 <= i < j < |s| ==> Newer(s[i], s[j])
  }

  /** Sorting by `greater`; with distinct keys the result is the only one possible. */
  function Insert(s: seq<Backup>, b: Backup): seq<Backup> {
    if s == [] || Newer(b, s[0]) then [b] + s else [s[0]] + Insert(s[1..], b)
  }

  function Sorted(bs: seq<Backup>): seq<Backup> {
    if bs == [] then [] else Insert(Sorted(bs[1..]), bs[0])
  }

  lemma {:induction false} InsertSorts(s: seq<Backup>, b: Backup)
    requires NewestFirst(s) && forall x :: x in s ==> x.key != b.key
    ensures NewestFirst(Insert(s, b)) && forall x :: x in Insert(s, b) <==> x == b || x in s
  {
    if s != [] && !Newer(b, s[0]) {
      InsertSorts(s[1..], b);
      assert forall x :: x in s <==> x == s[0] || x in s[1..];
      forall x | x in s[1..]
        ensures Newer(s[0], x)
      {
      }
    } else if s != [] {
      assert forall x :: x in s ==> x == s[0] || Newer(s[0], x);
    }
  }

  lemma {:induction false} SortedSorts(bs: seq<Backup>)
    requires UniqueKeys(bs)
    ensures NewestFirst(Sorted(bs)) && forall x :: x in Sorted(bs) <==> x in bs
  {
    if bs != [] {
      SortedSorts(bs[1..]);
      InsertSorts(Sorted(bs[1..]), bs[0]);
      assert bs == [bs[0]] + bs[1..];
    }
  }

  /** The backups not less than `t`, and the full ones among them. */
  function NotLess(bs: seq<Backup>, t: Backup): set<Backup> {
    set b | b in bs && b.key >= t.key
  }

  function FullNotLess(bs: seq<Backup>, t: Backup): set<Backup> {
    set b | b in bs && b.key >= t.key && b.IsFull()
  }

  function Fulls(bs: seq<Backup>): set<Backup> {
    set b | b in bs && b.IsFull()
  }

  /** The choice function of retain: a closure that counts the backups it is shown. */
  class RetainChoice {
    const retentionCount: int
    const modifier: Modifier
    var count: int

    constructor (retentionCount: int, modifier: Modifier)
      ensures this.retentionCount == retentionCount && this.modifier == modifier && count == 0
    {
      this.retentionCount, this.modifier, count := retentionCount, modifier, 0;
    }

    method IsTarget(b: Backup) returns (chosen: bool)
      modifies this
      ensures count == old(count) + (if modifier == FullOnly && !b.IsFull() then 0 else 1)
      ensures chosen <==> match modifier
                          case NoModifier => count == retentionCount
                          case FullOnly => count == retentionCount
                          case FindFull => count >= retentionCount && b.IsFull()
    {
      if modifier != FullOnly || b.IsFull() {
        count := count + 1;
      }
      chosen := if modifier == FindFull then count >= retentionCount && b.IsFull() else count == retentionCount;
    }
  }

  /** What the closure answers for the backup at place `i` of the sorted list. */
  predicate Chosen(s: seq<Backup>, n: int, modifier: Modifier, i: nat)
    requires i < |s|
  {
    match modifier
    case NoModifier => i + 1 == n
    case FullOnly => |Fulls(s[..i + 1])| == n
    case FindFull => i + 1 >= n && s[i].IsFull()
  }

  ghost predicate IsFirstChosen(s: seq<Backup>, n: int, modifier: Modifier, r: Option<Backup>) {
    match r
    case None => forall i :: 0 <= i < |s| ==> !Chosen(s, n, modifier, i)
    case Some(b) => exists i :: 0 <= i < |s| && b == s[i] && ChosenFirst(s, n, modifier, i)
  }

  predicate ChosenFirst(s: seq<Backup>, n: int, modifier: Modifier, i: nat)
    requires i < |s|
  {
    Chosen(s, n, modifier, i) && forall k :: 0 <= k < i ==> !Chosen(s, n, modifier, k)
  }

  /** findTarget with the retain choice: the first chosen backup of the list, the newest first. */
  method FindTargetRetain(bs: seq<Backup>, n: int, modifier: Modifier) returns (r: Option<Backup>)
    requires UniqueKeys(bs)
    ensures IsFirstChosen(Sorted(bs), n, modifier, r)
  {
    var s := Sorted(bs);
    SortedSorts(bs);
    var choice := new RetainChoice(n, modifier);
    for i := 0 to |s|
      invariant forall k :: 0 <= k < i ==> !Chosen(s, n, modifier, k)
      invariant choice.count == if modifier == FullOnly then |Fulls(s[..i])| else i
    {
      FullsGrow(s, i);
      var chosen := choice.IsTarget(s[i]);
      if chosen {
        assert ChosenFirst(s, n, modifier, i);
        return Some(s[i]);
      }
    }
    return None;
  }

  lemma FullsGrow(s: seq<Backup>, i: nat)
    requires NewestFirst(s) && i < |s|
    ensures |Fulls(s[..i + 1])| == |Fulls(s[..i])| + if s[i].IsFull() then 1 else 0
  {
    assert forall b :: b in s[..i + 1] <==> b in s[..i] || b == s[i];
    assert s[i] !in s[..i];
    assert Fulls(s[..i + 1]) == if s[i].IsFull() then Fulls(s[..i]) + {s[i]} else Fulls(s[..i]);
  }

  /** The place of a backup in the sorted list counts the backups not less than it. */
  lemma PlaceCounts(bs: seq<Backup>, i: nat)
    requires UniqueKeys(bs) && i < |Sorted(bs)|
    ensures |NotLess(bs, Sorted(bs)[i])| == i + 1
    ensures FullNotLess(bs, Sorted(bs)[i]) == Fulls(Sorted(bs)[..i + 1])
  {
    hide Sorted;
    var s := Sorted(bs);
    SortedSorts(bs);
    var first := s[..i + 1];
    forall b
      ensures b in first <==> b in bs && b.key >= s[i].key
    {
      if b in bs {
        var k :| 0 <= k < |s| && s[k] == b;
        assert k <= i ==> b == first[k];
      }
    }
    assert NotLess(bs, s[i]) == set b | b in first;
    SetSize(first);
  }

  lemma SortedLength(bs: seq<Backup>)
    requires UniqueKeys(bs)
    ensures |Sorted(bs)| == |bs|
  {
    hide Sorted;
    SortedSorts(bs);
    SetSize(bs);
    SetSize(Sorted(bs));
    assert (set b | b in bs) == (set b | b in Sorted(bs));
  }

  /** `retain n` keeps exactly n backups not less than the target, and finds none exactly when there are too few. */
  lemma RetainKeepsCount(bs: seq<Backup>, n: int, r: Option<Backup>)
    requires UniqueKeys(bs) && IsFirstChosen(Sorted(bs), n, NoModifier, r)
    ensures r.Some? <==> 1 <= n <= |bs|
    ensures r.Some? ==> r.value in bs && |NotLess(bs, r.value)| == n
  {
    hide Sorted;
    SortedLength(bs);
    SortedSorts(bs);
    if 1 <= n <= |bs| {
      assert Chosen(Sorted(bs), n, NoModifier, n - 1);
    }
    if r.Some? {
      var i :| 0 <= i < |Sorted(bs)| && r.value == Sorted(bs)[i] && ChosenFirst(Sorted(bs), n, NoModifier, i);
      PlaceCounts(bs, i);
    }
  }

  lemma {:induction false} FullsReach(s: seq<Backup>, n: nat, k: nat)
    requires NewestFirst(s) && k <= |s| && 1 <= n <= |Fulls(s[..k])|
    ensures exists i :: 0 <= i < k && Chosen(s, n, FullOnly, i)
  {
    FullsGrow(s, k - 1);
    if n <= |Fulls(s[..k - 1])| {
      FullsReach(s, n, k - 1);
    } else {
      assert Chosen(s, n, FullOnly, k - 1);
    }
  }

  lemma {:induction false} FullsBound(s: seq<Backup>, i: nat)
    requires i <= |s|
    ensures |Fulls(s[..i])| <= |Fulls(s)|
  {
    assert Fulls(s[..i]) <= Fulls(s);
    SubsetSize(Fulls(s[..i]), Fulls(s));
  }

  /**
   * `retain FULL n` targets a full backup with exactly n full backups not less than it, and finds none exactly when
   * there are fewer.
   */
  lemma RetainKeepsFulls(bs: seq<Backup>, n: nat, r: Option<Backup>)
    requires UniqueKeys(bs) && n >= 1 && IsFirstChosen(Sorted(bs), n, FullOnly, r)
    ensures r.Some? <==> n <= |Fulls(bs)|
    ensures r.Some? ==> r.value in bs && r.value.IsFull() && |FullNotLess(bs, r.value)| == n
  {
    hide Sorted, FullNotLess;
    var s := Sorted(bs);
    SortedSorts(bs);
    assert Fulls(s) == Fulls(bs) && s[..|s|] == s;
    if n <= |Fulls(bs)| {
      FullsReach(s, n, |s|);
    }
    if r.Some? {
      var i :| 0 <= i < |s| && r.value == s[i] && ChosenFirst(s, n, FullOnly, i);
      PlaceCounts(bs, i);
      FullsBound(s, i + 1);
      FullsGrow(s, i);
      assert i > 0 ==> !Chosen(s, n, FullOnly, i - 1);
    }
  }

  /**
   * `retain FIND_FULL n` targets the newest full backup that has at least n backups not less than it, and finds none
   * exactly when no full backup has as many.
   */
  lemma RetainFindsFull(bs: seq<Backup>, n: int, r: Option<Backup>)
    requires UniqueKeys(bs) && IsFirstChosen(Sorted(bs), n, FindFull, r)
    ensures r.Some? <==> exists f :: f in bs && f.IsFull() && |NotLess(bs, f)| >= n
    ensures r.Some? ==> r.value in bs && r.value.IsFull() && |NotLess(bs, r.value)| >= n
    ensures r.Some? ==> forall f :: f in bs && f.IsFull() && Newer(f, r.value) ==> |NotLess(bs, f)| < n
  {
    hide Sorted, NotLess;
    var s := Sorted(bs);
    SortedSorts(bs);
    forall f | f in bs && f.IsFull() && |NotLess(bs, f)| >= n
      ensures r.Some? && !Newer(f, r.value)
    {
      var k :| 0 <= k < |s| && s[k] == f;
      PlaceCounts(bs, k);
      assert Chosen(s, n, FindFull, k);
    }
    if r.Some? {
      var i :| 0 <= i < |s| && r.value == s[i] && ChosenFirst(s, n, FindFull, i);
      PlaceCounts(bs, i);
    }
  }

  /**
   * HandleDeleteRetain: nothing is done exactly when no target is found or it is an increment; otherwise exactly what is
   * less than the target and not permanent is gone, and at least the retained number survives.
   */
  method DeleteRetain(bs: seq<Backup>, n: int, modifier: Modifier) returns (target: Option<Backup>, r: Option<seq<Backup>>)
    requires UniqueKeys(bs)
    ensures IsFirstChosen(Sorted(bs), n, modifier, target)
    ensures r.None? <==> target.None? || !target.value.IsFull()
    ensures r.Some? ==> forall b :: b in r.value <==> b in bs && (b.key >= target.value.key || b.permanent)
    ensures r.Some? && modifier == FullOnly && n >= 1 ==> |Fulls(r.value)| >= n
    ensures r.Some? && modifier != FullOnly ==> |r.value| >= n
  {
    target := FindTargetRetain(bs, n, modifier);
    r := None;
    if target.Some? {
      r := DeleteBeforeTarget(bs, target.value);
      if r.Some? {
        KeptBeforeMembers(bs, target.value);
        RetainedAtLeast(bs, n, modifier, target.value, r.value);
      }
    }
  }

  lemma RetainedAtLeast(bs: seq<Backup>, n: int, modifier: Modifier, target: Backup, kept: seq<Backup>)
    requires UniqueKeys(bs) && IsFirstChosen(Sorted(bs), n, modifier, Some(target))
    requires forall b :: b in kept <==> b in bs && (b.key >= target.key || b.permanent)
    ensures modifier == FullOnly && n >= 1 ==> |Fulls(kept)| >= n
    ensures modifier != FullOnly ==> |kept| >= n
  {
    hide Sorted;
    match modifier
    case FullOnly =>
      if n >= 1 {
        RetainKeepsFulls(bs, n, Some(target));
        SubsetSize(FullNotLess(bs, target), Fulls(kept));
      }
    case NoModifier =>
      RetainKeepsCount(bs, n, Some(target));
      SetBound(kept);
      SubsetSize(NotLess(bs, target), set b | b in kept);
    case FindFull =>
      RetainFindsFull(bs, n, Some(target));
      SetBound(kept);
      SubsetSize(NotLess(bs, target), set b | b in kept);
  }
}
