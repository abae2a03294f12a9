/** Marking backups permanent and impermanent: BackupMarkHandler and the marking done by a push. */
module BackupMarks {
  import opened Bytes
  import opened BackupForest

  datatype MarkError = NotFound | PermanentInFuture | FromFuture

  /** SetIsPermanent: one write to the storage. */
  function SetFlag(store: Store, n: Name, permanent: bool): Store
    requires n in store
  {
    store[n := store[n].(permanent := permanent)]
  }

  // ---- one flag write -------------------------------------------------------

  /** Setting a flag keeps permanence closed exactly when the parent is permanent already. */
  lemma SetKeepsClosed(store: Store, n: Name)
    requires Valid(store) && n in store
    ensures Linked(SetFlag(store, n, true))
    ensures Closed(SetFlag(store, n, true)) <==> store[n].parent.None? || store[store[n].parent.value].permanent
  {
    var after := SetFlag(store, n, true);
    if store[n].parent.Some? {
      assert store[n].parent.value != n;
      assert after[n].permanent && after[n].parent.Some?;
    }
  }

  /** Clearing a flag keeps permanence closed exactly when no direct increment is permanent. */
  lemma ClearKeepsClosed(store: Store, n: Name)
    requires Valid(store) && n in store
    ensures Linked(SetFlag(store, n, false))
    ensures Closed(SetFlag(store, n, false)) <==> !PermanentChild(store, n)
  {
    var after := SetFlag(store, n, false);
    if PermanentChild(store, n) {
      var c :| IsParent(store, n, c) && c != n && store[c].permanent;
      assert after[c].permanent && after[c].parent == Some(n);
    } else {
      assert forall c :: IsParent(store, n, c) && c != n ==> !store[c].permanent;
      forall c | c in after && after[c].permanent && after[c].parent.Some?
        ensures after[after[c].parent.value].permanent
      {
        assert store[c].permanent;
        assert IsParent(store, after[c].parent.value, c);
      }
    }
  }

  // ---- permanent increments -------------------------------------------------

  /** backupHasPermanentInFuture: some direct increment of `n` is permanent. */
  ghost predicate PermanentChild(store: Store, n: Name) {
    exists c :: IsParent(store, n, c) && c != n && store[c].permanent
  }

  ghost predicate PermanentDescendant(store: Store, n: Name)
    requires Linked(store)
  {
    exists d :: d in store && store[d].permanent && IsAncestor(store, n, d)
  }

  /** Looking at direct increments is enough: any permanent descendant shows in one of them. */
  lemma DirectChildrenSuffice(store: Store, n: Name)
    requires Valid(store)
    ensures PermanentChild(store, n) <==> PermanentDescendant(store, n)
  {
    if PermanentChild(store, n) {
      var c :| IsParent(store, n, c) && c != n && store[c].permanent;
      assert IsAncestor(store, n, c);
    }
    if PermanentDescendant(store, n) {
      var d :| d in store && store[d].permanent && IsAncestor(store, n, d);
      DescendantShows(store, n, d);
    }
  }

  lemma {:induction false} DescendantShows(store: Store, n: Name, d: Name)
    requires Valid(store) && d in store && store[d].permanent && IsAncestor(store, n, d)
    ensures PermanentChild(store, n)
    decreases store[d].start
  {
    var p := store[d].parent.value;
    if p == n {
      assert IsParent(store, n, d);
      assert d != n;
    } else {
      DescendantShows(store, n, p);
    }
  }

  // ---- what is marked -------------------------------------------------------

  /** getBackupsToMarkPermanent: the impermanent members of the chain of `n`, the oldest first. */
  function ToMark(store: Store, n: Name): seq<Name>
    requires Linked(store) && n in store
    decreases store[n].start
  {
    var before := if store[n].parent.Some? then ToMark(store, store[n].parent.value) else [];
    before + (if store[n].permanent then [] else [n])
  }

  lemma {:induction false} ToMarkMembers(store: Store, n: Name)
    requires Linked(store) && n in store
    ensures forall m :: m in ToMark(store, n) <==>
                        m in store && !store[m].permanent && (m == n || IsAncestor(store, m, n))
    decreases store[n].start
  {
    if store[n].parent.Some? {
      ToMarkMembers(store, store[n].parent.value);
      AncestorsInStore(store, n);
    }
  }

  /** The states of the store after each write of setting the flags of `names` in order. */
  function FlagWrites(store: Store, names: seq<Name>): (states: seq<Store>)
    requires forall i :: 0 <= i < |names| ==> names[i] in store
    ensures |states| == |names|
    decreases |names|
  {
    if names == [] then []
    else
      var next := SetFlag(store, names[0], true);
      [next] + FlagWrites(next, names[1..])
  }

  /** The state after the last write. */
  function Last(store: Store, states: seq<Store>): Store {
    if states == [] then store else states[|states| - 1]
  }

  predicate AllValid(states: seq<Store>) {
    forall i :: 0 <= i < |states| ==> Valid(states[i])
  }

  /** The store with every backup of the chain of `n` permanent and nothing else changed. */
  function ChainMarked(store: Store, n: Name): Store
    requires Linked(store) && n in store
  {
    map m | m in store :: if m == n || IsAncestor(store, m, n) then store[m].(permanent := true) else store[m]
  }

  // ---- crash safety of marking ----------------------------------------------

  /** `names` is an unbroken piece of a chain whose first member has a permanent parent or none. */
  predicate Ladder(store: Store, names: seq<Name>) {
    && (forall i :: 0 <= i < |names| ==> names[i] in store)
    && (names != [] && store[names[0]].parent.Some? ==>
          store[names[0]].parent.value in store && store[store[names[0]].parent.value].permanent)
    && (forall i :: 0 < i < |names| ==> IsParent(store, names[i - 1], names[i]))
  }

  function AllMarked(store: Store, names: seq<Name>): Store {
    map m | m in store :: if m in names then store[m].(permanent := true) else store[m]
  }

  /** After every single write permanence is still closed, so a crash between two writes does no harm. */
  lemma {:induction false} LadderWrites(store: Store, names: seq<Name>)
    requires Valid(store) && Ladder(store, names)
    ensures AllValid(FlagWrites(store, names))
    ensures Last(store, FlagWrites(store, names)) == AllMarked(store, names)
    decreases |names|
  {
    hide Closed, Linked, AllMarked, Last, AllValid, IsParent;
    if names == [] {
      NoneMarked(store);
    } else {
      var next := SetFlag(store, names[0], true);
      SetKeepsClosed(store, names[0]);
      LadderStep(store, names);
      LadderWrites(next, names[1..]);
      Prepended(store, next, FlagWrites(next, names[1..]));
    }
  }

  lemma Prepended(store: Store, next: Store, states: seq<Store>)
    requires Valid(next) && AllValid(states)
    ensures AllValid([next] + states) && Last(store, [next] + states) == Last(next, states)
  {
    hide Valid;
    var all := [next] + states;
    if states != [] {
      assert all[|all| - 1] == states[|states| - 1];
    }
  }

  lemma NoneMarked(store: Store)
    ensures AllMarked(store, []) == store && Last(store, []) == store && AllValid([])
  {
  }

  lemma LadderStep(store: Store, names: seq<Name>)
    requires names != [] && Ladder(store, names)
    ensures Ladder(SetFlag(store, names[0], true), names[1..])
    ensures AllMarked(SetFlag(store, names[0], true), names[1..]) == AllMarked(store, names)
  {
    var next, rest := SetFlag(store, names[0], true), names[1..];
    assert names == [names[0]] + rest;
    if rest != [] {
      assert IsParent(store, names[0], names[1]) && rest[0] == names[1];
    }
    forall i | 0 < i < |rest|
      ensures IsParent(next, rest[i - 1], rest[i])
    {
      assert IsParent(store, names[i], names[i + 1]);
    }
  }

  /** In a closed forest the permanent members of a chain come first, so the rest is marked without a gap. */
  lemma {:induction false} ToMarkIsLadder(store: Store, n: Name)
    requires Valid(store) && n in store
    ensures Ladder(store, ToMark(store, n))
    ensures store[n].permanent ==> ToMark(store, n) == []
    ensures !store[n].permanent ==> ToMark(store, n) != [] && ToMark(store, n)[|ToMark(store, n)| - 1] == n
    decreases store[n].start
  {
    if store[n].parent.Some? {
      ToMarkIsLadder(store, store[n].parent.value);
    }
  }

  lemma ToMarkIsChain(store: Store, n: Name)
    requires Valid(store) && n in store
    ensures AllMarked(store, ToMark(store, n)) == ChainMarked(store, n)
  {
    hide ToMark, IsAncestor;
    ToMarkMembers(store, n);
    forall m | m in store
      ensures AllMarked(store, ToMark(store, n))[m] == ChainMarked(store, n)[m]
    {
    }
  }

  lemma LastValid(store: Store, states: seq<Store>)
    requires Valid(store) && AllValid(states)
    ensures Valid(Last(store, states))
  {
  }

  /** Marking `n` permanent: every intermediate state is valid, and in the end exactly the chain of `n` is marked. */
  lemma MarkingKeepsClosed(store: Store, n: Name)
    requires Valid(store) && n in store
    ensures Ladder(store, ToMark(store, n)) && AllValid(FlagWrites(store, ToMark(store, n)))
    ensures Last(store, FlagWrites(store, ToMark(store, n))) == ChainMarked(store, n)
    ensures Valid(ChainMarked(store, n))
  {
    hide ToMark, Closed, FlagWrites, AllMarked, ChainMarked, Last, AllValid;
    ToMarkIsLadder(store, n);
    LadderWrites(store, ToMark(store, n));
    ToMarkIsChain(store, n);
    LastValid(store, FlagWrites(store, ToMark(store, n)));
  }

  // ---- operations and runs --------------------------------------------------

  datatype Op =
    | MarkPermanent(name: Name)
    | MarkImpermanent(name: Name)
    | Push(name: Name, parent: Option<Name>, start: nat, finish: nat, permanent: bool)

  /** Why an operation writes nothing. */
  ghost function Refusal(store: Store, op: Op): Option<MarkError> {
    match op
    case MarkPermanent(n) => if n in store then None else Some(NotFound)
    case MarkImpermanent(n) =>
      if n !in store then Some(NotFound) else if PermanentChild(store, n) then Some(PermanentInFuture) else None
    case Push(_, parent, start, _, _) =>
      if parent.None? then None
      else if parent.value !in store then Some(NotFound)
      else if store[parent.value].finish > start then Some(FromFuture)
      else None
  }

  /** A push is refused exactly when its parent is missing or was finished after the push started. */
  lemma PushRefusedExactly(store: Store, op: Op)
    requires op.Push?
    ensures Refusal(store, op) == Some(NotFound) <==> op.parent.Some? && op.parent.value !in store
    ensures Refusal(store, op) == Some(FromFuture) <==>
      op.parent.Some? && op.parent.value in store && op.start < store[op.parent.value].finish
    ensures Refusal(store, op).None? <==>
      op.parent.Some? ==> op.parent.value in store && store[op.parent.value].finish <= op.start
  {
  }

  /** The states of the store after each write of an operation; a push writes its own metadata last. */
  ghost function Writes(store: Store, op: Op): seq<Store>
    requires Valid(store)
  {
    if Refusal(store, op).Some? then []
    else
      match op
      case MarkPermanent(n) => MarkWrites(store, n)
      case MarkImpermanent(n) => if store[n].permanent then [SetFlag(store, n, false)] else []
      case Push(n, parent, start, finish, permanent) =>
        var marks := if permanent && parent.Some? then MarkWrites(store, parent.value) else [];
        marks + [Last(store, marks)[n := Meta(parent, start, finish, permanent)]]
  }

  function MarkWrites(store: Store, n: Name): seq<Store>
    requires Linked(store) && n in store
  {
    ToMarkMembers(store, n);
    FlagWrites(store, ToMark(store, n))
  }

  /**
   * A pushed backup fits when its name is new, or when it replaces a backup whose increments all started later and are
   * permanent only if it is.
   */
  ghost predicate Fits(store: Store, op: Op) {
    op.Push? ==>
      && op.parent != Some(op.name)
      && forall c :: IsParent(store, op.name, c) ==> op.finish <= store[c].start && (store[c].permanent ==> op.permanent)
  }

  lemma NewNameFits(store: Store, op: Op)
    requires Valid(store) && op.Push? && op.name !in store && Refusal(store, op).None?
    ensures Fits(store, op)
  {
    assert forall c :: !IsParent(store, op.name, c);
  }

  /** Every write of a mark keeps the store valid; every write of a push does exactly when the backup fits. */
  lemma StepKeepsValid(store: Store, op: Op)
    requires Valid(store) && Refusal(store, op).None? && (op.Push? ==> op.start < op.finish)
    ensures AllValid(Writes(store, op)) <==> Fits(store, op)
  {
    match op
    case MarkPermanent(n) => MarkingKeepsClosed(store, n);
    case MarkImpermanent(n) => ClearKeepsClosed(store, n);
    case Push(n, parent, _, _, permanent) =>
      if permanent && parent.Some? {
        MarkingKeepsClosed(store, parent.value);
        PushOnto(store, ChainMarked(store, parent.value), op);
        Appended(MarkWrites(store, parent.value), Pushed(ChainMarked(store, parent.value), op));
      } else {
        PushOnto(store, store, op);
        Appended([], Pushed(store, op));
      }
  }

  /** The backups that an operation makes permanent: a chain that is marked, or the chain below a permanent push. */
  ghost predicate Marks(store: Store, op: Op, m: Name)
    requires Linked(store)
  {
    match op
    case MarkPermanent(n) => m in store && n in store && (m == n || IsAncestor(store, m, n))
    case MarkImpermanent(_) => false
    case Push(_, parent, _, _, permanent) =>
      permanent && parent.Some? && parent.value in store && m in store
      && (m == parent.value || IsAncestor(store, m, parent.value))
  }

  /** What an operation leaves: its own backup as asked for, the chain marked, and everything else as it was. */
  lemma OperationLeaves(store: Store, op: Op)
    requires Valid(store) && Refusal(store, op).None?
    ensures var after := Last(store, Writes(store, op));
      && after.Keys == store.Keys + (if op.Push? then {op.name} else {})
      && (op.Push? ==> after[op.name] == Meta(op.parent, op.start, op.finish, op.permanent))
      && (op.MarkImpermanent? ==> after[op.name] == store[op.name].(permanent := false))
      && forall m :: m in store && (op.MarkPermanent? || m != op.name) ==>
           after[m] == if Marks(store, op, m) then store[m].(permanent := true) else store[m]
  {
    hide IsAncestor, Closed, FlagWrites, ToMark;
    match op
    case MarkPermanent(n) => MarkingKeepsClosed(store, n);
    case MarkImpermanent(n) =>
    case Push(_, parent, _, _, permanent) =>
      if permanent && parent.Some? {
        MarkingKeepsClosed(store, parent.value);
      }
  }

  /** A backup pushed again under the name of the base of a permanent increment breaks the store. */
  lemma ReplacedBaseBreaks()
    ensures var store := map["base" := Meta(None, 1, 2, true), "delta" := Meta(Some("base"), 3, 4, true)];
      var op := Push("base", None, 2, 3, false);
      Valid(store) && Refusal(store, op).None? && !AllValid(Writes(store, op))
  {
    var store := map["base" := Meta(None, 1, 2, true), "delta" := Meta(Some("base"), 3, 4, true)];
    var op := Push("base", None, 2, 3, false);
    assert "base" != "delta" by {
      assert |"base"| != |"delta"|;
    }
    assert IsParent(store, "base", "delta") && store["delta"].permanent;
    StepKeepsValid(store, op);
  }

  function Pushed(store: Store, op: Op): Store
    requires op.Push?
  {
    store[op.name := Meta(op.parent, op.start, op.finish, op.permanent)]
  }

  lemma Appended(states: seq<Store>, last: Store)
    requires AllValid(states)
    ensures AllValid(states + [last]) <==> Valid(last)
  {
    var all := states + [last];
    assert all[|states|] == last;
  }

  /** The state a push writes to: the store, with the chain of the parent marked when the backup is permanent. */
  ghost predicate ReadyFor(store: Store, ready: Store, op: Op)
    requires Linked(store)
  {
    && op.Push? && Refusal(store, op).None? && Valid(ready)
    && ready == if op.permanent && op.parent.Some? then ChainMarked(store, op.parent.value) else store
  }

  lemma PushOnto(store: Store, ready: Store, op: Op)
    requires Valid(store) && ReadyFor(store, ready, op) && op.start < op.finish
    ensures Valid(Pushed(ready, op)) <==> Fits(store, op)
  {
    hide IsAncestor;
    var after := Pushed(ready, op);
    if Fits(store, op) {
      FittingKeepsLinks(store, ready, op);
    }
    if Valid(after) {
      ValidMeansFitting(store, ready, op);
    }
  }

  lemma FittingKeepsLinks(store: Store, ready: Store, op: Op)
    requires Valid(store) && ReadyFor(store, ready, op) && op.start < op.finish && Fits(store, op)
    ensures Valid(Pushed(ready, op))
  {
    hide IsAncestor;
    var after := Pushed(ready, op);
    forall c | c in after && after[c].parent.Some?
      ensures after[c].parent.value in after && after[after[c].parent.value].finish <= after[c].start
      ensures after[c].permanent ==> after[after[c].parent.value].permanent
    {
      if c != op.name {
        assert IsParent(store, after[c].parent.value, c);
      }
    }
  }

  lemma ValidMeansFitting(store: Store, ready: Store, op: Op)
    requires Valid(store) && ReadyFor(store, ready, op) && op.start < op.finish && Valid(Pushed(ready, op))
    ensures Fits(store, op)
  {
    hide IsAncestor;
    var after := Pushed(ready, op);
    assert after[op.name].parent == op.parent;
    forall c | IsParent(store, op.name, c)
      ensures op.finish <= store[c].start && (store[c].permanent ==> op.permanent)
    {
      assert c != op.name;
      assert after[c].parent == Some(op.name) && after[c].start == store[c].start;
    }
  }

  /** Every state a run writes, crash points included. */
  ghost function RunStates(store: Store, ops: seq<Op>): seq<Store>
    requires Valid(store)
    decreases |ops|
  {
    if ops == [] then []
    else
      var writes := Writes(store, ops[0]);
      writes + if Valid(Last(store, writes)) then RunStates(Last(store, writes), ops[1..]) else []
  }

  /** Every operation of the run is refused or fits when its turn comes. */
  ghost predicate AllFit(store: Store, ops: seq<Op>)
    requires Valid(store)
    decreases |ops|
  {
    ops != [] ==>
      && (Refusal(store, ops[0]).Some? || Fits(store, ops[0]))
      && (Valid(Last(store, Writes(store, ops[0]))) ==> AllFit(Last(store, Writes(store, ops[0])), ops[1..]))
  }

  /** Over every run, and after each single write in it, the store is a forest with permanence closed under ancestors. */
  lemma {:induction false} RunsKeepValid(store: Store, ops: seq<Op>)
    requires Valid(store) && AllFit(store, ops)
    requires forall i :: 0 <= i < |ops| ==> ops[i].Push? ==> ops[i].start < ops[i].finish
    ensures AllValid(RunStates(store, ops))
    decreases |ops|
  {
    hide Valid, Writes, Fits, Refusal;
    if ops != [] {
      var writes := Writes(store, ops[0]);
      if Refusal(store, ops[0]).None? {
        StepKeepsValid(store, ops[0]);
      } else {
        RefusedWritesNothing(store, ops[0]);
      }
      LastValid(store, writes);
      RunsKeepValid(Last(store, writes), ops[1..]);
    }
  }

  lemma RefusedWritesNothing(store: Store, op: Op)
    requires Valid(store) && Refusal(store, op).Some?
    ensures Writes(store, op) == []
  {
  }

  /** Unmarking is refused exactly when some increment, however far down the chain, is permanent. */
  lemma UnmarkingRefused(store: Store, n: Name)
    requires Valid(store) && n in store
    ensures Refusal(store, MarkImpermanent(n)).Some? <==> PermanentDescendant(store, n)
  {
    DirectChildrenSuffice(store, n);
  }

  // ---- the handler ----------------------------------------------------------

  /** The folder of backups, with a record of every state a write has left behind. */
  class BackupFolder {
    var backups: Store
    ghost var states: seq<Store>

    method SetIsPermanent(n: Name, permanent: bool)
      requires n in backups
      modifies this
      ensures backups == SetFlag(old(backups), n, permanent)
      ensures states == old(states) + [backups]
    {
      backups := SetFlag(backups, n, permanent);
      states := states + [backups];
    }

    /** The recursion of getBackupsToMarkPermanent, which appends each level after the older ones. */
    method GetBackupsToMarkPermanent(n: Name) returns (r: Option<seq<Name>>)
      requires Linked(backups)
      ensures r == if n in backups then Some(ToMark(backups, n)) else None
      decreases if n in backups then backups[n].start else 0
    {
      if n !in backups {
        return None;
      }
      var backupsToMark := if backups[n].permanent then [] else [n];
      if backups[n].parent.None? {
        assert [] + backupsToMark == backupsToMark;
        return Some(backupsToMark);
      }
      var previous := GetBackupsToMarkPermanent(backups[n].parent.value);
      return Some(previous.value + backupsToMark);
    }

    /** getGraphFromBaseToIncrement: the backups are listed in any order. */
    method GetGraphFromBaseToIncrement() returns (links: map<Name, seq<Name>>)
      ensures forall p, c :: p in links && c in links[p] <==> IsParent(backups, p, c)
    {
      links := map[];
      var rest := backups.Keys;
      while rest != {}
        invariant rest <= backups.Keys
        invariant forall p, c :: p in links && c in links[p] <==> IsParent(backups, p, c) && c !in rest
        decreases |rest|
      {
        var b :| b in rest;
        rest := rest - {b};
        if backups[b].parent.Some? {
          var from := backups[b].parent.value;
          links := links[from := (if from in links then links[from] else []) + [b]];
        }
      }
    }

    /** GetPermanentBackups. */
    method GetPermanentBackups() returns (permanent: set<Name>)
      ensures forall n :: n in permanent <==> n in backups && backups[n].permanent
    {
      permanent := {};
      var rest := backups.Keys;
      while rest != {}
        invariant rest <= backups.Keys
        invariant forall n :: n in permanent <==> n in backups && backups[n].permanent && n !in rest
        decreases |rest|
      {
        var b :| b in rest;
        rest := rest - {b};
        if backups[b].permanent {
          permanent := permanent + {b};
        }
      }
    }

    /** backupHasPermanentInFuture over the graph and the permanent backups other than `n`. */
    method HasPermanentInFuture(n: Name) returns (found: bool)
      ensures found <==> PermanentChild(backups, n)
    {
      var links := GetGraphFromBaseToIncrement();
      var permanent := GetPermanentBackups();
      permanent := permanent - {n};
      if n !in links {
        assert forall c :: !IsParent(backups, n, c);
        return false;
      }
      for i := 0 to |links[n]|
        invariant forall k :: 0 <= k < i ==> links[n][k] !in permanent
      {
        if links[n][i] in permanent {
          assert links[n][i] in links[n];
          return true;
        }
      }
      return false;
    }

    /** MarkBackup to permanent: the store passes through exactly the states of `Writes`. */
    method MarkPermanent(n: Name) returns (r: Option<MarkError>)
      requires Valid(backups)
      modifies this
      ensures Valid(backups) && r == Refusal(old(backups), Op.MarkPermanent(n))
      ensures states == old(states) + Writes(old(backups), Op.MarkPermanent(n))
      ensures backups == if n in old(backups) then ChainMarked(old(backups), n) else old(backups)
    {
      var names := GetBackupsToMarkPermanent(n);
      if names.None? {
        return Some(NotFound);
      }
      MarkingKeepsClosed(backups, n);
      SetAll(names.value);
      return None;
    }

    /** The marking loop. */
    method SetAll(names: seq<Name>)
      requires forall i :: 0 <= i < |names| ==> names[i] in backups
      modifies this
      ensures states == old(states) + FlagWrites(old(backups), names)
      ensures backups == Last(old(backups), FlagWrites(old(backups), names))
    {
      ghost var all := FlagWrites(backups, names);
      ghost var before := backups;
      for i := 0 to |names|
        invariant backups.Keys == before.Keys
        invariant states + FlagWrites(backups, names[i..]) == old(states) + all
        invariant Last(backups, FlagWrites(backups, names[i..])) == Last(before, all)
      {
        assert names[i..][1..] == names[i + 1..];
        SetIsPermanent(names[i], true);
      }
    }

    /** MarkBackup to impermanent. */
    method MarkImpermanent(n: Name) returns (r: Option<MarkError>)
      requires Valid(backups)
      modifies this
      ensures Valid(backups) && r == Refusal(old(backups), Op.MarkImpermanent(n))
      ensures states == old(states) + Writes(old(backups), Op.MarkImpermanent(n))
      ensures backups == if r.None? then SetFlag(old(backups), n, false) else old(backups)
    {
      if n !in backups {
        return Some(NotFound);
      }
      var found := HasPermanentInFuture(n);
      if found {
        return Some(PermanentInFuture);
      }
      ClearKeepsClosed(backups, n);
      if backups[n].permanent {
        SetIsPermanent(n, false);
      } else {
        assert SetFlag(backups, n, false) == backups;
      }
      return None;
    }

    /** The checks, the marking and the upload of metadata of a backup push. */
    method Push(n: Name, parent: Option<Name>, start: nat, finish: nat, permanent: bool) returns (r: Option<MarkError>)
      requires Valid(backups)
      modifies this
      ensures r == Refusal(old(backups), Op.Push(n, parent, start, finish, permanent))
      ensures states == old(states) + Writes(old(backups), Op.Push(n, parent, start, finish, permanent))
      ensures backups == Last(old(backups), Writes(old(backups), Op.Push(n, parent, start, finish, permanent)))
    {
      if parent.Some? {
        if parent.value !in backups {
          return Some(NotFound);
        }
        if backups[parent.value].finish > start {
          return Some(FromFuture);
        }
        if permanent {
          MarkingKeepsClosed(backups, parent.value);
          var marked := MarkPermanent(parent.value);
        }
      }
      backups := backups[n := Meta(parent, start, finish, permanent)];
      states := states + [backups];
      return None;
    }
  }
}
