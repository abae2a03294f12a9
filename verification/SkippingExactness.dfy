/**
 * When leaving out files that are counted complete changes what is restored: the exact condition for every file, and
 * what the counters really count.
 */
module SkippingExactness {
  import opened Bytes
  import opened PageFiles
  import opened IncrementFormat
  import opened Restore
  import opened RestoreEquivalence
  import opened FetchFiles
  import opened FetchPerFile
  import opened FetchSkipping
  import opened FetchEquivalence

  // ---- pages offered for one block ------------------------------------------

  /** The pages of an increment for block `i`, among its first `n`, in order. */
  function PagesFor(inc: Increment, i: nat, n: nat): (ps: seq<Bytes>)
    requires n <= |inc.blocks| && n <= PageCount(inc.body)
    ensures forall k :: 0 <= k < |ps| ==> |ps[k]| == PAGE
  {
    if n == 0 then [] else PagesFor(inc, i, n - 1) + (if inc.blocks[n - 1] == i then [PageAt(inc.body, n - 1)] else [])
  }

  /** What a stored version offers for block `i` of a file of `size` bytes that is on disk already. */
  function Offers(f: Path, size: nat, incremented: bool, content: Bytes, i: nat): (ps: seq<Bytes>)
    ensures forall k :: 0 <= k < |ps| ==> |ps[k]| == PAGE
  {
    if incremented then
      match ParseIncrement(content)
      case Err(_) => []
      case Ok(inc) => if BodyMatches(inc) then PagesFor(inc, i, |inc.blocks|) else []
    else if f.paged && size != 0 && size % PAGE == 0 && i < PageCount(content) then [PageAt(content, i)]
    else []
  }

  /** What the backups of a chain offer one after the other, as far as the file is wanted. */
  function AllOffers(f: Path, size: nat, chain: seq<Backup>, i: nat): (ps: seq<Bytes>)
    ensures forall k :: 0 <= k < |ps| ==> |ps[k]| == PAGE
    decreases |chain|
  {
    if chain == [] then []
    else
      var b := chain[0];
      (if f in b.content then Offers(f, size, Incremented(b, f), b.content[f], i) else [])
      + (if NeedsBase(b, f) then AllOffers(f, size, chain[1..], i) else [])
  }

  // ---- blocks settle --------------------------------------------------------

  lemma {:induction false} SettleAppend(page: Bytes, a: seq<Bytes>, b: seq<Bytes>)
    requires |page| == PAGE && forall k :: 0 <= k < |a| ==> |a[k]| == PAGE
    requires forall k :: 0 <= k < |b| ==> |b[k]| == PAGE
    ensures Settle(page, a + b) == Settle(Settle(page, a), b)
    decreases |a|
  {
    hide ZeroHeader;
    if a == [] {
      assert a + b == b;
    } else if ZeroHeader(page) {
      assert (a + b)[0] == a[0] && (a + b)[1..] == a[1..] + b;
      SettleAppend(a[0], a[1..], b);
    } else {
      SettledStays(page, b);
    }
  }

  lemma SettledStays(page: Bytes, b: seq<Bytes>)
    requires |page| == PAGE && !ZeroHeader(page) && forall k :: 0 <= k < |b| ==> |b[k]| == PAGE
    ensures Settle(page, b) == page
  {
  }

  /** A page stays as it is: it has a header, nothing is offered, or only zero headers are and the last offer is the page. */
  predicate Stays(page: Bytes, offers: seq<Bytes>)
    requires |page| == PAGE && forall k :: 0 <= k < |offers| ==> |offers[k]| == PAGE
  {
    !ZeroHeader(page) || offers == [] || (AllZeroHeader(offers) && offers[|offers| - 1] == page)
  }

  lemma StaysIsSettled(page: Bytes, offers: seq<Bytes>)
    requires |page| == PAGE && forall k :: 0 <= k < |offers| ==> |offers[k]| == PAGE
    ensures Settle(page, offers) == page <==> Stays(page, offers)
  {
    SettleZero(page, offers);
    if !ZeroHeader(page) {
      SettledStays(page, offers);
    }
  }

  // ---- writing inside a file ------------------------------------------------

  /** The bytes after the last whole page. */
  function Rest(d: Bytes): Bytes {
    d[PageCount(d) * PAGE..]
  }

  lemma WriteInside(d: Bytes, k: nat, p: Bytes)
    requires |p| == PAGE && k < PageCount(d)
    ensures var r := Write(d, k * PAGE, p);
      && |r| == |d| && Rest(r) == Rest(d) && PageAt(r, k) == p
      && forall i :: 0 <= i < PageCount(d) && i != k ==> PageAt(r, i) == PageAt(d, i)
  {
    var r := Write(d, k * PAGE, p);
    assert r == d[..k * PAGE] + p + d[(k + 1) * PAGE..];
    forall i | 0 <= i < PageCount(d) && i != k
      ensures PageAt(r, i) == PageAt(d, i)
    {
      if i < k {
        assert (i + 1) * PAGE <= k * PAGE;
      } else {
        assert (k + 1) * PAGE <= i * PAGE;
      }
    }
  }

  lemma SameContent(d: Bytes, e: Bytes)
    requires |d| == |e| && Rest(d) == Rest(e) && forall i :: 0 <= i < PageCount(d) ==> PageAt(d, i) == PageAt(e, i)
    ensures d == e
  {
    var whole := PageCount(d) * PAGE;
    assert d == d[..whole] + Rest(d) && e == e[..whole] + Rest(e);
    forall i | 0 <= i < PageCount(d)
      ensures PageAt(d[..whole], i) == PageAt(e[..whole], i)
    {
      assert PageAt(d[..whole], i) == PageAt(d, i) && PageAt(e[..whole], i) == PageAt(e, i);
    }
    SamePages(d[..whole], e[..whole]);
  }

  lemma {:induction false} FilledSettles(d: Bytes, inc: Increment, n: nat, i: nat)
    requires n <= |inc.blocks| && n <= PageCount(inc.body) && i < PageCount(d)
    ensures Rest(Filled(d, inc, n, false)) == Rest(d)
    ensures PageAt(Filled(d, inc, n, false), i) == Settle(PageAt(d, i), PagesFor(inc, i, n))
  {
    hide PageAt, Write, ZeroHeader, Rest, Settle;
    if n == 0 {
      NothingOffered(PageAt(d, i));
    } else {
      var e, b, page := Filled(d, inc, n - 1, false), inc.blocks[n - 1], PageAt(inc.body, n - 1);
      FilledSettles(d, inc, n - 1, i);
      if Accepts(e, b, false) {
        WriteInside(e, b, page);
      }
      OneMore(PageAt(d, i), PagesFor(inc, i, n - 1), page);
      assert PagesFor(inc, i, n - 1) + [] == PagesFor(inc, i, n - 1);
    }
  }

  lemma NothingOffered(page: Bytes)
    requires |page| == PAGE
    ensures Settle(page, []) == page
  {
  }

  lemma OneMore(page: Bytes, a: seq<Bytes>, b: Bytes)
    requires |page| == PAGE && |b| == PAGE && forall k :: 0 <= k < |a| ==> |a[k]| == PAGE
    ensures Settle(page, a + [b]) == if ZeroHeader(Settle(page, a)) then b else Settle(page, a)
  {
    SettleAppend(page, a, [b]);
    assert [b][1..] == [];
  }

  lemma {:induction false} RestoredSettles(d: Bytes, base: Bytes, n: nat, i: nat)
    requires n <= PageCount(d) && n <= PageCount(base) && i < PageCount(d)
    ensures Rest(Restored(d, base, n)) == Rest(d)
    ensures PageAt(Restored(d, base, n), i) == Settle(PageAt(d, i), if i < n then [PageAt(base, i)] else [])
  {
    hide PageAt, Write, ZeroHeader, Rest, Settle;
    NothingOffered(PageAt(d, i));
    if n > 0 {
      var e := Restored(d, base, n - 1);
      RestoredSettles(d, base, n - 1, i);
      if ZeroHeader(PageAt(e, n - 1)) {
        WriteInside(e, n - 1, PageAt(base, n - 1));
      }
      if i == n - 1 {
        OneMore(PageAt(d, i), [], PageAt(base, i));
        assert [] + [PageAt(base, i)] == [PageAt(base, i)];
      }
    }
  }

  /** Unwrapping over a file on disk settles each of its blocks with what is offered for it. */
  lemma UnwrapSettles(f: Path, d: Bytes, incremented: bool, content: Bytes, i: nat)
    requires Unwrapped(f, Some(d), incremented, content).Ok? && i < PageCount(d)
    ensures var e := Unwrapped(f, Some(d), incremented, content).value.0;
      && |e| == |d| && Rest(e) == Rest(d)
      && PageAt(e, i) == Settle(PageAt(d, i), Offers(f, |d|, incremented, content, i))
  {
    hide PageAt, Write, ZeroHeader, Rest, Settle, Filled, Restored;
    NothingOffered(PageAt(d, i));
    if incremented {
      var inc := ParseIncrement(content).value;
      FilledSettles(d, inc, |inc.blocks|, i);
    } else if IsPageFile(f, d) {
      RestoredSettles(d, content, Min(PageCount(d), PageCount(content)), i);
    }
  }

  lemma {:induction false} FilledRest(d: Bytes, inc: Increment, n: nat)
    requires n <= |inc.blocks| && n <= PageCount(inc.body)
    ensures Rest(Filled(d, inc, n, false)) == Rest(d)
  {
    hide PageAt, Write, ZeroHeader, Rest;
    if n > 0 {
      FilledRest(d, inc, n - 1);
      var e, b := Filled(d, inc, n - 1, false), inc.blocks[n - 1];
      if Accepts(e, b, false) {
        WriteInside(e, b, PageAt(inc.body, n - 1));
      }
    }
  }

  lemma UnwrapKeepsShape(f: Path, d: Bytes, incremented: bool, content: Bytes)
    requires Unwrapped(f, Some(d), incremented, content).Ok?
    ensures var e := Unwrapped(f, Some(d), incremented, content).value.0; |e| == |d| && Rest(e) == Rest(d)
  {
    hide Filled, Restored;
    if incremented {
      var inc := ParseIncrement(content).value;
      FilledRest(d, inc, |inc.blocks|);
    } else if IsPageFile(f, d) {
      RestoredSettles(d, content, Min(PageCount(d), PageCount(content)), 0);
    }
  }

  // ---- a file that stays wanted ---------------------------------------------

  lemma {:induction false} UnwantedStays(f: Path, s: FileState, chain: seq<Backup>, skip: bool)
    requires !s.wanted
    ensures FileRuns(f, s, chain, skip) && FileRun(f, s, chain, skip) == s.local
    decreases |chain|
  {
    if chain != [] {
      UnwantedStays(f, FileStep(f, s, chain[0], skip), chain[1..], skip);
    }
  }

  /** The plain run from a file on disk: same shape, and every block settles with all that is offered. */
  lemma {:induction false} RunSettles(f: Path, s: FileState, chain: seq<Backup>, i: nat)
    requires s.local.Some? && s.wanted && FileRuns(f, s, chain, false)
    ensures var d, e := s.local.value, FileRun(f, s, chain, false);
      && e.Some? && |e.value| == |d| && Rest(e.value) == Rest(d)
      && (i < PageCount(d) ==> PageAt(e.value, i) == Settle(PageAt(d, i), AllOffers(f, |d|, chain, i)))
    decreases |chain|
  {
    hide PageAt, Rest, Settle, Unwrapped, Offers;
    var d := s.local.value;
    if i < PageCount(d) {
      NothingOffered(PageAt(d, i));
    }
    if chain != [] {
      var b := chain[0];
      var next := FileStep(f, s, b, false);
      var offers := if f in b.content then Offers(f, |d|, Incremented(b, f), b.content[f], i) else [];
      if f in b.content {
        UnwrapKeepsShape(f, d, Incremented(b, f), b.content[f]);
        if i < PageCount(d) {
          UnwrapSettles(f, d, Incremented(b, f), b.content[f], i);
        }
      }
      if NeedsBase(b, f) {
        RunSettles(f, next, chain[1..], i);
        if i < PageCount(d) {
          SettleAppend(PageAt(d, i), offers, AllOffers(f, |d|, chain[1..], i));
        }
      } else {
        UnwantedStays(f, next, chain[1..], false);
        assert offers + [] == offers;
      }
    }
  }

  /** Nothing that the chain offers would change the file. */
  predicate Settled(f: Path, d: Bytes, chain: seq<Backup>) {
    forall i :: 0 <= i < PageCount(d) ==> Stays(PageAt(d, i), AllOffers(f, |d|, chain, i))
  }

  lemma SettledExactly(f: Path, s: FileState, chain: seq<Backup>)
    requires s.local.Some? && s.wanted && FileRuns(f, s, chain, false)
    ensures FileRun(f, s, chain, false) == s.local <==> Settled(f, s.local.value, chain)
  {
    hide FileRun, FileRuns, AllOffers, Settle, PageAt, Stays, Rest;
    var d := s.local.value;
    RunSettles(f, s, chain, 0);
    var e := FileRun(f, s, chain, false).value;
    forall i | 0 <= i < PageCount(d)
      ensures PageAt(e, i) == PageAt(d, i) <==> Stays(PageAt(d, i), AllOffers(f, |d|, chain, i))
    {
      RunSettles(f, s, chain, i);
      StaysIsSettled(PageAt(d, i), AllOffers(f, |d|, chain, i));
    }
    if Settled(f, d, chain) {
      SameContent(d, e);
    }
  }

  // ---- the exact condition --------------------------------------------------

  /**
   * The condition, read along the skipping run: either it keeps the file as long as the plain run does, or nothing that
   * the remaining backups offer would change what is on disk when it drops the file.
   */
  predicate Undisturbed(f: Path, s: FileState, chain: seq<Backup>)
    requires FileRuns(f, s, chain, true)
    decreases |chain|
  {
    if chain == [] || !s.wanted then true
    else
      var next := FileStep(f, s, chain[0], true);
      if NeedsBase(chain[0], f) && !next.wanted then next.local.Some? && Settled(f, next.local.value, chain[1..])
      else Undisturbed(f, next, chain[1..])
  }

  lemma {:induction false} FileExactly(f: Path, plain: FileState, s: FileState, chain: seq<Backup>)
    requires plain.local == s.local && plain.wanted == s.wanted
    requires FileRuns(f, plain, chain, false) && FileRuns(f, s, chain, true)
    ensures FileRun(f, s, chain, true) == FileRun(f, plain, chain, false) <==> Undisturbed(f, s, chain)
    decreases |chain|
  {
    hide Unwrapped, Settled;
    if chain != [] {
      var b := chain[0];
      var next, plainNext := FileStep(f, s, b, true), FileStep(f, plain, b, false);
      if !s.wanted {
        UnwantedStays(f, s, chain, true);
        UnwantedStays(f, plain, chain, false);
      } else if NeedsBase(b, f) && !next.wanted {
        UnwantedStays(f, next, chain[1..], true);
        SettledExactly(f, plainNext, chain[1..]);
      } else {
        FileExactly(f, plainNext, next, chain[1..]);
      }
    }
  }

  /**
   * Whenever the plain run succeeds, so does the skipping run, and it leaves a file as the plain run does if and only if
   * that file is undisturbed.
   */
  lemma SkippingExactly(wanted: set<Path>, chain: seq<Backup>, f: Path)
    requires chain != [] && FetchNew(map[], Config(wanted, map[]), chain, false).Ok?
    ensures FetchNew(map[], Config(wanted, map[]), chain, true).Ok?
    ensures FileRuns(f, StateOf(map[], Config(wanted, map[]), f), chain, true)
    ensures var plain, skipping := FetchNew(map[], Config(wanted, map[]), chain, false).value,
                                   FetchNew(map[], Config(wanted, map[]), chain, true).value;
      && (f in plain <==> f in skipping)
      && (f in plain ==> (skipping[f] == plain[f] <==> Undisturbed(f, StateOf(map[], Config(wanted, map[]), f), chain)))
  {
    hide FetchNew, FileRun, FileRuns, Undisturbed;
    var c := Config(wanted, map[]);
    SkippingSucceeds(map[], c, map[], c, chain);
    RunIsPerFile(map[], c, chain, f, false);
    RunIsPerFile(map[], c, chain, f, true);
    var s := StateOf(map[], c, f);
    FileExactly(f, s, s, chain);
  }

  /**
   * Against the old recursion: an undisturbed file comes out as the old one restores it exactly when its blocks agree,
   * and a disturbed one whose blocks agree never does.
   */
  lemma SkippingAgainstOld(wanted: set<Path>, chain: seq<Backup>, f: Path, base: Bytes, incs: seq<Increment>)
    requires chain != [] && f in wanted && f.paged
    requires FetchOld(map[], wanted, chain).Ok? && FetchNew(map[], Config(wanted, map[]), chain, false).Ok?
    requires WellFormedChain(base, incs) && StoredAs(chain, f, base, incs)
    ensures FetchNew(map[], Config(wanted, map[]), chain, true).Ok?
    ensures FileRuns(f, StateOf(map[], Config(wanted, map[]), f), chain, true)
    ensures var before, after := FetchOld(map[], wanted, chain).value,
                                 FetchNew(map[], Config(wanted, map[]), chain, true).value;
      var agree := incs == [] || forall i :: 0 <= i < Size(base, incs) ==> BlockAgrees(base, incs, i);
      var undisturbed := Undisturbed(f, StateOf(map[], Config(wanted, map[]), f), chain);
      && f in before && f in after
      && (undisturbed ==> (after[f] == before[f] <==> agree))
      && (!undisturbed && agree ==> after[f] != before[f])
  {
    hide FetchNew, FetchOld, FileRuns, Undisturbed, BlockAgrees, StoredAs, WellFormedChain, Size;
    NewEqualsOld(wanted, chain, f, base, incs);
    SkippingExactly(wanted, chain, f);
  }

  // ---- files stored whole ---------------------------------------------------

  /** A file that no backup of the chain stores as an increment, page file or not, run on its own from nothing. */
  lemma {:induction false} WholeFileRun(f: Path, count: Option<int>, chain: seq<Backup>, base: Bytes, skip: bool)
    requires chain != [] && StoredAs(chain, f, base, []) && FileRuns(f, FileState(None, true, count), chain, skip)
    ensures FileRun(f, FileState(None, true, count), chain, skip) == Some(base)
    decreases |chain|
  {
    var s := FileState(None, true, count);
    var next := FileStep(f, s, chain[0], skip);
    if |chain| == 1 {
      assert FileRun(f, next, [], skip) == next.local;
    } else if chain[0].files[f].isSkipped {
      WholeFileRun(f, count, chain[1..], base, skip);
    } else {
      UnwantedStays(f, next, chain[1..], skip);
    }
  }

  /** Such a file comes out of a fetch into an empty directory byte for byte, with and without skipping, and as in the old. */
  lemma WholeFilesAreRestored(wanted: set<Path>, chain: seq<Backup>, f: Path, base: Bytes, skip: bool)
    requires chain != [] && f in wanted && StoredAs(chain, f, base, [])
    requires FetchNew(map[], Config(wanted, map[]), chain, skip).Ok?
    ensures Lookup(FetchNew(map[], Config(wanted, map[]), chain, skip).value, f) == Some(base)
    ensures FetchOld(map[], wanted, chain).Ok? ==> Lookup(FetchOld(map[], wanted, chain).value, f) == Some(base)
  {
    hide FetchNew, FetchOld, StoredAs, FileRun, FileRuns, Lookup;
    var c := Config(wanted, map[]);
    RunIsPerFile(map[], c, chain, f, skip);
    assert StateOf(map[], c, f) == FileState(None, true, None) by {
      assert Lookup(map[], f) == None by {
        NothingThere(f);
      }
    }
    WholeFileRun(f, None, chain, base, skip);
    if FetchOld(map[], wanted, chain).Ok? {
      OldWhole(wanted, chain, f, base);
    }
  }

  lemma NothingThere(f: Path)
    ensures Lookup(map[], f) == None
  {
  }

  lemma {:induction false} OldWhole(wanted: set<Path>, chain: seq<Backup>, f: Path, base: Bytes)
    requires chain != [] && f in wanted && StoredAs(chain, f, base, []) && FetchOld(map[], wanted, chain).Ok?
    ensures Lookup(FetchOld(map[], wanted, chain).value, f) == Some(base)
    decreases |chain|
  {
    var b := chain[0];
    if |chain| > 1 && NeedsBase(b, f) {
      OldWhole((set g | g in wanted && NeedsBase(b, g)), chain[1..], f, base);
    }
  }

  /** A file that is not a page file and is there already is left alone by the new fetch. */
  lemma {:induction false} OtherFilesStay(f: Path, s: FileState, chain: seq<Backup>, skip: bool)
    requires s.local.Some? && !IsPageFile(f, s.local.value) && FileRuns(f, s, chain, skip)
    requires forall k :: 0 <= k < |chain| ==> !Incremented(chain[k], f)
    ensures FileRun(f, s, chain, skip) == s.local
    decreases |chain|
  {
    if chain != [] {
      OtherFilesStay(f, FileStep(f, s, chain[0], skip), chain[1..], skip);
    }
  }

  // ---- what the counter counts ----------------------------------------------

  /** How many zero-header pages an increment puts into the file, which stay missing although they are counted as given. */
  function ZeroGiven(local: Option<Bytes>, content: Bytes): nat
    requires ParseIncrement(content).Ok?
    requires local.None? ==> CreateOutcome(content).Ok?
    requires local.Some? ==> FillOutcome(local.value, content).Ok?
  {
    var inc := ParseIncrement(content).value;
    match local
    case None => CreatedZero(BlockSet(inc), inc.body, Count(inc))
    case Some(d) => FilledZero(d, inc, |inc.blocks|, false)
  }

  /**
   * The counter is the number of missing pages less all zero-header pages given so far, and the file is dropped exactly
   * when no more pages are missing than that.
   */
  lemma CounterDrifts(f: Path, s: FileState, b: Backup, given: nat)
    requires s.wanted && f in b.content && Incremented(b, f) && FileOk(f, s, b)
    requires s.local.None? ==> given == 0
    requires s.local.Some? ==> WholePages(s.local.value) && s.count == Some(MissingPages(s.local.value) - given)
    ensures ParseIncrement(b.content[f]).Ok?
    ensures s.local.None? ==> CreateOutcome(b.content[f]).Ok?
    ensures s.local.Some? ==> FillOutcome(s.local.value, b.content[f]).Ok?
    ensures var next, total := FileStep(f, s, b, true), given + ZeroGiven(s.local, b.content[f]);
      && next.local.Some? && WholePages(next.local.value)
      && (next.wanted <==> MissingPages(next.local.value) > total)
      && (next.wanted ==> next.count == Some(MissingPages(next.local.value) - total))
  {
    hide MissingPages, CreateOutcome, FillOutcome, ZeroGiven, WholePages;
    match s.local
    case None =>
      CreateDrifts(b.content[f]);
      var (d, o) := CreateOutcome(b.content[f]).value;
      assert FileStep(f, s, b, true) == Recount(FileState(Some(d), true, s.count), o);
    case Some(d) => FillDrifts(d, b.content[f]);
  }

  lemma CreateDrifts(content: Bytes)
    requires CreateOutcome(content).Ok?
    ensures ParseIncrement(content).Ok?
    ensures var (d, o) := CreateOutcome(content).value;
      WholePages(d) && o.CreatedFromIncrement? && o.missing + ZeroGiven(None, content) == MissingPages(d)
  {
    hide ParseIncrement, MissingPages, Created, CreatedZero;
    var inc := ParseIncrement(content).value;
    CreatedAccounting(BlockSet(inc), inc.body, Count(inc));
  }

  lemma FillDrifts(d: Bytes, content: Bytes)
    requires WholePages(d) && FillOutcome(d, content).Ok?
    ensures ParseIncrement(content).Ok?
    ensures var (e, o) := FillOutcome(d, content).value;
      WholePages(e) && o.restored == MissingPages(d) - MissingPages(e) + ZeroGiven(Some(d), content)
  {
    hide ParseIncrement, MissingPages, Filled, FilledCount, FilledZero;
    var inc := ParseIncrement(content).value;
    FilledAccounting(d, inc, |inc.blocks|);
  }

  // ---- two chains where skipping changes the result -------------------------

  /** Backups that hold only `f`: increments, newest first, over a full copy. */
  function ChainOf(f: Path, incs: seq<Increment>, base: Bytes): (chain: seq<Backup>)
    ensures chain != [] && forall k :: 0 <= k < |chain| ==> f in chain[k].files
  {
    if incs == [] then [Backup(map[f := Description(false, false)], map[f := base])]
    else [Backup(map[f := Description(true, false)], map[f := EncodeIncrement(incs[0])])] + ChainOf(f, incs[1..], base)
  }

  lemma ChainSplits(f: Path, inc: Increment, incs: seq<Increment>, base: Bytes)
    ensures var chain := ChainOf(f, [inc] + incs, base);
      && chain[0] == Backup(map[f := Description(true, false)], map[f := EncodeIncrement(inc)])
      && chain[1..] == ChainOf(f, incs, base)
  {
    assert ([inc] + incs)[1..] == incs;
  }

  lemma {:induction false} OneFileFetch(disk: Disk, c: Config, chain: seq<Backup>, f: Path, skip: bool)
    requires chain != [] && c.wanted <= {f} && forall k :: 0 <= k < |chain| ==> f in chain[k].files
    requires FileRuns(f, StateOf(disk, c, f), chain, skip)
    ensures FetchNew(disk, c, chain, skip).Ok?
    ensures Lookup(FetchNew(disk, c, chain, skip).value, f) == FileRun(f, StateOf(disk, c, f), chain, skip)
    decreases |chain|
  {
    hide Unwrapped, AfterSkipping, Recount;
    var b := chain[0];
    StepIsPerFile(disk, c, b, f, skip);
    if |chain| > 1 {
      assert NextConfig(disk, c, b, skip).wanted <= {f} by {
        forall g | g in NextConfig(disk, c, b, skip).wanted
          ensures g in c.wanted
        {
          StepIsPerFile(disk, c, b, g, skip);
        }
      }
      OneFileFetch(UnwrappedDisk(disk, c.wanted, b), NextConfig(disk, c, b, skip), chain[1..], f, skip);
    }
  }

  lemma CreateFirstBlock(n: nat, page: Bytes)
    requires 1 <= n <= 2 && |page| == PAGE
    ensures CreateOutcome(EncodeIncrement(Increment(n * PAGE, [0], page)))
         == Ok((page + Zeros((n - 1) * PAGE), CreatedFromIncrement(n - 1)))
  {
    hide ParseIncrement, EncodeIncrement, Created, Rank;
    var inc := Increment(n * PAGE, [0], page);
    ParseEncode(inc);
    assert BlockSet(inc) == {0} by {
      assert 0 in inc.blocks;
    }
    assert Count(inc) == n;
    CreatedFirst(n, page);
  }

  lemma CreatedFirst(n: nat, page: Bytes)
    requires 1 <= n <= 2 && |page| == PAGE
    ensures Rank({0}, n) == 1 && Created({0}, page, n) == page + Zeros((n - 1) * PAGE)
  {
    assert Rank({0}, 0) == 0 && Rank({0}, 1) == 1;
    assert Created({0}, page, 0) == [];
    assert Created({0}, page, 1) == [] + PageAt(page, 0) == page;
    assert page + Zeros(0) == page;
  }

  lemma FillFirstBlock(d: Bytes, page: Bytes)
    requires |d| == 2 * PAGE && |page| == PAGE && ZeroHeader(PageAt(d, 0))
    ensures FillOutcome(d, EncodeIncrement(Increment(2 * PAGE, [0], page))) == Ok((page + d[PAGE..], WroteIncrementBlocks(1)))
  {
    var inc := Increment(2 * PAGE, [0], page);
    ParseEncode(inc);
    assert Filled(d, inc, 0, false) == d;
    assert PageAt(page, 0) == page;
    assert Filled(d, inc, 1, false) == Write(d, 0, page) == page + d[PAGE..];
  }

  lemma ZerosHaveNoHeader(d: Bytes, i: nat)
    requires i < PageCount(d) && PageAt(d, i) == Zeros(PAGE)
    ensures ZeroHeader(PageAt(d, i))
  {
  }

  /** A page emptied since the full backup: the plain run brings the old page back, the skipping run keeps it empty. */
  lemma EmptiedPageStays(f: Path, page: Bytes)
    requires f.paged && |page| == PAGE && !ZeroHeader(page)
    ensures var chain, c := ChainOf(f, [Increment(PAGE, [0], Zeros(PAGE))], page), Config({f}, map[]);
      && FetchNew(map[], c, chain, false).Ok? && Lookup(FetchNew(map[], c, chain, false).value, f) == Some(page)
      && FetchNew(map[], c, chain, true).Ok? && Lookup(FetchNew(map[], c, chain, true).value, f) == Some(Zeros(PAGE))
      && Zeros(PAGE) != page
  {
    hide FetchNew, EncodeIncrement, FileRun, FileRuns, FileStep, FileOk, ChainOf;
    var empty, newest := Zeros(PAGE), Increment(PAGE, [0], Zeros(PAGE));
    var base, c := ChainOf(f, [], page), Config({f}, map[]);
    var chain := ChainOf(f, [newest], page);
    assert [newest] == [newest] + [];
    ChainSplits(f, newest, [], page);
    FullChain(f, page);
    StepToEmpty(f, chain[0], true);
    StepToEmpty(f, chain[0], false);
    StepToPage(f, base[0], page);
    UnwantedStays(f, FileState(Some(empty), false, None), base, true);
    UnwantedStays(f, FileState(Some(page), false, None), base[1..], false);
    RunStep(f, FileState(Some(empty), true, None), base, false, FileState(Some(page), false, None));
    RunStep(f, FileState(None, true, None), chain, false, FileState(Some(empty), true, None));
    RunStep(f, FileState(None, true, None), chain, true, FileState(Some(empty), false, None));
    OneFileFetch(map[], c, chain, f, true);
    OneFileFetch(map[], c, chain, f, false);
    assert PageAt(empty, 0) == empty;
    ZerosHaveNoHeader(empty, 0);
  }

  lemma StepToEmpty(f: Path, b: Backup, skip: bool)
    requires b == Backup(map[f := Description(true, false)], map[f := EncodeIncrement(Increment(PAGE, [0], Zeros(PAGE)))])
    ensures FileOk(f, FileState(None, true, None), b)
    ensures FileStep(f, FileState(None, true, None), b, skip) == FileState(Some(Zeros(PAGE)), !skip, None)
  {
    hide CreateOutcome, EncodeIncrement;
    CreateFirstBlock(1, Zeros(PAGE));
    assert Zeros(PAGE) + Zeros((1 - 1) * PAGE) == Zeros(PAGE);
    assert 1 * PAGE == PAGE;
  }

  lemma StepToPage(f: Path, b: Backup, page: Bytes)
    requires f.paged && |page| == PAGE && b == Backup(map[f := Description(false, false)], map[f := page])
    ensures var s := FileState(Some(Zeros(PAGE)), true, None);
      FileOk(f, s, b) && FileStep(f, s, b, false) == FileState(Some(page), false, None)
  {
    var empty := Zeros(PAGE);
    assert PageAt(empty, 0) == empty && PageAt(page, 0) == page;
    ZerosHaveNoHeader(empty, 0);
    assert Restored(empty, page, 0) == empty;
    assert Restored(empty, page, 1) == Write(empty, 0, page) == page;
  }

  lemma RunStep(f: Path, s: FileState, chain: seq<Backup>, skip: bool, next: FileState)
    requires chain != [] && FileOk(f, s, chain[0]) && FileStep(f, s, chain[0], skip) == next
    requires FileRuns(f, next, chain[1..], skip)
    ensures FileRuns(f, s, chain, skip) && FileRun(f, s, chain, skip) == FileRun(f, next, chain[1..], skip)
  {
  }

  lemma StepToBlank(f: Path, b: Backup, skip: bool)
    requires b == Backup(map[f := Description(true, false)], map[f := EncodeIncrement(Increment(2 * PAGE, [0], Zeros(PAGE)))])
    ensures FileOk(f, FileState(None, true, None), b)
    ensures FileStep(f, FileState(None, true, None), b, skip)
         == FileState(Some(Zeros(2 * PAGE)), true, if skip then Some(1) else None)
  {
    hide CreateOutcome, EncodeIncrement;
    CreateFirstBlock(2, Zeros(PAGE));
    assert Zeros(PAGE) + Zeros((2 - 1) * PAGE) == Zeros(2 * PAGE);
  }

  lemma StepToHalf(f: Path, b: Backup, page: Bytes, skip: bool)
    requires |page| == PAGE
    requires b == Backup(map[f := Description(true, false)], map[f := EncodeIncrement(Increment(2 * PAGE, [0], page))])
    ensures var s := FileState(Some(Zeros(2 * PAGE)), true, if skip then Some(1) else None);
      && FileOk(f, s, b)
      && FileStep(f, s, b, skip) == FileState(Some(page + Zeros(PAGE)), !skip, s.count)
  {
    hide FillOutcome, EncodeIncrement;
    var blank := Zeros(2 * PAGE);
    assert PageAt(blank, 0) == Zeros(PAGE);
    ZerosHaveNoHeader(blank, 0);
    FillFirstBlock(blank, page);
    assert blank[PAGE..] == Zeros(PAGE);
  }

  lemma StepToWhole(f: Path, b: Backup, page: Bytes, first: Bytes, second: Bytes)
    requires f.paged && |page| == |first| == |second| == PAGE && !ZeroHeader(page)
    requires b == Backup(map[f := Description(false, false)], map[f := first + second])
    ensures var s := FileState(Some(page + Zeros(PAGE)), true, None);
      FileOk(f, s, b) && FileStep(f, s, b, false) == FileState(Some(page + second), false, None)
  {
    var d, base := page + Zeros(PAGE), first + second;
    assert PageAt(d, 0) == page && PageAt(d, 1) == Zeros(PAGE) && PageAt(base, 1) == second;
    ZerosHaveNoHeader(d, 1);
    assert Restored(d, base, 0) == d;
    assert Restored(d, base, 1) == d;
    assert Restored(d, base, 2) == Write(d, PAGE, second) == page + second;
  }

  /**
   * The same below a newer increment: a second increment brings the emptied block back, is counted for the block that
   * is still missing, and that block stays empty.
   */
  lemma MissingBlockForgotten(f: Path, page: Bytes, first: Bytes, second: Bytes)
    requires f.paged && |page| == |first| == |second| == PAGE && !ZeroHeader(page) && !ZeroHeader(second)
    ensures var incs := [Increment(2 * PAGE, [0], Zeros(PAGE)), Increment(2 * PAGE, [0], page)];
      var chain, c := ChainOf(f, incs, first + second), Config({f}, map[]);
      && FetchNew(map[], c, chain, false).Ok?
      && Lookup(FetchNew(map[], c, chain, false).value, f) == Some(page + second)
      && FetchNew(map[], c, chain, true).Ok?
      && Lookup(FetchNew(map[], c, chain, true).value, f) == Some(page + Zeros(PAGE))
      && Zeros(PAGE) != second
  {
    hide FetchNew, EncodeIncrement, FileRun, FileRuns, FileStep, FileOk, ChainOf;
    var newest, older := Increment(2 * PAGE, [0], Zeros(PAGE)), Increment(2 * PAGE, [0], page);
    var base, c := ChainOf(f, [], first + second), Config({f}, map[]);
    var tail, chain := ChainOf(f, [older], first + second), ChainOf(f, [newest, older], first + second);
    assert [newest, older] == [newest] + [older] && [older] == [older] + [];
    ChainSplits(f, newest, [older], first + second);
    ChainSplits(f, older, [], first + second);
    assert base == [Backup(map[f := Description(false, false)], map[f := first + second])] by {
      FullChain(f, first + second);
    }
    var blank, half, whole := Zeros(2 * PAGE), page + Zeros(PAGE), page + second;
    forall skip: bool
      ensures FileRuns(f, FileState(None, true, None), chain, skip)
           && FileRun(f, FileState(None, true, None), chain, skip) == Some(if skip then half else whole)
    {
      var count := if skip then Some(1) else None;
      StepToBlank(f, chain[0], skip);
      StepToHalf(f, tail[0], page, skip);
      if skip {
        UnwantedStays(f, FileState(Some(half), false, count), base, skip);
      } else {
        StepToWhole(f, base[0], page, first, second);
        UnwantedStays(f, FileState(Some(whole), false, None), base[1..], skip);
        RunStep(f, FileState(Some(half), true, None), base, skip, FileState(Some(whole), false, None));
      }
      RunStep(f, FileState(Some(blank), true, count), tail, skip, FileState(Some(half), !skip, count));
      RunStep(f, FileState(None, true, None), chain, skip, FileState(Some(blank), true, count));
    }
    OneFileFetch(map[], c, chain, f, true);
    OneFileFetch(map[], c, chain, f, false);
  }

  lemma FullChain(f: Path, base: Bytes)
    ensures ChainOf(f, [], base) == [Backup(map[f := Description(false, false)], map[f := base])]
  {
  }
}
