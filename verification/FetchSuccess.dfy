/** When a fetch succeeds: exactly when each file does on its own, and always when every wanted file is stored along the chain. */
module FetchSuccess {
  import opened Bytes
  import opened PageFiles
  import opened IncrementFormat
  import opened Restore
  import opened RestoreEquivalence
  import opened FetchFiles
  import opened FetchPerFile
  import opened FetchEquivalence
  import opened SkippingExactness

  // ---- file by file ---------------------------------------------------------

  /** While an older backup remains, a wanted file is described or a utility file. */
  predicate FileDescribed(f: Path, s: FileState, chain: seq<Backup>, skip: bool)
    requires FileRuns(f, s, chain, skip)
    decreases |chain|
  {
    |chain| > 1 ==>
      && (s.wanted ==> f in chain[0].files || f.utility)
      && FileDescribed(f, FileStep(f, s, chain[0], skip), chain[1..], skip)
  }

  ghost predicate FileFetched(f: Path, s: FileState, chain: seq<Backup>, skip: bool) {
    FileRuns(f, s, chain, skip) && FileDescribed(f, s, chain, skip)
  }

  lemma FetchedStep(f: Path, s: FileState, chain: seq<Backup>, skip: bool)
    requires |chain| > 1
    ensures FileFetched(f, s, chain, skip) <==>
      && FileOk(f, s, chain[0]) && (s.wanted ==> f in chain[0].files || f.utility)
      && FileFetched(f, FileStep(f, s, chain[0], skip), chain[1..], skip)
  {
  }

  /** A fetch succeeds if and only if every file does. */
  lemma {:induction false} FetchSucceedsExactly(disk: Disk, c: Config, chain: seq<Backup>, skip: bool)
    requires chain != []
    ensures FetchNew(disk, c, chain, skip).Ok? <==> forall f :: FileFetched(f, StateOf(disk, c, f), chain, skip)
    decreases |chain|
  {
    hide FileFetched, FileStep, NextConfig, UnwrappedDisk, Unwrapped;
    var b := chain[0];
    UnwrapsExactly(disk, c, b);
    if |chain| == 1 {
      forall f
        ensures FileFetched(f, StateOf(disk, c, f), chain, skip) <==> FileOk(f, StateOf(disk, c, f), b)
      {
        LastFetched(f, StateOf(disk, c, f), chain, skip);
      }
    } else {
      forall f
        ensures FileFetched(f, StateOf(disk, c, f), chain, skip) <==>
          && FileOk(f, StateOf(disk, c, f), b) && (f in c.wanted ==> f in b.files || f.utility)
          && FileFetched(f, FileStep(f, StateOf(disk, c, f), b, skip), chain[1..], skip)
      {
        FetchedStep(f, StateOf(disk, c, f), chain, skip);
      }
      if Unwrappable(disk, c.wanted, b) {
        FetchSucceedsExactly(UnwrappedDisk(disk, c.wanted, b), NextConfig(disk, c, b, skip), chain[1..], skip);
        forall f
          ensures FileStep(f, StateOf(disk, c, f), b, skip)
               == StateOf(UnwrappedDisk(disk, c.wanted, b), NextConfig(disk, c, b, skip), f)
        {
          StepIsPerFile(disk, c, b, f, skip);
        }
      }
    }
  }

  lemma LastFetched(f: Path, s: FileState, chain: seq<Backup>, skip: bool)
    requires |chain| == 1
    ensures FileFetched(f, s, chain, skip) <==> FileOk(f, s, chain[0])
  {
    if FileOk(f, s, chain[0]) {
      assert chain[1..] == [];
      assert FileRuns(f, FileStep(f, s, chain[0], skip), [], skip);
      assert FileRuns(f, s, chain, skip);
      assert FileDescribed(f, s, chain, skip);
    }
  }

  lemma UnwrapsExactly(disk: Disk, c: Config, b: Backup)
    ensures Unwrappable(disk, c.wanted, b) <==> forall f :: FileOk(f, StateOf(disk, c, f), b)
  {
    hide Unwrapped;
    if forall f :: FileOk(f, StateOf(disk, c, f), b) {
      forall f | f in c.wanted && f in b.content
        ensures UnwrapOf(disk, b, f).Ok?
      {
        assert FileOk(f, StateOf(disk, c, f), b);
      }
    }
  }

  // ---- chains that store what is wanted -------------------------------------

  /** `f` is stored along the chain, and if as increments, then well-formed ones over whole pages. */
  ghost predicate Stored(chain: seq<Backup>, f: Path)
    requires chain != []
  {
    exists base, incs :: StoredAs(chain, f, base, incs) && (incs == [] || WellFormedChain(base, incs))
  }

  /** Every wanted file is stored, or is a utility file that the newest backup does not describe. */
  ghost predicate AllStored(wanted: set<Path>, chain: seq<Backup>)
    requires chain != []
  {
    forall f :: f in wanted ==> Stored(chain, f) || (f.utility && f !in chain[0].files)
  }

  lemma {:induction false} UnwantedFetched(f: Path, s: FileState, chain: seq<Backup>, skip: bool)
    requires !s.wanted
    ensures FileFetched(f, s, chain, skip)
    decreases |chain|
  {
    if chain != [] {
      UnwantedFetched(f, FileStep(f, s, chain[0], skip), chain[1..], skip);
    }
  }

  /** A stored file is fetched, from nothing or, when it is made of pages, over whole pages. */
  lemma {:induction false} StoredFetched(f: Path, s: FileState, chain: seq<Backup>, base: Bytes, incs: seq<Increment>, skip: bool)
    requires chain != [] && StoredAs(chain, f, base, incs)
    requires (s.local.None? && incs == []) || (WellFormedChain(base, incs) && (s.local.Some? ==> WholePages(s.local.value)))
    ensures FileFetched(f, s, chain, skip)
    decreases |chain|
  {
    hide Unwrapped, WholePages;
    if !s.wanted {
      UnwantedFetched(f, s, chain, skip);
    } else {
      var b := chain[0];
      if |chain| == 1 {
        WholeStep(f, s, b, base);
        LastFetched(f, s, chain, skip);
      } else if !NeedsBase(b, f) {
        WholeStep(f, s, b, base);
        UnwantedFetched(f, FileStep(f, s, b, skip), chain[1..], skip);
      } else if b.files[f].isIncremented {
        IncrementStep(f, s.local, b.content[f], base, incs);
        var next := FileStep(f, s, b, skip);
        assert next.local.Some? && WholePages(next.local.value) by {
          StepLeaves(f, s, b, skip);
        }
        StoredFetched(f, next, chain[1..], base, incs[..|incs| - 1], skip);
      } else {
        StoredFetched(f, FileStep(f, s, b, skip), chain[1..], base, incs, skip);
      }
    }
  }

  lemma WholeStep(f: Path, s: FileState, b: Backup, base: Bytes)
    requires f in b.content && !Incremented(b, f) && b.content[f] == base
    requires s.local.None? || (WholePages(base) && WholePages(s.local.value))
    ensures FileOk(f, s, b)
  {
  }

  lemma StepLeaves(f: Path, s: FileState, b: Backup, skip: bool)
    requires s.wanted && f in b.content && FileOk(f, s, b)
    requires var d := Unwrapped(f, s.local, Incremented(b, f), b.content[f]).value.0;
      (s.local.None? ==> WholePages(d)) && (s.local.Some? ==> WholePages(s.local.value) && |d| == |s.local.value|)
    ensures var next := FileStep(f, s, b, skip); next.local.Some? && WholePages(next.local.value)
  {
    hide Unwrapped;
  }

  lemma UtilityFetched(f: Path, s: FileState, chain: seq<Backup>, skip: bool)
    requires chain != [] && s.local.None? && f.utility && f !in chain[0].files
    ensures FileFetched(f, s, chain, skip)
  {
    var next := FileStep(f, s, chain[0], skip);
    UnwantedFetched(f, next, chain[1..], skip);
  }

  lemma NewSucceeds(wanted: set<Path>, chain: seq<Backup>, skip: bool)
    requires chain != [] && AllStored(wanted, chain)
    ensures FetchNew(map[], Config(wanted, map[]), chain, skip).Ok?
  {
    hide FetchNew, FileFetched, StoredAs, WellFormedChain, Lookup;
    var c := Config(wanted, map[]);
    forall f
      ensures FileFetched(f, StateOf(map[], c, f), chain, skip)
    {
      var s := StateOf(map[], c, f);
      NothingThere(f);
      if f !in wanted {
        UnwantedFetched(f, s, chain, skip);
      } else if Stored(chain, f) {
        var base, incs :| StoredAs(chain, f, base, incs) && (incs == [] || WellFormedChain(base, incs));
        StoredFetched(f, s, chain, base, incs, skip);
      } else {
        UtilityFetched(f, s, chain, skip);
      }
    }
    FetchSucceedsExactly(map[], c, chain, skip);
  }

  // ---- the old recursion ----------------------------------------------------

  lemma StoredBelow(chain: seq<Backup>, f: Path)
    requires |chain| > 1 && NeedsBase(chain[0], f) && Stored(chain, f)
    ensures Stored(chain[1..], f)
  {
    hide WellFormedChain;
    var base, incs :| StoredAs(chain, f, base, incs) && (incs == [] || WellFormedChain(base, incs));
    if chain[0].files[f].isIncremented {
      assert StoredAs(chain[1..], f, base, incs[..|incs| - 1]);
      assert WellFormedChain(base, incs[..|incs| - 1]) by {
        ShorterChain(base, incs);
      }
    } else {
      assert StoredAs(chain[1..], f, base, incs);
    }
  }

  lemma ShorterChain(base: Bytes, incs: seq<Increment>)
    requires incs != [] && WellFormedChain(base, incs)
    ensures WellFormedChain(base, incs[..|incs| - 1])
  {
  }

  lemma OldStepOk(disk: Disk, b: Backup, chain: seq<Backup>, f: Path)
    requires chain != [] && b == chain[0] && f in b.content && Stored(chain, f)
    requires |chain| > 1 && NeedsBase(b, f) ==> f in disk
    ensures UnwrapOldOf(disk, b, |chain| > 1, f).Ok?
  {
    var base, incs :| StoredAs(chain, f, base, incs) && (incs == [] || WellFormedChain(base, incs));
  }

  lemma StoredThere(chain: seq<Backup>, f: Path)
    requires chain != [] && Stored(chain, f)
    ensures |chain| > 1 ==> f in chain[0].files
    ensures f in chain[0].content || (|chain| > 1 && NeedsBase(chain[0], f))
  {
  }

  lemma {:induction false} OldSucceeds(disk: Disk, wanted: set<Path>, chain: seq<Backup>)
    requires chain != [] && AllStored(wanted, chain)
    ensures FetchOld(disk, wanted, chain).Ok?
    ensures forall f :: f in wanted && Stored(chain, f) ==> f in FetchOld(disk, wanted, chain).value
    decreases |chain|
  {
    hide Stored, UnwrappedOld, StoredAs;
    var b, isDelta := chain[0], |chain| > 1;
    var lower := disk;
    forall f | f in wanted && Stored(chain, f)
      ensures isDelta ==> f in b.files
      ensures f in b.content || (isDelta && NeedsBase(b, f))
    {
      StoredThere(chain, f);
    }
    if isDelta {
      var below := set f | f in wanted && NeedsBase(b, f);
      forall f | f in below
        ensures Stored(chain[1..], f)
      {
        StoredBelow(chain, f);
      }
      OldSucceeds(disk, below, chain[1..]);
      lower := FetchOld(disk, below, chain[1..]).value;
    }
    forall f | f in wanted && f in b.content
      ensures UnwrapOldOf(lower, b, isDelta, f).Ok?
    {
      if Stored(chain, f) {
        OldStepOk(lower, b, chain, f);
      } else {
        NotIncremented(lower, b, isDelta, f);
      }
    }
  }

  lemma NotIncremented(disk: Disk, b: Backup, isDelta: bool, f: Path)
    requires f in b.content && f !in b.files
    ensures UnwrapOldOf(disk, b, isDelta, f).Ok?
  {
  }

  /**
   * When every wanted file is stored, all three fetches into an empty directory succeed, and a page file comes out of the new
   * one as of the old one exactly when the newest version of each of its blocks survives the "missing page" test.
   */
  lemma StoredChainsAreFetched(wanted: set<Path>, chain: seq<Backup>, f: Path, base: Bytes, incs: seq<Increment>)
    requires chain != [] && AllStored(wanted, chain) && f in wanted && f.paged
    requires WellFormedChain(base, incs) && StoredAs(chain, f, base, incs)
    ensures FetchOld(map[], wanted, chain).Ok?
    ensures FetchNew(map[], Config(wanted, map[]), chain, false).Ok? && FetchNew(map[], Config(wanted, map[]), chain, true).Ok?
    ensures Lookup(FetchOld(map[], wanted, chain).value, f) == Some(Forward(base, incs))
    ensures Lookup(FetchNew(map[], Config(wanted, map[]), chain, false).value, f) == Some(Forward(base, incs)) <==>
      incs == [] || forall i :: 0 <= i < Size(base, incs) ==> BlockAgrees(base, incs, i)
  {
    hide FetchNew, FetchOld, StoredAs, WellFormedChain, AllStored, BlockAgrees, Forward, Size;
    OldSucceeds(map[], wanted, chain);
    NewSucceeds(wanted, chain, false);
    NewSucceeds(wanted, chain, true);
    OldRestores(map[], wanted, chain, f, base, incs);
    NewEqualsOld(wanted, chain, f, base, incs);
  }

  /** Restoring from a full copy fails exactly when the copy ends inside a page that the file on disk has. */
  lemma CutCopyFails(d: Bytes, base: Bytes)
    ensures RestoreOutcome(d, base).Err? <==> exists k: nat :: k < PageCount(d) && EndsInside(base, k)
  {
    hide Restored;
    if !WholePages(base) {
      assert forall k: nat :: EndsInside(base, k) <==> k == PageCount(base);
      assert EndsInside(base, PageCount(base));
    }
  }

  predicate EndsInside(base: Bytes, k: nat) {
    k * PAGE < |base| < (k + 1) * PAGE
  }

  // ---- what ends the search for older versions ------------------------------

  /** A full copy ends it, unless the file was there already and is not a page file. */
  lemma FullCopyEnds(f: Path, s: FileState, b: Backup)
    requires s.wanted && f in b.content && !Incremented(b, f) && FileOk(f, s, b)
    ensures FileStep(f, s, b, true).wanted <==> NeedsBase(b, f) && s.local.Some? && !IsPageFile(f, s.local.value)
  {
  }

  /** Increments never end it for a file that is not counted. */
  lemma UncountedStays(f: Path, s: FileState, b: Backup)
    requires s.wanted && s.local.Some? && s.count.None? && f in b.content && Incremented(b, f) && FileOk(f, s, b)
    ensures FileStep(f, s, b, true).wanted && FileStep(f, s, b, true).count.None?
  {
  }
}
