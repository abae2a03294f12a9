/**
 * Leaving out complete files when every page of an increment has a header: the counters are then exact, and the files
 * restored are the same. SkippingExactness has the exact condition for all backups.
 */
module FetchSkipping {
  import opened Bytes
  import opened PageFiles
  import opened IncrementFormat
  import opened Restore
  import opened FetchFiles

  // ---- the counters, exactly ------------------------------------------------

  /** How many body pages used for the first `n` blocks have a zero header. */
  function CreatedZero(blocks: set<nat>, body: Bytes, n: nat): (z: nat)
    requires Rank(blocks, n) * PAGE <= |body|
  {
    if n == 0 then 0
    else CreatedZero(blocks, body, n - 1)
         + if n - 1 in blocks && ZeroHeader(PageAt(body, Rank(blocks, n - 1))) then 1 else 0
  }

  /** A created file misses the announced count plus every zero-header page it was given. */
  lemma {:induction false} CreatedAccounting(blocks: set<nat>, body: Bytes, n: nat)
    requires Rank(blocks, n) * PAGE <= |body|
    ensures MissingPages(Created(blocks, body, n)) == n - Rank(blocks, n) + CreatedZero(blocks, body, n)
  {
    if n > 0 {
      CreatedAccounting(blocks, body, n - 1);
      var page := if n - 1 in blocks then PageAt(body, Rank(blocks, n - 1)) else Zeros(PAGE);
      MissingAfterAppend(Created(blocks, body, n - 1), page);
    }
  }

  /** The pages an older increment restores are the drop in missing pages plus the zero-header pages it wrote. */
  lemma {:induction false} FilledAccounting(d: Bytes, inc: Increment, n: nat)
    requires WholePages(d) && n <= |inc.blocks| && n <= PageCount(inc.body)
    ensures MissingPages(Filled(d, inc, n, false))
         == MissingPages(d) - FilledCount(d, inc, n, false) + FilledZero(d, inc, n, false)
  {
    hide MissingPages, Write, ZeroHeader, PageAt;
    if n > 0 {
      FilledAccounting(d, inc, n - 1);
      var e := Filled(d, inc, n - 1, false);
      if Accepts(e, inc.blocks[n - 1], false) {
        MissingAfterFill(e, inc.blocks[n - 1], PageAt(inc.body, n - 1));
      }
    }
  }

  lemma {:induction false} NoCreatedZero(blocks: set<nat>, body: Bytes, n: nat)
    requires Rank(blocks, n) * PAGE <= |body|
    requires forall k :: 0 <= k < PageCount(body) ==> !ZeroHeader(PageAt(body, k))
    ensures CreatedZero(blocks, body, n) == 0
  {
    if n > 0 {
      NoCreatedZero(blocks, body, n - 1);
    }
  }

  lemma {:induction false} NoFilledZero(d: Bytes, inc: Increment, n: nat)
    requires n <= |inc.blocks| && n <= PageCount(inc.body)
    requires forall k :: 0 <= k < PageCount(inc.body) ==> !ZeroHeader(PageAt(inc.body, k))
    ensures FilledZero(d, inc, n, false) == 0
  {
    if n > 0 {
      NoFilledZero(d, inc, n - 1);
    }
  }

  // ---- complete files stay as they are --------------------------------------

  predicate Complete(d: Bytes) {
    forall i :: 0 <= i < PageCount(d) ==> !ZeroHeader(PageAt(d, i))
  }

  lemma {:induction false} FilledComplete(d: Bytes, inc: Increment, n: nat)
    requires Complete(d) && n <= |inc.blocks| && n <= PageCount(inc.body)
    ensures Filled(d, inc, n, false) == d
  {
    if n > 0 {
      FilledComplete(d, inc, n - 1);
    }
  }

  lemma {:induction false} RestoredComplete(d: Bytes, base: Bytes, n: nat)
    requires Complete(d) && n <= PageCount(d) && n <= PageCount(base)
    ensures Restored(d, base, n) == d
  {
    if n > 0 {
      RestoredComplete(d, base, n - 1);
    }
  }

  lemma UnwrapComplete(f: Path, d: Bytes, incremented: bool, content: Bytes)
    requires Complete(d) && Unwrapped(f, Some(d), incremented, content).Ok?
    ensures Unwrapped(f, Some(d), incremented, content).value.0 == d
  {
    if incremented {
      var inc := ParseIncrement(content).value;
      FilledComplete(d, inc, |inc.blocks|);
    } else if IsPageFile(f, d) {
      RestoredComplete(d, content, Min(PageCount(d), PageCount(content)));
    }
  }

  // ---- what is assumed of the backups ---------------------------------------

  predicate PagesHaveHeaders(content: Bytes) {
    match ParseIncrement(content)
    case Err(_) => true
    case Ok(inc) => forall k :: 0 <= k < PageCount(inc.body) ==> !ZeroHeader(PageAt(inc.body, k))
  }

  /** Increment pages have headers, and a file marked as skipped is not stored. */
  predicate Sound(b: Backup) {
    forall f :: f in b.content && f in b.files ==>
                  && (b.files[f].isIncremented ==> PagesHaveHeaders(b.content[f]))
                  && !b.files[f].isSkipped
  }

  // ---- the counter is the number of missing pages ---------------------------

  /** A wanted file that is already on disk has its number of missing pages recorded. */
  predicate Tracked(disk: Disk, c: Config, f: Path) {
    f in c.wanted && f in disk ==>
      WholePages(disk[f]) && f in c.missing && c.missing[f] == MissingPages(disk[f])
  }

  ghost predicate AllTracked(disk: Disk, c: Config) {
    forall f :: Tracked(disk, c, f)
  }

  lemma CreateCounts(content: Bytes)
    requires CreateOutcome(content).Ok? && PagesHaveHeaders(content)
    ensures var (d, o) := CreateOutcome(content).value;
            WholePages(d) && o == CreatedFromIncrement(MissingPages(d))
  {
    var inc := ParseIncrement(content).value;
    CreatedAccounting(BlockSet(inc), inc.body, Count(inc));
    NoCreatedZero(BlockSet(inc), inc.body, Count(inc));
  }

  lemma FillCounts(d: Bytes, content: Bytes)
    requires WholePages(d) && FillOutcome(d, content).Ok? && PagesHaveHeaders(content)
    ensures var (e, o) := FillOutcome(d, content).value;
            o.restored == MissingPages(d) - MissingPages(e)
  {
    var inc := ParseIncrement(content).value;
    FilledAccounting(d, inc, |inc.blocks|);
    NoFilledZero(d, inc, |inc.blocks|);
  }

  /** Exactly the files with missing pages stay wanted, of those on disk. */
  lemma SkippingOneFile(disk: Disk, c: Config, b: Backup, f: Path)
    requires Sound(b) && Unwrappable(disk, c.wanted, b) && Tracked(disk, c, f)
    ensures var disk', c' := UnwrappedDisk(disk, c.wanted, b), NextConfig(disk, c, b, true);
            && Tracked(disk', c', f)
            && (f in c'.wanted ==> f in c.wanted && NeedsBase(b, f))
            && (f in c.wanted && NeedsBase(b, f) && f !in c'.wanted ==> f in disk' && MissingPages(disk'[f]) == 0)
  {
    if f in c.wanted && f in b.content && NeedsBase(b, f) {
      assert b.files[f].isIncremented;
      if f !in disk {
        CreateCounts(b.content[f]);
      } else {
        FillCounts(disk[f], b.content[f]);
      }
    }
  }

  /** After every step of the new recursion the recorded counts are the numbers of pages still missing. */
  lemma CountersStayExact(disk: Disk, c: Config, b: Backup)
    requires Sound(b) && Unwrappable(disk, c.wanted, b) && AllTracked(disk, c)
    ensures AllTracked(UnwrappedDisk(disk, c.wanted, b), NextConfig(disk, c, b, true))
  {
    forall f {
      SkippingOneFile(disk, c, b, f);
    }
  }

  // ---- both runs side by side -----------------------------------------------

  /** The skipping run wants fewer files; those it dropped are complete on disk. */
  predicate OnlyCompleteDropped(disk: Disk, kept: set<Path>, all: set<Path>) {
    kept <= all && forall f :: f in all && f !in kept ==> f in disk && Complete(disk[f])
  }

  lemma SameDisk(disk: Disk, kept: set<Path>, all: set<Path>, b: Backup)
    requires OnlyCompleteDropped(disk, kept, all) && Unwrappable(disk, all, b)
    ensures Unwrappable(disk, kept, b) && UnwrappedDisk(disk, kept, b) == UnwrappedDisk(disk, all, b)
  {
    assert Unwrappable(disk, kept, b);
    var s, n := UnwrappedDisk(disk, kept, b), UnwrappedDisk(disk, all, b);
    forall f | f in all && f in b.content && f !in kept
      ensures f in disk && UnwrapOf(disk, b, f).value.0 == disk[f]
    {
      UnwrapComplete(f, disk[f], Incremented(b, f), b.content[f]);
    }
    assert s.Keys == n.Keys;
  }

  lemma StillOnlyComplete(disk: Disk, c: Config, all: set<Path>, b: Backup)
    requires Sound(b) && AllTracked(disk, c)
    requires OnlyCompleteDropped(disk, c.wanted, all) && Unwrappable(disk, all, b) && Unwrappable(disk, c.wanted, b)
    requires UnwrappedDisk(disk, c.wanted, b) == UnwrappedDisk(disk, all, b)
    ensures OnlyCompleteDropped(UnwrappedDisk(disk, c.wanted, b), NextConfig(disk, c, b, true).wanted,
                                set f | f in all && NeedsBase(b, f))
  {
    var disk', c' := UnwrappedDisk(disk, c.wanted, b), NextConfig(disk, c, b, true);
    var all' := set f | f in all && NeedsBase(b, f);
    forall f
      ensures f in c'.wanted ==> f in all'
      ensures f in all' && f !in c'.wanted ==> f in disk' && Complete(disk'[f])
    {
      SkippingOneFile(disk, c, b, f);
      if f in all' && f !in c'.wanted {
        if f in c.wanted {
          NoneMissing(disk'[f], PageCount(disk'[f]));
        } else {
          assert disk'[f] == disk[f];
        }
      }
    }
  }

  lemma {:induction false} SkippingRuns(disk: Disk, c: Config, plain: Config, chain: seq<Backup>)
    requires chain != [] && forall k :: 0 <= k < |chain| ==> Sound(chain[k])
    requires AllTracked(disk, c) && OnlyCompleteDropped(disk, c.wanted, plain.wanted)
    requires FetchNew(disk, plain, chain, false).Ok?
    ensures FetchNew(disk, c, chain, true) == FetchNew(disk, plain, chain, false)
    decreases |chain|
  {
    var b := chain[0];
    SameDisk(disk, c.wanted, plain.wanted, b);
    if |chain| > 1 {
      CountersStayExact(disk, c, b);
      StillOnlyComplete(disk, c, plain.wanted, b);
      SkippingRuns(UnwrappedDisk(disk, c.wanted, b), NextConfig(disk, c, b, true),
                   NextConfig(disk, plain, b, false), chain[1..]);
    }
  }

  /** From an empty data directory: when the plain run succeeds, the skipping run succeeds with the same files. */
  lemma SkippingPreservesRestore(wanted: set<Path>, chain: seq<Backup>)
    requires chain != [] && forall k :: 0 <= k < |chain| ==> Sound(chain[k])
    requires FetchNew(map[], Config(wanted, map[]), chain, false).Ok?
    ensures FetchNew(map[], Config(wanted, map[]), chain, true) == FetchNew(map[], Config(wanted, map[]), chain, false)
  {
    SkippingRuns(map[], Config(wanted, map[]), Config(wanted, map[]), chain);
  }
}
