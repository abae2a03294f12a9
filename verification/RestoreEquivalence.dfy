/** When the reverse restore of a chain of increments gives the bytes of the forward restore: an exact condition per block. */
module RestoreEquivalence {
  import opened Bytes
  import opened PageFiles
  import opened IncrementFormat
  import opened Restore

  /** What the page reader guarantees of the increments it writes for page files. */
  predicate WellFormed(inc: Increment) {
    && BodyMatches(inc)
    && inc.fileSize % PAGE == 0
    && (forall j, k :: 0 <= j < k < |inc.blocks| ==> inc.blocks[j] < inc.blocks[k])
    && (forall k :: 0 <= k < |inc.blocks| ==> inc.blocks[k] < Count(inc))
  }

  predicate WellFormedChain(base: Bytes, incs: seq<Increment>) {
    WholePages(base) && forall j :: 0 <= j < |incs| ==> WellFormed(incs[j])
  }

  // ---- the two restores of one file, increments listed oldest first ----------

  function Forward(base: Bytes, incs: seq<Increment>): (d: Bytes)
    requires WellFormedChain(base, incs)
  {
    if incs == [] then base
    else Applied(Forward(base, incs[..|incs| - 1]), incs[|incs| - 1])
  }

  function Reverse(base: Bytes, incs: seq<Increment>): (d: Bytes)
    requires WellFormedChain(base, incs) && incs != []
  {
    var newest := incs[|incs| - 1];
    RankOfAll(newest);
    ReverseFrom(Created(BlockSet(newest), newest.body, Count(newest)), base, incs[..|incs| - 1])
  }

  function ReverseFrom(d: Bytes, base: Bytes, incs: seq<Increment>): (e: Bytes)
    requires WellFormedChain(base, incs)
    ensures |e| == |d|
    decreases |incs|
  {
    if incs == [] then Restored(d, base, Min(PageCount(d), PageCount(base)))
    else
      var inc := incs[|incs| - 1];
      ReverseFrom(Filled(d, inc, |inc.blocks|, false), base, incs[..|incs| - 1])
  }

  // ---- one block ------------------------------------------------------------

  /** The page an increment holds for block `i`, among its first `n`. */
  function PageFor(inc: Increment, i: nat, n: nat): (c: Option<Bytes>)
    requires n <= |inc.blocks| && n <= PageCount(inc.body)
    ensures c.Some? ==> |c.value| == PAGE
  {
    if n == 0 then None
    else if inc.blocks[n - 1] == i then Some(PageAt(inc.body, n - 1))
    else PageFor(inc, i, n - 1)
  }

  function Copy(inc: Increment, i: nat): (c: Option<Bytes>)
    requires BodyMatches(inc)
    ensures c.Some? ==> |c.value| == PAGE
  {
    PageFor(inc, i, |inc.blocks|)
  }

  /** Every stored copy of block `i`, newest first. */
  function Copies(base: Bytes, incs: seq<Increment>, i: nat): (cs: seq<Bytes>)
    requires WellFormedChain(base, incs)
    ensures forall k :: 0 <= k < |cs| ==> |cs[k]| == PAGE
  {
    if incs == [] then (if i < PageCount(base) then [PageAt(base, i)] else [])
    else
      var older := Copies(base, incs[..|incs| - 1], i);
      match Copy(incs[|incs| - 1], i)
      case Some(p) => [p] + older
      case None => older
  }

  function Size(base: Bytes, incs: seq<Increment>): nat {
    if incs == [] then PageCount(base) else Count(incs[|incs| - 1])
  }

  /**
   * The newest version of block `i`: its newest copy, or zeros once a newer increment
   * announces a file too short to hold the block.
   */
  function Newest(base: Bytes, incs: seq<Increment>, i: nat): (p: Bytes)
    requires WellFormedChain(base, incs)
    ensures |p| == PAGE
  {
    if i >= Size(base, incs) then Zeros(PAGE)
    else if incs == [] then PageAt(base, i)
    else
      match Copy(incs[|incs| - 1], i)
      case Some(p) => p
      case None => Newest(base, incs[..|incs| - 1], i)
  }

  predicate AllZeroHeader(cs: seq<Bytes>)
    requires forall k :: 0 <= k < |cs| ==> |cs[k]| == PAGE
  {
    forall k :: 0 <= k < |cs| ==> ZeroHeader(cs[k])
  }

  /**
   * The condition: the newest version has a non-zero header, or no stored copy has one
   * and the oldest copy (zeros if there is none) is that version.
   */
  predicate BlockAgrees(base: Bytes, incs: seq<Increment>, i: nat)
    requires WellFormedChain(base, incs)
  {
    var newest, cs := Newest(base, incs, i), Copies(base, incs, i);
    !ZeroHeader(newest) || (AllZeroHeader(cs) && newest == if cs == [] then Zeros(PAGE) else cs[|cs| - 1])
  }

  /** A page keeps being replaced by the next older copy while its header is zero. */
  function Settle(page: Bytes, older: seq<Bytes>): (p: Bytes)
    requires |page| == PAGE && forall k :: 0 <= k < |older| ==> |older[k]| == PAGE
    ensures |p| == PAGE
    decreases |older|
  {
    if older == [] || !ZeroHeader(page) then page else Settle(older[0], older[1..])
  }

  // ---- block numbers --------------------------------------------------------

  lemma {:induction false} RankIs(inc: Increment, n: nat, c: nat)
    requires WellFormed(inc) && c <= |inc.blocks|
    requires forall j :: 0 <= j < c ==> inc.blocks[j] < n
    requires forall j :: c <= j < |inc.blocks| ==> n <= inc.blocks[j]
    ensures Rank(BlockSet(inc), n) == c
  {
    if n == 0 {
      assert c == 0;
    } else if c > 0 && inc.blocks[c - 1] == n - 1 {
      RankIs(inc, n - 1, c - 1);
    } else {
      assert n - 1 !in BlockSet(inc);
      RankIs(inc, n - 1, c);
    }
  }

  lemma RankOfAll(inc: Increment)
    requires WellFormed(inc)
    ensures Rank(BlockSet(inc), Count(inc)) == |inc.blocks|
  {
    RankIs(inc, Count(inc), |inc.blocks|);
  }

  lemma {:induction false} PageForAt(inc: Increment, i: nat, n: nat, k: nat)
    requires WellFormed(inc) && k < n <= |inc.blocks| && inc.blocks[k] == i
    ensures PageFor(inc, i, n) == Some(PageAt(inc.body, k))
  {
    if k < n - 1 {
      PageForAt(inc, i, n - 1, k);
    }
  }

  lemma {:induction false} PageForNone(inc: Increment, i: nat, n: nat)
    requires WellFormed(inc) && n <= |inc.blocks|
    requires forall k :: 0 <= k < n ==> inc.blocks[k] != i
    ensures PageFor(inc, i, n).None?
  {
    if n > 0 {
      PageForNone(inc, i, n - 1);
    }
  }

  // ---- what each operation does to one block --------------------------------

  lemma {:induction false} OverwrittenBlock(d: Bytes, inc: Increment, n: nat, i: nat)
    requires WellFormed(inc) && |d| == inc.fileSize && n <= |inc.blocks| && i < Count(inc)
    ensures |Overwritten(d, inc, n)| == |d|
    ensures PageAt(Overwritten(d, inc, n), i)
         == match PageFor(inc, i, n) case Some(p) => p case None => PageAt(d, i)
  {
    hide PageAt, Write;
    if n > 0 {
      OverwrittenBlock(d, inc, n - 1, i);
      WriteReplacesOnePage(Overwritten(d, inc, n - 1), inc.blocks[n - 1], PageAt(inc.body, n - 1));
    }
  }

  lemma OverwrittenSize(d: Bytes, inc: Increment)
    requires WellFormed(inc) && |d| == inc.fileSize
    ensures |Overwritten(d, inc, |inc.blocks|)| == |d|
  {
    if inc.blocks != [] {
      OverwrittenBlock(d, inc, |inc.blocks|, inc.blocks[0]);
    }
  }

  lemma AppliedBlock(d: Bytes, inc: Increment, i: nat)
    requires WellFormed(inc) && WholePages(d) && i < Count(inc)
    ensures |Applied(d, inc)| == inc.fileSize
    ensures PageAt(Applied(d, inc), i)
         == match Copy(inc, i)
            case Some(p) => p
            case None => if i < PageCount(d) then PageAt(d, i) else Zeros(PAGE)
  {
    OverwrittenBlock(Resize(d, inc.fileSize), inc, |inc.blocks|, i);
    ResizeKeepsPages(d, Count(inc), i);
  }

  lemma {:induction false} CreatedBlock(inc: Increment, n: nat, i: nat)
    requires WellFormed(inc) && i < n <= Count(inc)
    requires Rank(BlockSet(inc), n) <= |inc.blocks|
    ensures PageAt(Created(BlockSet(inc), inc.body, n), i)
         == match Copy(inc, i) case Some(p) => p case None => Zeros(PAGE)
  {
    hide PageFor;
    var s := BlockSet(inc);
    if i < n - 1 {
      CreatedBlock(inc, n - 1, i);
      assert PageAt(Created(s, inc.body, n), i) == PageAt(Created(s, inc.body, n - 1), i);
    } else if i in s {
      var k :| 0 <= k < |inc.blocks| && inc.blocks[k] == i;
      RankIs(inc, i, k);
      PageForAt(inc, i, |inc.blocks|, k);
      assert PageAt(Created(s, inc.body, n), i) == PageAt(inc.body, k);
    } else {
      PageForNone(inc, i, |inc.blocks|);
      assert PageAt(Created(s, inc.body, n), i) == Zeros(PAGE);
    }
  }

  lemma {:induction false} FilledBlock(d: Bytes, inc: Increment, n: nat, i: nat)
    requires WellFormed(inc) && WholePages(d) && n <= |inc.blocks| && i < PageCount(d)
    ensures PageAt(Filled(d, inc, n, false), i)
         == match PageFor(inc, i, n)
            case Some(p) => (if ZeroHeader(PageAt(d, i)) then p else PageAt(d, i))
            case None => PageAt(d, i)
  {
    hide PageAt, Write, ZeroHeader;
    if n > 0 {
      var e := Filled(d, inc, n - 1, false);
      FilledBlock(d, inc, n - 1, i);
      if inc.blocks[n - 1] == i {
        PageForNone(inc, i, n - 1);
      }
      if Accepts(e, inc.blocks[n - 1], false) {
        WriteReplacesOnePage(e, inc.blocks[n - 1], PageAt(inc.body, n - 1));
      }
    }
  }

  /** When overwriting, block i becomes the increment's last page for it, whatever was there. */
  lemma {:induction false} ReplacedBlock(d: Bytes, inc: Increment, n: nat, i: nat)
    requires WholePages(d) && n <= |inc.blocks| && n <= PageCount(inc.body) && i < PageCount(d)
    ensures PageAt(Filled(d, inc, n, true), i)
         == match PageFor(inc, i, n)
            case Some(p) => p
            case None => PageAt(d, i)
  {
    hide PageAt, Write, ZeroHeader;
    if n > 0 {
      ReplacedBlock(d, inc, n - 1, i);
      var e := Filled(d, inc, n - 1, true);
      if Accepts(e, inc.blocks[n - 1], true) {
        WriteReplacesOnePage(e, inc.blocks[n - 1], PageAt(inc.body, n - 1));
      }
    }
  }

  /** How many of the first `n` blocks lie in a file of `pages` pages. */
  function Inside(blocks: seq<nat>, n: nat, pages: nat): nat
    requires n <= |blocks|
  {
    if n == 0 then 0 else Inside(blocks, n - 1, pages) + if blocks[n - 1] < pages then 1 else 0
  }

  /** Overwriting writes every page whose block is in the file. */
  lemma {:induction false} OverwriteCounts(d: Bytes, inc: Increment, n: nat)
    requires n <= |inc.blocks| && n <= PageCount(inc.body)
    ensures FilledCount(d, inc, n, true) == Inside(inc.blocks, n, PageCount(d))
  {
    if n > 0 {
      OverwriteCounts(d, inc, n - 1);
    }
  }

  lemma {:induction false} RestoredBlock(d: Bytes, base: Bytes, n: nat, i: nat)
    requires WholePages(d) && n <= PageCount(d) && n <= PageCount(base) && i < PageCount(d)
    ensures PageAt(Restored(d, base, n), i)
         == if i < n && ZeroHeader(PageAt(d, i)) then PageAt(base, i) else PageAt(d, i)
  {
    hide PageAt, Write, ZeroHeader;
    if n > 0 {
      var e := Restored(d, base, n - 1);
      RestoredBlock(d, base, n - 1, i);
      if ZeroHeader(PageAt(e, n - 1)) {
        WriteReplacesOnePage(e, n - 1, PageAt(base, n - 1));
      }
    }
  }

  // ---- what each restore leaves in one block --------------------------------

  lemma {:induction false} ForwardSize(base: Bytes, incs: seq<Increment>)
    requires WellFormedChain(base, incs)
    ensures |Forward(base, incs)| == Size(base, incs) * PAGE
  {
    hide Overwritten;
    if incs != [] {
      var inc, init := incs[|incs| - 1], incs[..|incs| - 1];
      ForwardSize(base, init);
      OverwrittenSize(Resize(Forward(base, init), inc.fileSize), inc);
    }
  }

  lemma {:induction false} ForwardBlock(base: Bytes, incs: seq<Increment>, i: nat)
    requires WellFormedChain(base, incs) && i < Size(base, incs)
    ensures |Forward(base, incs)| == Size(base, incs) * PAGE
    ensures PageAt(Forward(base, incs), i) == Newest(base, incs, i)
  {
    hide PageAt, Applied, Copy;
    ForwardSize(base, incs);
    if incs != [] {
      var inc, init := incs[|incs| - 1], incs[..|incs| - 1];
      ForwardSize(base, init);
      AppliedBlock(Forward(base, init), inc, i);
      if i < Size(base, init) {
        ForwardBlock(base, init, i);
      }
    }
  }

  lemma {:induction false} ReverseFromBlock(d: Bytes, base: Bytes, incs: seq<Increment>, i: nat)
    requires WellFormedChain(base, incs) && WholePages(d) && i < PageCount(d)
    ensures PageAt(ReverseFrom(d, base, incs), i) == Settle(PageAt(d, i), Copies(base, incs, i))
    decreases |incs|
  {
    if incs == [] {
      RestoredBlock(d, base, Min(PageCount(d), PageCount(base)), i);
    } else {
      var inc, init := incs[|incs| - 1], incs[..|incs| - 1];
      FilledBlock(d, inc, |inc.blocks|, i);
      ReverseFromBlock(Filled(d, inc, |inc.blocks|, false), base, init, i);
      var older := Copies(base, init, i);
      if Copy(inc, i).Some? {
        assert ([Copy(inc, i).value] + older)[1..] == older;
      }
    }
  }

  lemma ReverseBlock(base: Bytes, incs: seq<Increment>, i: nat)
    requires WellFormedChain(base, incs) && incs != [] && i < Size(base, incs)
    ensures |Reverse(base, incs)| == Size(base, incs) * PAGE
    ensures PageAt(Reverse(base, incs), i) == Settle(Zeros(PAGE), Copies(base, incs, i))
  {
    var newest, init := incs[|incs| - 1], incs[..|incs| - 1];
    RankOfAll(newest);
    var d := Created(BlockSet(newest), newest.body, Count(newest));
    CreatedBlock(newest, Count(newest), i);
    ReverseFromBlock(d, base, init, i);
    var older := Copies(base, init, i);
    if Copy(newest, i).Some? {
      assert ([Copy(newest, i).value] + older)[1..] == older;
    }
  }

  // ---- when the two agree ---------------------------------------------------

  lemma {:induction false} SettleZero(page: Bytes, older: seq<Bytes>)
    requires |page| == PAGE && forall k :: 0 <= k < |older| ==> |older[k]| == PAGE
    ensures ZeroHeader(Settle(page, older)) <==> ZeroHeader(page) && AllZeroHeader(older)
    ensures ZeroHeader(Settle(page, older)) && older != [] ==> Settle(page, older) == older[|older| - 1]
    decreases |older|
  {
    if older != [] && ZeroHeader(page) {
      SettleZero(older[0], older[1..]);
      assert older == [older[0]] + older[1..];
    }
  }

  lemma {:induction false} NewestIsFirstCopy(base: Bytes, incs: seq<Increment>, i: nat)
    requires WellFormedChain(base, incs) && !ZeroHeader(Newest(base, incs, i))
    ensures Copies(base, incs, i) != [] && Copies(base, incs, i)[0] == Newest(base, incs, i)
  {
    if incs != [] && Copy(incs[|incs| - 1], i).None? {
      NewestIsFirstCopy(base, incs[..|incs| - 1], i);
    }
  }

  lemma BlockRefines(base: Bytes, incs: seq<Increment>, i: nat)
    requires WellFormedChain(base, incs)
    ensures Settle(Zeros(PAGE), Copies(base, incs, i)) == Newest(base, incs, i) <==> BlockAgrees(base, incs, i)
  {
    var cs := Copies(base, incs, i);
    SettleZero(Zeros(PAGE), cs);
    if !ZeroHeader(Newest(base, incs, i)) {
      NewestIsFirstCopy(base, incs, i);
    }
  }

  /** The reverse restore gives the forward restore's bytes exactly when every block satisfies the condition. */
  lemma ReverseRefinesForward(base: Bytes, incs: seq<Increment>)
    requires WellFormedChain(base, incs) && incs != []
    ensures Reverse(base, incs) == Forward(base, incs)
       <==> forall i :: 0 <= i < Size(base, incs) ==> BlockAgrees(base, incs, i)
  {
    hide Forward, Reverse, BlockAgrees, PageAt, WellFormedChain, Size;
    var f, r := Forward(base, incs), Reverse(base, incs);
    ForwardSize(base, incs);
    ReverseSize(base, incs);
    forall i | 0 <= i < Size(base, incs)
      ensures PageAt(r, i) == PageAt(f, i) <==> BlockAgrees(base, incs, i)
    {
      ForwardBlock(base, incs, i);
      ReverseBlock(base, incs, i);
      BlockRefines(base, incs, i);
    }
    if forall i :: 0 <= i < Size(base, incs) ==> BlockAgrees(base, incs, i) {
      forall i | 0 <= i < PageCount(r)
        ensures PageAt(r, i) == PageAt(f, i)
      {
        assert BlockAgrees(base, incs, i);
      }
      SamePages(r, f);
    }
  }

  lemma ReverseSize(base: Bytes, incs: seq<Increment>)
    requires WellFormedChain(base, incs) && incs != []
    ensures |Reverse(base, incs)| == Size(base, incs) * PAGE
  {
    RankOfAll(incs[|incs| - 1]);
  }

  // ---- a sufficient condition on the increments alone -----------------------

  predicate HeaderPresent(inc: Increment)
    requires BodyMatches(inc)
  {
    forall k :: 0 <= k < |inc.blocks| ==> !ZeroHeader(PageAt(inc.body, k))
  }

  /** No page of an increment has a zero header. */
  predicate HeadersPresent(incs: seq<Increment>)
    requires forall j :: 0 <= j < |incs| ==> BodyMatches(incs[j])
  {
    forall j :: 0 <= j < |incs| ==> HeaderPresent(incs[j])
  }

  predicate Holds(inc: Increment, i: nat) {
    i in inc.blocks
  }

  predicate RecordsGrowth(inc: Increment, previous: nat) {
    forall i :: previous <= i < Count(inc) ==> Holds(inc, i)
  }

  /** An increment that grew the file holds every block it added. */
  predicate GrowthRecorded(base: Bytes, incs: seq<Increment>)
    decreases |incs|
  {
    incs == []
    || (&& GrowthRecorded(base, incs[..|incs| - 1])
        && RecordsGrowth(incs[|incs| - 1], Size(base, incs[..|incs| - 1])))
  }

  lemma {:induction false} CopyPresent(inc: Increment, i: nat)
    requires WellFormed(inc)
    ensures Copy(inc, i).Some? <==> i in inc.blocks
    ensures HeaderPresent(inc) && i in inc.blocks ==> !ZeroHeader(Copy(inc, i).value)
  {
    if i in inc.blocks {
      var k :| 0 <= k < |inc.blocks| && inc.blocks[k] == i;
      PageForAt(inc, i, |inc.blocks|, k);
    } else {
      PageForNone(inc, i, |inc.blocks|);
    }
  }

  lemma {:induction false} AgreesWhenRecorded(base: Bytes, incs: seq<Increment>, i: nat)
    requires WellFormedChain(base, incs) && HeadersPresent(incs) && GrowthRecorded(base, incs)
    requires i < Size(base, incs)
    ensures BlockAgrees(base, incs, i)
  {
    if incs != [] {
      var inc, init := incs[|incs| - 1], incs[..|incs| - 1];
      assert HeaderPresent(inc);
      CopyPresent(inc, i);
      if !Holds(inc, i) {
        AgreesWhenRecorded(base, init, i);
      }
    }
  }

  /** With non-zero page headers and recorded growth the two restores give the same bytes. */
  lemma ReverseEqualsForward(base: Bytes, incs: seq<Increment>)
    requires WellFormedChain(base, incs) && incs != []
    requires HeadersPresent(incs) && GrowthRecorded(base, incs)
    ensures Reverse(base, incs) == Forward(base, incs)
  {
    forall i | 0 <= i < Size(base, incs)
      ensures BlockAgrees(base, incs, i)
    {
      AgreesWhenRecorded(base, incs, i);
    }
    ReverseRefinesForward(base, incs);
  }

  /**
   * The counterexample to the plain claim: a page emptied after the base backup does not stay empty.
   * One base page, one increment that holds a zero page for it.
   */
  lemma EmptiedPageReturns(base: Bytes, incs: seq<Increment>)
    requires |base| == PAGE && !ZeroHeader(base)
    requires incs == [Increment(PAGE, [0], Zeros(PAGE))]
    ensures WellFormedChain(base, incs) && GrowthRecorded(base, incs)
    ensures Reverse(base, incs) != Forward(base, incs)
  {
    assert WellFormed(incs[0]) && incs[..0] == [] && GrowthRecorded(base, []);
    ReverseRefinesForward(base, incs);
    assert !BlockAgrees(base, incs, 0) by {
      PageForAt(incs[0], 0, 1, 0);
      WholePage(base);
      WholePage(incs[0].body);
      assert Copies(base, incs, 0) == [incs[0].body] + [base];
      assert Copies(base, incs, 0)[1] == base;
    }
  }

  /**
   * The other one: a block cut off by one increment and added back unrecorded by the next comes back from the base. The
   * file has two pages, then one, then two again.
   */
  lemma TruncatedBlockReturns(first: Bytes, second: Bytes, incs: seq<Increment>)
    requires |first| == |second| == PAGE && !ZeroHeader(second)
    requires incs == [Increment(PAGE, [], []), Increment(2 * PAGE, [], [])]
    ensures WellFormedChain(first + second, incs) && HeadersPresent(incs)
    ensures Reverse(first + second, incs) != Forward(first + second, incs)
  {
    hide Forward, Reverse;
    var base := first + second;
    assert WellFormed(incs[0]) && WellFormed(incs[1]);
    assert |incs[..1]| == 1 && incs[..1][0] == incs[0] && incs[..1][..0] == [];
    ReverseRefinesForward(base, incs);
    assert !BlockAgrees(base, incs, 1) by {
      assert PageAt(base, 1) == second;
      assert Copies(base, incs[..1], 1) == [second];
      assert Copies(base, incs, 1)[0] == second;
      assert Newest(base, incs, 1) == Newest(base, incs[..1], 1) == Zeros(PAGE);
    }
  }

  lemma WholePage(d: Bytes)
    requires |d| == PAGE
    ensures PageAt(d, 0) == d
  {
  }
}
