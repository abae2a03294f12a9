/**
 * The two ways a page file is rebuilt from a chain of increments.
 * Forward, oldest to newest: ApplyFileIncrement.
 * Reverse, newest to oldest: CreateFileFromIncrement, WritePagesFromIncrement, RestoreMissingPages.
 */
module Restore {
  import opened Bytes
  import opened PageFiles
  import opened IncrementFormat

  /** A file of the data directory. */
  class LocalFile {
    var present: bool
    var data: Bytes

    constructor (present: bool, data: Bytes)
      ensures this.present == present && this.data == data
    {
      this.present, this.data := present, data;
    }

    method Truncate(n: nat)
      modifies this
      ensures data == Resize(old(data), n) && present == old(present)
    {
      data := Resize(data, n);
    }

    method WriteAt(p: Bytes, off: nat)
      modifies this
      ensures data == Write(old(data), off, p) && present == old(present)
    {
      data := Write(data, off, p);
    }
  }

  // ---- forward --------------------------------------------------------------

  /** The first `n` pages of an increment, written where its diff map says. */
  function Overwritten(d: Bytes, inc: Increment, n: nat): Bytes
    requires n <= |inc.blocks| && n <= PageCount(inc.body)
  {
    if n == 0 then d
    else Write(Overwritten(d, inc, n - 1), inc.blocks[n - 1] * PAGE, PageAt(inc.body, n - 1))
  }

  /** One page per block number and nothing after the last one. */
  predicate BodyMatches(inc: Increment) {
    |inc.body| == |inc.blocks| * PAGE
  }

  /** A body that is too short ends between pages or inside one; one that is too long has data left over. */
  function BodyError(inc: Increment): Error {
    if |inc.body| < |inc.blocks| * PAGE then ShortRead(|inc.body| % PAGE) else UnexpectedTarData
  }

  function Applied(d: Bytes, inc: Increment): Bytes
    requires BodyMatches(inc)
  {
    Overwritten(Resize(d, inc.fileSize), inc, |inc.blocks|)
  }

  /** Sizes of 2^63 and more turn negative in the conversion to int64 and are refused by truncate. */
  predicate SizeFits(inc: Increment) {
    inc.fileSize < UINT64 / 2
  }

  /** How applying an increment ends; a body that is too short ends between pages or inside one. */
  function ApplyVerdict(present: bool, createNew: bool, inc: Increment): (r: Result<()>)
    ensures r.Ok? <==> (present || createNew) && SizeFits(inc) && BodyMatches(inc)
  {
    if !present && !createNew then Err(FileMissing)
    else if !SizeFits(inc) then Err(NegativeSize)
    else if !BodyMatches(inc) then Err(BodyError(inc))
    else Ok(())
  }

  /** The error of each increment: no file, a size that is negative as an int64, or a body that goes on. */
  lemma VerdictExactly(present: bool, createNew: bool, inc: Increment)
    ensures var r, usable := ApplyVerdict(present, createNew, inc), present || createNew;
      && (r == Err(FileMissing) <==> !usable)
      && (r == Err(NegativeSize) <==> usable && inc.fileSize >= 0x8000_0000_0000_0000)
      && (r == Err(UnexpectedTarData) <==>
            usable && inc.fileSize < 0x8000_0000_0000_0000 && |inc.body| > |inc.blocks| * 8192)
  {
  }

  /** A body that ends `k` bytes into one of its pages. */
  lemma ShortBody(inc: Increment, n: nat, k: nat)
    requires n < |inc.blocks| && k < PAGE && |inc.body| == n * PAGE + k
    ensures !BodyMatches(inc) && BodyError(inc) == ShortRead(k)
  {
    assert (n + 1) * PAGE <= |inc.blocks| * PAGE;
  }

  method ApplyFileIncrement(file: LocalFile, increment: Bytes, createNew: bool) returns (r: Result<()>)
    modifies file
    ensures var p := ParseIncrement(increment);
            && r == (if p.Err? then Err(p.error) else ApplyVerdict(old(file.present), createNew, p.value))
            && (r.Ok? ==> file.present
                          && file.data == Applied(if old(file.present) then old(file.data) else [], p.value))
            && (p.Err? ==> file.data == old(file.data) && file.present == old(file.present))
  {
    match ParseIncrement(increment) {
      case Err(e) => r := Err(e);
      case Ok(inc) => r := ApplyPages(file, inc, createNew);
    }
  }

  /** Everything after the header: open, truncate, write page by page, insist on the end of the data. */
  method ApplyPages(file: LocalFile, inc: Increment, createNew: bool) returns (r: Result<()>)
    modifies file
    ensures r == ApplyVerdict(old(file.present), createNew, inc)
    ensures r.Ok? ==> file.present && file.data == Applied(if old(file.present) then old(file.data) else [], inc)
  {
    if !file.present {
      if !createNew {
        return Err(FileMissing);
      }
      file.present, file.data := true, [];
    }
    if !SizeFits(inc) {
      return Err(NegativeSize);
    }
    file.Truncate(inc.fileSize);
    r := OverwritePages(file, inc);
  }

  /** The page loop of the forward restore. */
  method OverwritePages(file: LocalFile, inc: Increment) returns (r: Result<()>)
    modifies file
    ensures r == if BodyMatches(inc) then Ok(()) else Err(BodyError(inc))
    ensures file.present == old(file.present)
    ensures r.Ok? ==> BodyMatches(inc) && file.data == Overwritten(old(file.data), inc, |inc.blocks|)
  {
    hide Write, PageAt;
    var i := 0;
    while i < |inc.blocks|
      invariant i <= |inc.blocks| && i * PAGE <= |inc.body| && file.present == old(file.present)
      invariant file.data == Overwritten(old(file.data), inc, i)
    {
      if |inc.body| < (i + 1) * PAGE {
        assert |inc.body| - i * PAGE == |inc.body| % PAGE;
        return Err(ShortRead(|inc.body| - i * PAGE));
      }
      file.WriteAt(PageAt(inc.body, i), inc.blocks[i] * PAGE);
      i := i + 1;
    }
    if |inc.body| > i * PAGE {
      return Err(UnexpectedTarData);
    }
    return Ok(());
  }

  // ---- reverse: create ------------------------------------------------------

  /** How many members of `blocks` are below `n`. */
  function Rank(blocks: set<nat>, n: nat): (k: nat)
    ensures k <= n
  {
    if n == 0 then 0 else Rank(blocks, n - 1) + if n - 1 in blocks then 1 else 0
  }

  /** The first `n` pages of a file created from a diff map read as a set: body pages in body order, empty pages elsewhere. */
  function Created(blocks: set<nat>, body: Bytes, n: nat): (d: Bytes)
    requires Rank(blocks, n) * PAGE <= |body|
    ensures |d| == n * PAGE
  {
    if n == 0 then []
    else Created(blocks, body, n - 1)
         + if n - 1 in blocks then PageAt(body, Rank(blocks, n - 1)) else Zeros(PAGE)
  }

  /** The page count announced by an increment. */
  function Count(inc: Increment): nat {
    inc.fileSize / PAGE
  }

  function BlockSet(inc: Increment): set<nat> {
    set b | b in inc.blocks
  }

  /** Needs a new file; returns how many of its pages no increment has supplied yet. */
  method CreateFileFromIncrement(increment: Bytes, target: LocalFile) returns (r: Result<nat>)
    requires target.data == []
    modifies target
    ensures var p := ParseIncrement(increment);
            && target.present == old(target.present)
            && (r.Ok? <==> p.Ok? && Rank(BlockSet(p.value), Count(p.value)) * PAGE <= |p.value.body|)
            && (r.Err? ==> r.error == if p.Err? then p.error else ShortRead(|p.value.body| % PAGE))
            && (r.Ok? ==> && target.data == Created(BlockSet(p.value), p.value.body, Count(p.value))
                          && r.value == Count(p.value) - Rank(BlockSet(p.value), Count(p.value)))
  {
    match ParseIncrement(increment) {
      case Err(e) => r := Err(e);
      case Ok(inc) => r := CreatePages(BlockSet(inc), inc.body, Count(inc), target);
    }
  }

  method CreatePages(deltaBlockNumbers: set<nat>, body: Bytes, pageCount: nat, target: LocalFile) returns (r: Result<nat>)
    requires target.data == []
    modifies target
    ensures target.present == old(target.present)
    ensures r.Ok? <==> Rank(deltaBlockNumbers, pageCount) * PAGE <= |body|
    ensures r.Err? ==> r.error == ShortRead(|body| % PAGE)
    ensures r.Ok? ==> target.data == Created(deltaBlockNumbers, body, pageCount)
    ensures r.Ok? ==> r.value == pageCount - Rank(deltaBlockNumbers, pageCount)
  {
    var missing := pageCount;
    var consumed := 0;
    for i := 0 to pageCount
      invariant consumed == Rank(deltaBlockNumbers, i) && consumed * PAGE <= |body|
      invariant target.data == Created(deltaBlockNumbers, body, i)
      invariant target.present == old(target.present)
      invariant missing == pageCount - Rank(deltaBlockNumbers, i)
    {
      var page := Zeros(PAGE);
      if i in deltaBlockNumbers {
        if |body| < (consumed + 1) * PAGE {
          RankMonotone(deltaBlockNumbers, i + 1, pageCount);
          return Err(ShortRead(|body| - consumed * PAGE));
        }
        page := PageAt(body, consumed);
        consumed, missing := consumed + 1, missing - 1;
      }
      WriteAtEnd(target.data, page);
      target.WriteAt(page, i * PAGE);
    }
    return Ok(missing);
  }

  lemma WriteAtEnd(d: Bytes, p: Bytes)
    ensures Write(d, |d|, p) == d + p
  {
  }

  lemma {:induction false} RankMonotone(blocks: set<nat>, m: nat, n: nat)
    requires m <= n
    ensures Rank(blocks, m) <= Rank(blocks, n)
  {
    if m < n {
      RankMonotone(blocks, m, n - 1);
    }
  }

  // ---- reverse: fill from an older increment --------------------------------

  /** Is page `b` of `d` overwritten by a page offered for it? */
  predicate Accepts(d: Bytes, b: nat, overwrite: bool) {
    b < PageCount(d) && (overwrite || ZeroHeader(PageAt(d, b)))
  }

  /** The target after offering it the first `n` pages of an increment. */
  function Filled(d: Bytes, inc: Increment, n: nat, overwrite: bool): (e: Bytes)
    requires n <= |inc.blocks| && n <= PageCount(inc.body)
    ensures |e| == |d|
  {
    if n == 0 then d
    else
      var e := Filled(d, inc, n - 1, overwrite);
      var b := inc.blocks[n - 1];
      if Accepts(e, b, overwrite) then Write(e, b * PAGE, PageAt(inc.body, n - 1)) else e
  }

  /** How many of those pages were written. */
  function FilledCount(d: Bytes, inc: Increment, n: nat, overwrite: bool): (c: nat)
    requires n <= |inc.blocks| && n <= PageCount(inc.body)
    ensures c <= n
  {
    if n == 0 then 0
    else FilledCount(d, inc, n - 1, overwrite)
         + if Accepts(Filled(d, inc, n - 1, overwrite), inc.blocks[n - 1], overwrite) then 1 else 0
  }

  /** How many pages written so far have a zero header, so that the target still calls them missing. */
  function FilledZero(d: Bytes, inc: Increment, n: nat, overwrite: bool): (c: nat)
    requires n <= |inc.blocks| && n <= PageCount(inc.body)
    ensures c <= FilledCount(d, inc, n, overwrite)
  {
    if n == 0 then 0
    else FilledZero(d, inc, n - 1, overwrite)
         + if Accepts(Filled(d, inc, n - 1, overwrite), inc.blocks[n - 1], overwrite)
              && ZeroHeader(PageAt(inc.body, n - 1)) then 1 else 0
  }

  method WritePagesFromIncrement(increment: Bytes, target: LocalFile, overwrite: bool) returns (r: Result<nat>)
    modifies target
    ensures var p := ParseIncrement(increment);
            && target.present == old(target.present)
            && (r.Ok? <==> p.Ok? && BodyMatches(p.value))
            && (r.Err? ==> r.error == if p.Err? then p.error else BodyError(p.value))
            && (r.Ok? ==>
                  && target.data == Filled(old(target.data), p.value, |p.value.blocks|, overwrite)
                  && r.value == FilledCount(old(target.data), p.value, |p.value.blocks|, overwrite))
  {
    match ParseIncrement(increment) {
      case Err(e) => r := Err(e);
      case Ok(inc) => r := FillPages(inc, target, overwrite);
    }
  }

  method FillPages(inc: Increment, target: LocalFile, overwrite: bool) returns (r: Result<nat>)
    modifies target
    ensures target.present == old(target.present)
    ensures r.Ok? <==> BodyMatches(inc)
    ensures r.Err? ==> r.error == BodyError(inc)
    ensures r.Ok? ==> target.data == Filled(old(target.data), inc, |inc.blocks|, overwrite)
    ensures r.Ok? ==> r.value == FilledCount(old(target.data), inc, |inc.blocks|, overwrite)
  {
    var targetPageCount := PageCount(target.data);
    var restored := 0;
    var i := 0;
    while i < |inc.blocks|
      invariant i <= |inc.blocks| && i * PAGE <= |inc.body|
      invariant target.present == old(target.present)
      invariant target.data == Filled(old(target.data), inc, i, overwrite)
      invariant restored == FilledCount(old(target.data), inc, i, overwrite)
    {
      var blockNo := inc.blocks[i];
      if |inc.body| < (i + 1) * PAGE {
        return Err(ShortRead(|inc.body| - i * PAGE));
      }
      if blockNo < targetPageCount {
        if overwrite || ZeroHeader(PageAt(target.data, blockNo)) {
          target.WriteAt(PageAt(inc.body, i), blockNo * PAGE);
          restored := restored + 1;
        }
      }
      i := i + 1;
    }
    if |inc.body| > i * PAGE {
      return Err(UnexpectedTarData);
    }
    return Ok(restored);
  }

  // ---- reverse: fill from the base backup -----------------------------------

  /** The target after its first `n` pages were offered the base's. */
  function Restored(d: Bytes, base: Bytes, n: nat): (e: Bytes)
    requires n <= PageCount(d) && n <= PageCount(base)
    ensures |e| == |d|
  {
    if n == 0 then d
    else
      var e := Restored(d, base, n - 1);
      if ZeroHeader(PageAt(e, n - 1)) then Write(e, (n - 1) * PAGE, PageAt(base, n - 1)) else e
  }

  /** A base that ends inside a page the target has is an error; one that ends early between pages is not. */
  method RestoreMissingPages(base: Bytes, target: LocalFile) returns (r: Result<()>)
    modifies target
    ensures target.present == old(target.present)
    ensures r.Ok? <==> WholePages(base) || PageCount(old(target.data)) <= PageCount(base)
    ensures r.Err? ==> r.error == UnexpectedEof
    ensures r.Ok? ==>
              target.data == Restored(old(target.data), base, Min(PageCount(old(target.data)), PageCount(base)))
  {
    var targetPageCount := PageCount(target.data);
    var i := 0;
    while i < targetPageCount
      invariant i <= targetPageCount && i <= PageCount(base)
      invariant target.present == old(target.present)
      invariant target.data == Restored(old(target.data), base, i)
    {
      if |base| < (i + 1) * PAGE {
        if |base| == i * PAGE {
          break;
        }
        return Err(UnexpectedEof);
      }
      if ZeroHeader(PageAt(target.data, i)) {
        target.WriteAt(PageAt(base, i), i * PAGE);
      }
      i := i + 1;
    }
    return Ok(());
  }
}
