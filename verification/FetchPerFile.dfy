/** The new recursion seen from one file: files of a fetch do not touch each other. */
module FetchPerFile {
  import opened Bytes
  import opened FetchFiles

  /** What a fetch knows of one file: its content on disk, whether it is still wanted, and its count of missing blocks. */
  datatype FileState = FileState(local: Option<Bytes>, wanted: bool, count: Option<int>)

  function StateOf(disk: Disk, c: Config, f: Path): FileState {
    FileState(Lookup(disk, f), f in c.wanted, if f in c.missing then Some(c.missing[f]) else None)
  }

  predicate FileOk(f: Path, s: FileState, b: Backup) {
    s.wanted && f in b.content ==> Unwrapped(f, s.local, Incremented(b, f), b.content[f]).Ok?
  }

  /** The accounting of FetchConfig for one file that is still wanted. */
  function Recount(s: FileState, o: Outcome): FileState {
    match o
    case CreatedFromIncrement(missing) => if missing == 0 then s.(wanted := false) else s.(count := Some(missing))
    case WroteIncrementBlocks(restored) =>
      if s.count.None? then s
      else if s.count.value - restored <= 0 then s.(wanted := false)
      else s.(count := Some(s.count.value - restored))
    case Completed => s.(wanted := false)
    case Skipped => s
  }

  /** One backup: unwrap the file if wanted and stored, then decide whether an older backup is needed. */
  function FileStep(f: Path, s: FileState, b: Backup, skip: bool): FileState
    requires FileOk(f, s, b)
  {
    if s.wanted && f in b.content then
      var (d, o) := Unwrapped(f, s.local, Incremented(b, f), b.content[f]).value;
      var next := FileState(Some(d), NeedsBase(b, f), s.count);
      if skip && next.wanted then Recount(next, o) else next
    else s.(wanted := s.wanted && NeedsBase(b, f))
  }

  predicate FileRuns(f: Path, s: FileState, chain: seq<Backup>, skip: bool)
    decreases |chain|
  {
    chain == [] || (FileOk(f, s, chain[0]) && FileRuns(f, FileStep(f, s, chain[0], skip), chain[1..], skip))
  }

  /** The file after the whole chain. */
  function FileRun(f: Path, s: FileState, chain: seq<Backup>, skip: bool): Option<Bytes>
    requires FileRuns(f, s, chain, skip)
    decreases |chain|
  {
    if chain == [] then s.local else FileRun(f, FileStep(f, s, chain[0], skip), chain[1..], skip)
  }

  // ---- a fetch is its files -------------------------------------------------

  lemma DiskIsPerFile(disk: Disk, c: Config, b: Backup, f: Path)
    requires Unwrappable(disk, c.wanted, b)
    ensures FileOk(f, StateOf(disk, c, f), b)
    ensures Lookup(UnwrappedDisk(disk, c.wanted, b), f)
         == if f in c.wanted && f in b.content then Some(UnwrapOf(disk, b, f).value.0) else Lookup(disk, f)
    ensures f in c.wanted && f in b.content ==> Outcomes(disk, c.wanted, b)[f] == UnwrapOf(disk, b, f).value.1
  {
    hide Unwrapped;
  }

  lemma StepIsPerFile(disk: Disk, c: Config, b: Backup, f: Path, skip: bool)
    requires Unwrappable(disk, c.wanted, b)
    ensures FileOk(f, StateOf(disk, c, f), b)
    ensures FileStep(f, StateOf(disk, c, f), b, skip)
         == StateOf(UnwrappedDisk(disk, c.wanted, b), NextConfig(disk, c, b, skip), f)
  {
    hide Unwrapped, UnwrappedDisk, AfterSkipping, Recount;
    DiskIsPerFile(disk, c, b, f);
    var after := UnwrappedDisk(disk, c.wanted, b);
    SkippingOneConfig(after, c.(wanted := set g | g in c.wanted && NeedsBase(b, g)), Outcomes(disk, c.wanted, b), f);
  }

  lemma SkippingOneConfig(disk: Disk, c: Config, outcomes: map<Path, Outcome>, f: Path)
    ensures StateOf(disk, AfterSkipping(c, outcomes), f)
         == var s := StateOf(disk, c, f); if f in c.wanted && f in outcomes then Recount(s, outcomes[f]) else s
  {
  }

  /** The last backup is only unwrapped, and a file looked up after the fetch is the file run on its own. */
  lemma {:induction false} RunIsPerFile(disk: Disk, c: Config, chain: seq<Backup>, f: Path, skip: bool)
    requires chain != [] && FetchNew(disk, c, chain, skip).Ok?
    ensures FileRuns(f, StateOf(disk, c, f), chain, skip)
    ensures Lookup(FetchNew(disk, c, chain, skip).value, f) == FileRun(f, StateOf(disk, c, f), chain, skip)
    decreases |chain|
  {
    hide FileStep, NextConfig, UnwrappedDisk, Unwrappable, Unwrapped;
    var b := chain[0];
    StepIsPerFile(disk, c, b, f, skip);
    if |chain| > 1 {
      RunIsPerFile(UnwrappedDisk(disk, c.wanted, b), NextConfig(disk, c, b, skip), chain[1..], f, skip);
    }
  }

  // ---- success does not depend on skipping ----------------------------------

  lemma UnwrapSameSize(f: Path, d: Bytes, e: Bytes, incremented: bool, content: Bytes)
    requires |d| == |e|
    ensures Unwrapped(f, Some(d), incremented, content).Ok? <==> Unwrapped(f, Some(e), incremented, content).Ok?
    ensures Unwrapped(f, Some(d), incremented, content).Ok? ==>
      |Unwrapped(f, Some(d), incremented, content).value.0| == |d|
  {
  }

  /** A run that wants fewer files, on a disk with the same files and the same wanted ones. */
  ghost predicate Below(disk: Disk, kept: set<Path>, plainDisk: Disk, all: set<Path>) {
    && kept <= all && disk.Keys == plainDisk.Keys
    && (forall f :: f in kept && f in disk ==> disk[f] == plainDisk[f])
    && (forall f :: f in all && f !in kept ==> f in disk)
  }

  lemma BelowStep(disk: Disk, c: Config, plainDisk: Disk, plain: Config, b: Backup)
    requires Below(disk, c.wanted, plainDisk, plain.wanted) && Unwrappable(plainDisk, plain.wanted, b)
    ensures Unwrappable(disk, c.wanted, b)
    ensures Below(UnwrappedDisk(disk, c.wanted, b), NextConfig(disk, c, b, true).wanted,
                  UnwrappedDisk(plainDisk, plain.wanted, b), NextConfig(plainDisk, plain, b, false).wanted)
  {
    hide Unwrapped;
    forall f | f in c.wanted && f in b.content
      ensures UnwrapOf(disk, b, f) == UnwrapOf(plainDisk, b, f)
    {
      assert Lookup(disk, f) == Lookup(plainDisk, f);
    }
    var disk', kept := UnwrappedDisk(disk, c.wanted, b), NextConfig(disk, c, b, true).wanted;
    var plainDisk', all := UnwrappedDisk(plainDisk, plain.wanted, b), NextConfig(plainDisk, plain, b, false).wanted;
    forall f | f in all && f !in kept
      ensures f in disk'
    {
      StepIsPerFile(disk, c, b, f, true);
    }
    forall f | f in kept
      ensures f in all && (f in disk' ==> disk'[f] == plainDisk'[f])
    {
      StepIsPerFile(disk, c, b, f, true);
    }
    assert disk'.Keys == plainDisk'.Keys;
  }

  /** When the plain run succeeds, so does the skipping one, with the same files on disk. */
  lemma {:induction false} SkippingSucceeds(disk: Disk, c: Config, plainDisk: Disk, plain: Config, chain: seq<Backup>)
    requires chain != [] && Below(disk, c.wanted, plainDisk, plain.wanted)
    requires FetchNew(plainDisk, plain, chain, false).Ok?
    ensures FetchNew(disk, c, chain, true).Ok?
    ensures FetchNew(disk, c, chain, true).value.Keys == FetchNew(plainDisk, plain, chain, false).value.Keys
    decreases |chain|
  {
    hide Unwrapped, NextConfig, UnwrappedDisk, Unwrappable;
    var b := chain[0];
    BelowStep(disk, c, plainDisk, plain, b);
    if |chain| > 1 {
      SkippingSucceeds(UnwrappedDisk(disk, c.wanted, b), NextConfig(disk, c, b, true),
                       UnwrappedDisk(plainDisk, plain.wanted, b), NextConfig(plainDisk, plain, b, false), chain[1..]);
    }
  }
}
