/**
 * Fetching a chain of backups into the data directory: the old recursion (oldest first) and the new one
 * (newest first), and FetchConfig, which lets the new one leave out files that are already complete.
 */
module FetchFiles {
  import opened Bytes
  import opened PageFiles
  import opened IncrementFormat
  import opened Restore

  /** A file of the cluster; `paged` when its name and directory are those of a page file. */
  datatype Path = Path(name: string, paged: bool, utility: bool)

  datatype Description = Description(isIncremented: bool, isSkipped: bool)

  /** A backup: the descriptions in its sentinel and what its tars hold. */
  datatype Backup = Backup(files: map<Path, Description>, content: map<Path, Bytes>)

  type Disk = map<Path, Bytes>

  datatype Outcome =
    | Completed
    | CreatedFromIncrement(missing: nat)
    | WroteIncrementBlocks(restored: nat)
    | Skipped

  predicate Incremented(b: Backup, f: Path) {
    f in b.files && b.files[f].isIncremented
  }

  // ---- one file of one backup, new implementation ---------------------------

  function CreateOutcome(content: Bytes): Result<(Bytes, Outcome)> {
    match ParseIncrement(content)
    case Err(e) => Err(e)
    case Ok(inc) =>
      var k := Rank(BlockSet(inc), Count(inc));
      if |inc.body| < k * PAGE then Err(ShortRead(|inc.body| % PAGE))
      else Ok((Created(BlockSet(inc), inc.body, Count(inc)), CreatedFromIncrement(Count(inc) - k)))
  }

  function FillOutcome(d: Bytes, content: Bytes): (r: Result<(Bytes, Outcome)>)
    ensures r.Ok? ==> |r.value.0| == |d| && r.value.1.WroteIncrementBlocks?
  {
    match ParseIncrement(content)
    case Err(e) => Err(e)
    case Ok(inc) =>
      if !BodyMatches(inc) then Err(BodyError(inc))
      else Ok((Filled(d, inc, |inc.blocks|, false),
               WroteIncrementBlocks(FilledCount(d, inc, |inc.blocks|, false))))
  }

  function RestoreOutcome(d: Bytes, base: Bytes): (r: Result<(Bytes, Outcome)>)
    ensures r.Ok? ==> |r.value.0| == |d| && r.value.1.Completed?
  {
    if WholePages(base) || PageCount(d) <= PageCount(base)
    then Ok((Restored(d, base, Min(PageCount(d), PageCount(base))), Completed))
    else Err(UnexpectedEof)
  }

  /** isPagedFile on what is on disk. */
  predicate IsPageFile(f: Path, d: Bytes) {
    f.paged && |d| != 0 && WholePages(d)
  }

  /** UnwrapNewFile and UnwrapExistingFile of the default unwrapper. */
  function Unwrapped(f: Path, local: Option<Bytes>, incremented: bool, content: Bytes): Result<(Bytes, Outcome)> {
    match local
    case None => if incremented then CreateOutcome(content) else Ok((content, Completed))
    case Some(d) =>
      if incremented then FillOutcome(d, content)
      else if IsPageFile(f, d) then RestoreOutcome(d, content)
      else Ok((d, Skipped))
  }

  function Lookup(disk: Disk, f: Path): Option<Bytes> {
    if f in disk then Some(disk[f]) else None
  }

  /** The data directory, and the tar interpreter working on it. */
  class DataDirectory {
    var files: Disk

    constructor ()
      ensures files == map[]
    {
      files := map[];
    }

    /** unwrapRegularFileNew on one tar member. A failure leaves the other files alone, and this one as it may be. */
    method UnwrapRegularFile(f: Path, incremented: bool, content: Bytes) returns (r: Result<Outcome>)
      modifies this
      ensures var u := Unwrapped(f, Lookup(old(files), f), incremented, content);
              && (r.Ok? <==> u.Ok?)
              && (r.Ok? ==> r.value == u.value.1 && files == old(files)[f := u.value.0])
              && (r.Err? ==> r.error == u.error)
      ensures forall g :: g != f ==> Lookup(files, g) == Lookup(old(files), g)
    {
      if f !in files {
        var file := new LocalFile(true, []);
        if incremented {
          var missing := CreateFileFromIncrement(content, file);
          files := files[f := file.data];
          if missing.Err? {
            return Err(missing.error);
          }
          return Ok(CreatedFromIncrement(missing.value));
        }
        files := files[f := content];
        return Ok(Completed);
      }
      var target := new LocalFile(true, files[f]);
      if incremented {
        var restored := WritePagesFromIncrement(content, target, false);
        files := files[f := target.data];
        if restored.Err? {
          return Err(restored.error);
        }
        return Ok(WroteIncrementBlocks(restored.value));
      }
      if IsPageFile(f, files[f]) {
        var done := RestoreMissingPages(content, target);
        files := files[f := target.data];
        if done.Err? {
          return Err(done.error);
        }
        return Ok(Completed);
      }
      assert files[f := files[f]] == files;
      return Ok(Skipped);
    }

    /** unwrapNew: every stored file that is wanted, in any order. */
    method Unwrap(b: Backup, wanted: set<Path>) returns (r: Result<map<Path, Outcome>>)
      modifies this
      ensures r.Ok? <==> Unwrappable(old(files), wanted, b)
      ensures r.Ok? ==> files == UnwrappedDisk(old(files), wanted, b)
      ensures r.Ok? ==> r.value == Outcomes(old(files), wanted, b)
      ensures r.Err? ==> exists f :: f in wanted && f in b.content && UnwrapOf(old(files), b, f) == Err(r.error)
      ensures forall g :: g !in wanted ==> Lookup(files, g) == Lookup(old(files), g)
    {
      hide Unwrapped;
      var todo := wanted * b.content.Keys;
      var outcomes: map<Path, Outcome> := map[];
      while todo != {}
        invariant todo <= wanted * b.content.Keys
        invariant outcomes.Keys == wanted * b.content.Keys - todo
        invariant forall f :: f in todo ==> Lookup(files, f) == Lookup(old(files), f)
        invariant forall f :: f in outcomes ==> UnwrapOf(old(files), b, f).Ok?
        invariant forall f :: f in outcomes ==> outcomes[f] == UnwrapOf(old(files), b, f).value.1
        invariant files.Keys == old(files).Keys + outcomes.Keys
        invariant forall f :: f in outcomes ==> files[f] == UnwrapOf(old(files), b, f).value.0
        invariant forall f :: f in old(files) && f !in outcomes ==> files[f] == old(files)[f]
        decreases todo
      {
        var f :| f in todo;
        ghost var before := files;
        var one := UnwrapRegularFile(f, Incremented(b, f), b.content[f]);
        assert Lookup(before, f) == Lookup(old(files), f);
        if one.Err? {
          assert UnwrapOf(old(files), b, f) == Err(one.error);
          return Err(one.error);
        }
        todo := todo - {f};
        outcomes := outcomes[f := one.value];
      }
      return Ok(outcomes);
    }
  }

  function UnwrapOf(disk: Disk, b: Backup, f: Path): Result<(Bytes, Outcome)>
    requires f in b.content
  {
    Unwrapped(f, Lookup(disk, f), Incremented(b, f), b.content[f])
  }

  predicate Unwrappable(disk: Disk, wanted: set<Path>, b: Backup) {
    forall f :: f in wanted && f in b.content ==> UnwrapOf(disk, b, f).Ok?
  }

  function UnwrappedDisk(disk: Disk, wanted: set<Path>, b: Backup): Disk
    requires Unwrappable(disk, wanted, b)
  {
    map f | f in disk.Keys + wanted * b.content.Keys ::
      if f in wanted && f in b.content then UnwrapOf(disk, b, f).value.0 else disk[f]
  }

  function Outcomes(disk: Disk, wanted: set<Path>, b: Backup): map<Path, Outcome>
    requires Unwrappable(disk, wanted, b)
  {
    map f | f in wanted * b.content.Keys :: UnwrapOf(disk, b, f).value.1
  }

  // ---- which files an older backup must supply -------------------------------

  predicate NeedsBase(b: Backup, f: Path) {
    f in b.files && (b.files[f].isSkipped || b.files[f].isIncremented)
  }

  predicate Described(b: Backup, wanted: set<Path>) {
    forall f :: f in wanted ==> f in b.files || f.utility
  }

  /** Panics in the source for a wanted file that is neither described nor a utility file. */
  method GetBaseFilesToUnwrap(b: Backup, wanted: set<Path>) returns (r: Result<set<Path>>)
    ensures r.Ok? <==> Described(b, wanted)
    ensures r.Ok? ==> r.value == set f | f in wanted && NeedsBase(b, f)
  {
    var todo, base := wanted, {};
    while todo != {}
      invariant todo <= wanted && Described(b, wanted - todo)
      invariant base == set f | f in wanted - todo && NeedsBase(b, f)
      decreases todo
    {
      var f :| f in todo;
      todo := todo - {f};
      if f !in b.files {
        if !f.utility {
          return Err(NoDescription);
        }
      } else if b.files[f].isSkipped || b.files[f].isIncremented {
        base := base + {f};
      }
    }
    return Ok(base);
  }

  // ---- FetchConfig ----------------------------------------------------------

  datatype Config = Config(wanted: set<Path>, missing: map<Path, int>)

  function AfterCreated(c: Config, outcomes: map<Path, Outcome>): Config {
    Config(set f | f in c.wanted && !(f in outcomes && outcomes[f] == CreatedFromIncrement(0)),
           map f | f in c.missing.Keys + c.wanted * outcomes.Keys
                   && (f in c.missing || (outcomes[f].CreatedFromIncrement? && outcomes[f].missing != 0)) ::
             if f in c.wanted && f in outcomes && outcomes[f].CreatedFromIncrement? && outcomes[f].missing != 0
             then outcomes[f].missing else c.missing[f])
  }

  /** Is `f` an increment target whose remaining count is known? */
  predicate Counted(c: Config, outcomes: map<Path, Outcome>, f: Path) {
    f in c.wanted && f in outcomes && outcomes[f].WroteIncrementBlocks? && f in c.missing
  }

  function AfterWritten(c: Config, outcomes: map<Path, Outcome>): Config {
    Config(set f | f in c.wanted && !(Counted(c, outcomes, f) && c.missing[f] - outcomes[f].restored <= 0),
           map f | f in c.missing ::
             if Counted(c, outcomes, f) && c.missing[f] - outcomes[f].restored > 0
             then c.missing[f] - outcomes[f].restored else c.missing[f])
  }

  function AfterCompleted(c: Config, outcomes: map<Path, Outcome>): Config {
    c.(wanted := set f | f in c.wanted && !(f in outcomes && outcomes[f].Completed?))
  }

  function AfterSkipping(c: Config, outcomes: map<Path, Outcome>): Config {
    AfterCompleted(AfterWritten(AfterCreated(c, outcomes), outcomes), outcomes)
  }

  class FetchConfig {
    var filesToUnwrap: set<Path>
    var missingBlocks: map<Path, int>

    constructor (files: set<Path>)
      ensures filesToUnwrap == files && missingBlocks == map[]
    {
      filesToUnwrap, missingBlocks := files, map[];
    }

    ghost function Value(): Config
      reads this
    {
      Config(filesToUnwrap, missingBlocks)
    }

    method ProcessCreatedPageFiles(outcomes: map<Path, Outcome>)
      modifies this
      ensures Value() == AfterCreated(old(Value()), outcomes)
    {
      var created := set f | f in outcomes && outcomes[f].CreatedFromIncrement?;
      var todo := created;
      while todo != {}
        invariant todo <= created
        invariant filesToUnwrap
               == set f | f in old(filesToUnwrap) && (f in todo || !(f in created && outcomes[f].missing == 0))
        invariant forall f :: f in missingBlocks <==>
                                f in old(missingBlocks)
                                || (f in created - todo && f in old(filesToUnwrap) && outcomes[f].missing != 0)
        invariant forall f :: f in missingBlocks ==>
                                missingBlocks[f] == if f in created - todo && f in old(filesToUnwrap) && outcomes[f].missing != 0
                                                    then outcomes[f].missing else old(missingBlocks)[f]
        decreases todo
      {
        var f :| f in todo;
        todo := todo - {f};
        if f in filesToUnwrap {
          if outcomes[f].missing == 0 {
            filesToUnwrap := filesToUnwrap - {f};
          } else {
            missingBlocks := missingBlocks[f := outcomes[f].missing];
          }
        }
      }
    }

    method ProcessWrittenIncrementFiles(outcomes: map<Path, Outcome>)
      modifies this
      ensures Value() == AfterWritten(old(Value()), outcomes)
    {
      var written := set f | f in outcomes && outcomes[f].WroteIncrementBlocks?;
      var todo := written;
      ghost var c := Value();
      while todo != {}
        invariant todo <= written
        invariant filesToUnwrap
               == set f | f in c.wanted
                          && (f in todo || !(Counted(c, outcomes, f) && c.missing[f] - outcomes[f].restored <= 0))
        invariant missingBlocks.Keys == c.missing.Keys
        invariant forall f :: f in missingBlocks ==>
                                missingBlocks[f] == if f !in todo && Counted(c, outcomes, f)
                                                       && c.missing[f] - outcomes[f].restored > 0
                                                    then c.missing[f] - outcomes[f].restored else c.missing[f]
        decreases todo
      {
        var f :| f in todo;
        todo := todo - {f};
        if f in filesToUnwrap && f in missingBlocks {
          var left := missingBlocks[f] - outcomes[f].restored;
          if left <= 0 {
            filesToUnwrap := filesToUnwrap - {f};
          } else {
            missingBlocks := missingBlocks[f := left];
          }
        }
      }
    }

    method ExcludeCompletedFiles(outcomes: map<Path, Outcome>)
      modifies this
      ensures Value() == AfterCompleted(old(Value()), outcomes)
    {
      var completed := set f | f in outcomes && outcomes[f].Completed?;
      filesToUnwrap := filesToUnwrap - completed;
    }

    method SkipRedundantFiles(outcomes: map<Path, Outcome>)
      modifies this
      ensures Value() == AfterSkipping(old(Value()), outcomes)
    {
      ProcessCreatedPageFiles(outcomes);
      ProcessWrittenIncrementFiles(outcomes);
      ExcludeCompletedFiles(outcomes);
    }
  }

  // ---- the new recursion, backups listed newest first ------------------------

  function FetchNew(disk: Disk, c: Config, chain: seq<Backup>, skip: bool): Result<Disk>
    requires chain != []
    decreases |chain|
  {
    var b := chain[0];
    if |chain| > 1 && !Described(b, c.wanted) then Err(NoDescription)
    else if !Unwrappable(disk, c.wanted, b) then Err(UnexpectedEof)
    else if |chain| == 1 then Ok(UnwrappedDisk(disk, c.wanted, b))
    else FetchNew(UnwrappedDisk(disk, c.wanted, b), NextConfig(disk, c, b, skip), chain[1..], skip)
  }

  function NextConfig(disk: Disk, c: Config, b: Backup, skip: bool): Config
    requires Unwrappable(disk, c.wanted, b)
  {
    var base := c.(wanted := set f | f in c.wanted && NeedsBase(b, f));
    if skip then AfterSkipping(base, Outcomes(disk, c.wanted, b)) else base
  }

  method DeltaFetchRecursionNew(chain: seq<Backup>, cfg: FetchConfig, dir: DataDirectory, skip: bool) returns (r: Result<()>)
    requires chain != []
    modifies cfg, dir
    ensures r.Ok? <==> FetchNew(old(dir.files), old(cfg.Value()), chain, skip).Ok?
    ensures r.Ok? ==> dir.files == FetchNew(old(dir.files), old(cfg.Value()), chain, skip).value
    ensures forall g :: g !in old(cfg.filesToUnwrap) ==> Lookup(dir.files, g) == Lookup(old(dir.files), g)
    decreases |chain|
  {
    var b := chain[0];
    if |chain| > 1 {
      var base := GetBaseFilesToUnwrap(b, cfg.filesToUnwrap);
      if base.Err? {
        return Err(base.error);
      }
      var outcomes := dir.Unwrap(b, cfg.filesToUnwrap);
      if outcomes.Err? {
        return Err(outcomes.error);
      }
      cfg.filesToUnwrap := base.value;
      if skip {
        cfg.SkipRedundantFiles(outcomes.value);
      }
      r := DeltaFetchRecursionNew(chain[1..], cfg, dir, skip);
      return;
    }
    var last := dir.Unwrap(b, cfg.filesToUnwrap);
    r := if last.Ok? then Ok(()) else Err(last.error);
  }
}
