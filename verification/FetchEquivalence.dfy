/** The old recursion (base first) and the new one (newest first) restore the same page file, block by block. */
module FetchEquivalence {
  import opened Bytes
  import opened PageFiles
  import opened IncrementFormat
  import opened Restore
  import opened RestoreEquivalence
  import opened FetchFiles

  // ---- the old recursion, backups listed newest first ------------------------

  /** unwrapRegularFileOld: an increment needs the file, anything else replaces it. */
  function UnwrappedOld(local: Option<Bytes>, incremented: bool, content: Bytes): Result<Bytes> {
    if !incremented then Ok(content)
    else
      match ParseIncrement(content)
      case Err(e) => Err(e)
      case Ok(inc) =>
        match ApplyVerdict(local.Some?, false, inc)
        case Err(e) => Err(e)
        case Ok(_) => Ok(Applied(local.value, inc))
  }

  function UnwrapOldOf(disk: Disk, b: Backup, isDelta: bool, f: Path): Result<Bytes>
    requires f in b.content
  {
    UnwrappedOld(Lookup(disk, f), isDelta && Incremented(b, f), b.content[f])
  }

  predicate UnwrappableOld(disk: Disk, wanted: set<Path>, b: Backup, isDelta: bool) {
    forall f :: f in wanted && f in b.content ==> UnwrapOldOf(disk, b, isDelta, f).Ok?
  }

  function UnwrappedDiskOld(disk: Disk, wanted: set<Path>, b: Backup, isDelta: bool): Disk
    requires UnwrappableOld(disk, wanted, b, isDelta)
  {
    map f | f in disk.Keys + wanted * b.content.Keys ::
      if f in wanted && f in b.content then UnwrapOldOf(disk, b, isDelta, f).value else disk[f]
  }

  function FetchOld(disk: Disk, wanted: set<Path>, chain: seq<Backup>): Result<Disk>
    requires chain != []
    decreases |chain|
  {
    var b, isDelta := chain[0], |chain| > 1;
    if isDelta && !Described(b, wanted) then Err(NoDescription)
    else
      var below := if isDelta then FetchOld(disk, (set f | f in wanted && NeedsBase(b, f)), chain[1..]) else Ok(disk);
      match below
      case Err(e) => Err(e)
      case Ok(d) =>
        if !UnwrappableOld(d, wanted, b, isDelta) then Err(UnexpectedTarData)
        else Ok(UnwrappedDiskOld(d, wanted, b, isDelta))
  }

  /** unwrapOld: every stored file that is wanted, in any order. */
  method UnwrapOld(dir: DataDirectory, b: Backup, wanted: set<Path>, isDelta: bool) returns (r: Result<()>)
    modifies dir
    ensures r.Ok? <==> UnwrappableOld(old(dir.files), wanted, b, isDelta)
    ensures r.Ok? ==> dir.files == UnwrappedDiskOld(old(dir.files), wanted, b, isDelta)
    ensures r.Err? ==>
      exists f :: f in wanted && f in b.content && UnwrapOldOf(old(dir.files), b, isDelta, f) == Err(r.error)
  {
    hide Applied, ParseIncrement;
    var todo := wanted * b.content.Keys;
    ghost var start := dir.files;
    while todo != {}
      invariant todo <= wanted * b.content.Keys
      invariant dir.files.Keys == start.Keys + (wanted * b.content.Keys - todo)
      invariant forall f :: f in todo ==> Lookup(dir.files, f) == Lookup(start, f)
      invariant forall f :: f in wanted * b.content.Keys - todo ==>
                              var u := UnwrapOldOf(start, b, isDelta, f); u.Ok? && dir.files[f] == u.value
      invariant forall f :: f in start && f !in wanted * b.content.Keys ==> dir.files[f] == start[f]
      decreases todo
    {
      var f :| f in todo;
      var content := b.content[f];
      if isDelta && Incremented(b, f) {
        var file := new LocalFile(f in dir.files, if f in dir.files then dir.files[f] else []);
        var one := ApplyFileIncrement(file, content, false);
        if file.present {
          dir.files := dir.files[f := file.data];
        }
        if one.Err? {
          assert UnwrapOldOf(start, b, isDelta, f) == Err(one.error);
          return Err(one.error);
        }
      } else {
        dir.files := dir.files[f := content];
      }
      todo := todo - {f};
    }
    return Ok(());
  }

  method DeltaFetchRecursionOld(chain: seq<Backup>, wanted: set<Path>, dir: DataDirectory) returns (r: Result<()>)
    requires chain != []
    modifies dir
    ensures r.Ok? <==> FetchOld(old(dir.files), wanted, chain).Ok?
    ensures r.Ok? ==> dir.files == FetchOld(old(dir.files), wanted, chain).value
    decreases |chain|
  {
    var b := chain[0];
    if |chain| > 1 {
      var base := GetBaseFilesToUnwrap(b, wanted);
      if base.Err? {
        return Err(base.error);
      }
      r := DeltaFetchRecursionOld(chain[1..], base.value, dir);
      if r.Err? {
        return;
      }
    }
    r := UnwrapOld(dir, b, wanted, |chain| > 1);
  }

  // ---- the history of one file ----------------------------------------------

  /** Along the chain `f` is stored as increments, or skipped, down to a backup that stores it whole. */
  predicate StoredAs(chain: seq<Backup>, f: Path, base: Bytes, incs: seq<Increment>)
    requires chain != []
    decreases |chain|
  {
    var b := chain[0];
    if |chain| == 1 then
      f in b.content && !Incremented(b, f) && b.content[f] == base && incs == []
    else
      && f in b.files
      && (if b.files[f].isIncremented then
            && f in b.content && incs != []
            && ParseIncrement(b.content[f]) == Ok(incs[|incs| - 1])
            && SizeFits(incs[|incs| - 1])
            && StoredAs(chain[1..], f, base, incs[..|incs| - 1])
          else if b.files[f].isSkipped then
            f !in b.content && StoredAs(chain[1..], f, base, incs)
          else
            f in b.content && b.content[f] == base && incs == [])
  }

  lemma {:induction false} OldRestores(disk: Disk, wanted: set<Path>, chain: seq<Backup>,
                                       f: Path, base: Bytes, incs: seq<Increment>)
    requires chain != [] && FetchOld(disk, wanted, chain).Ok? && f in wanted
    requires WellFormedChain(base, incs) && StoredAs(chain, f, base, incs)
    ensures var out := FetchOld(disk, wanted, chain).value;
            f in out && out[f] == Forward(base, incs)
    decreases |chain|
  {
    var b := chain[0];
    if |chain| > 1 && NeedsBase(b, f) {
      var below := set g | g in wanted && NeedsBase(b, g);
      if b.files[f].isIncremented {
        OldRestores(disk, below, chain[1..], f, base, incs[..|incs| - 1]);
      } else {
        OldRestores(disk, below, chain[1..], f, base, incs);
      }
    }
  }

  lemma {:induction false} UnwantedKept(disk: Disk, c: Config, chain: seq<Backup>, f: Path)
    requires chain != [] && FetchNew(disk, c, chain, false).Ok? && f !in c.wanted && f in disk
    ensures var out := FetchNew(disk, c, chain, false).value; f in out && out[f] == disk[f]
    decreases |chain|
  {
    if |chain| > 1 {
      UnwantedKept(UnwrappedDisk(disk, c.wanted, chain[0]), NextConfig(disk, c, chain[0], false), chain[1..], f);
    }
  }

  /** What the new recursion makes of a page file that is on disk as `d`, or not yet there. */
  function NewResult(local: Option<Bytes>, base: Bytes, incs: seq<Increment>): Bytes
    requires WellFormedChain(base, incs)
  {
    match local
    case Some(d) => ReverseFrom(d, base, incs)
    case None => if incs == [] then base else Reverse(base, incs)
  }

  lemma BaseStep(f: Path, local: Option<Bytes>, base: Bytes)
    requires f.paged && WholePages(base) && (local.Some? ==> WholePages(local.value))
    ensures Unwrapped(f, local, false, base).Ok?
    ensures Unwrapped(f, local, false, base).value.0 == NewResult(local, base, [])
  {
  }

  lemma IncrementStep(f: Path, local: Option<Bytes>, content: Bytes, base: Bytes, incs: seq<Increment>)
    requires incs != [] && WellFormedChain(base, incs)
    requires ParseIncrement(content) == Ok(incs[|incs| - 1])
    ensures Unwrapped(f, local, true, content).Ok?
    ensures var d := Unwrapped(f, local, true, content).value.0;
            && (local.Some? ==> |d| == |local.value|)
            && (local.None? ==> WholePages(d))
            && NewResult(Some(d), base, incs[..|incs| - 1]) == NewResult(local, base, incs)
  {
    RankOfAll(incs[|incs| - 1]);
  }

  lemma {:induction false} NewRestores(disk: Disk, c: Config, chain: seq<Backup>,
                                       f: Path, base: Bytes, incs: seq<Increment>)
    requires chain != [] && FetchNew(disk, c, chain, false).Ok? && f in c.wanted && f.paged
    requires WellFormedChain(base, incs) && StoredAs(chain, f, base, incs)
    requires f in disk ==> WholePages(disk[f])
    ensures var out := FetchNew(disk, c, chain, false).value;
            f in out && out[f] == NewResult(Lookup(disk, f), base, incs)
    decreases |chain|
  {
    var b := chain[0];
    var disk' := UnwrappedDisk(disk, c.wanted, b);
    if |chain| == 1 || !NeedsBase(b, f) {
      BaseStep(f, Lookup(disk, f), base);
      if |chain| > 1 {
        UnwantedKept(disk', NextConfig(disk, c, b, false), chain[1..], f);
      }
    } else if b.files[f].isIncremented {
      IncrementStep(f, Lookup(disk, f), b.content[f], base, incs);
      NewRestores(disk', NextConfig(disk, c, b, false), chain[1..], f, base, incs[..|incs| - 1]);
    } else {
      assert Lookup(disk', f) == Lookup(disk, f);
      NewRestores(disk', NextConfig(disk, c, b, false), chain[1..], f, base, incs);
    }
  }

  /**
   * Both recursions, each from an empty directory: the page file `f` comes out the same
   * exactly when the newest version of each of its blocks survives the "missing page" test.
   */
  lemma NewEqualsOld(wanted: set<Path>, chain: seq<Backup>, f: Path, base: Bytes, incs: seq<Increment>)
    requires chain != [] && f in wanted && f.paged
    requires FetchOld(map[], wanted, chain).Ok? && FetchNew(map[], Config(wanted, map[]), chain, false).Ok?
    requires WellFormedChain(base, incs) && StoredAs(chain, f, base, incs)
    ensures var before, after := FetchOld(map[], wanted, chain).value,
                                 FetchNew(map[], Config(wanted, map[]), chain, false).value;
            f in before && f in after
            && (after[f] == before[f] <==>
                  incs == [] || forall i :: 0 <= i < Size(base, incs) ==> BlockAgrees(base, incs, i))
  {
    OldRestores(map[], wanted, chain, f, base, incs);
    NewRestores(map[], Config(wanted, map[]), chain, f, base, incs);
    if incs != [] {
      ReverseRefinesForward(base, incs);
    }
  }
}
