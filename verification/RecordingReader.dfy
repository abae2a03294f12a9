/** Reading a WAL file through the recorder: the bytes pass on, and the pages are recorded on the way. */
module RecordingReader {
  import opened Bytes
  import opened WalPages
  import opened WalParts

  datatype Status = More | EndOfFile | PartialPage

  /** The whole pages of a file. */
  function Pages(file: Bytes): seq<Bytes> {
    if |file| < WAL_PAGE then [] else [file[..WAL_PAGE]] + Pages(file[WAL_PAGE..])
  }

  /** The length of the whole pages. */
  function WholeLength(n: nat): nat {
    n - n % WAL_PAGE
  }

  /** WalDeltaRecordingReader as a reader; `recorded` lists the pages it has given to the parser. */
  class WalDeltaRecordingReader {
    const file: Bytes
    var rest: Bytes
    var leftover: Bytes
    var recorded: seq<Bytes>
    ghost var delivered: nat

    /** What is delivered, left over and still to be read is the file; the pages recorded are those read. */
    ghost predicate Valid()
      reads this
    {
      && delivered + |leftover| + |rest| == |file| && |leftover| <= WAL_PAGE
      && file[delivered..] == leftover + rest
      && (delivered + |leftover|) % WAL_PAGE == 0
      && recorded + Pages(rest) == Pages(file)
    }

    constructor (file: Bytes)
      ensures Valid() && this.file == file && delivered == 0 && recorded == []
    {
      this.file, rest, leftover, recorded, delivered := file, file, [], [], 0;
      new;
      assert [] + Pages(file) == Pages(file);
      assert file[0..] == [] + file;
    }

    /** ReadPageData: at the end of the file it returns a page of zeros along with the end. */
    method ReadPageData() returns (status: Status)
      requires Valid() && leftover == []
      modifies this`leftover, this`rest
      ensures status == if |old(rest)| >= WAL_PAGE then More else if old(rest) == [] then EndOfFile else PartialPage
      ensures status == More ==> leftover == old(rest)[..WAL_PAGE] && rest == old(rest)[WAL_PAGE..]
      ensures status != More ==> rest == []
    {
      if |rest| == 0 {
        leftover := Zeros(WAL_PAGE);
        return EndOfFile;
      }
      if |rest| < WAL_PAGE {
        leftover, rest := [], [];
        return PartialPage;
      }
      leftover, rest := rest[..WAL_PAGE], rest[WAL_PAGE..];
      return More;
    }

    /** Hands out the first `part` bytes of what is left over. */
    method Take(part: nat) returns (out: Bytes)
      requires Valid() && part <= |leftover|
      modifies this`leftover, this`delivered
      ensures Valid() && delivered == old(delivered) + part && |leftover| == |old(leftover)| - part
      ensures out == file[old(delivered)..delivered]
    {
      hide Pages;
      assert file[delivered..][..part] == leftover[..part];
      assert file[delivered..][part..] == leftover[part..] + rest;
      assert file[delivered..][part..] == file[delivered + part..];
      assert file[delivered..][..part] == file[delivered..delivered + part];
      out := leftover[..part];
      leftover, delivered := leftover[part..], delivered + part;
    }

    /** The next page, recorded as it is read. */
    method NextPage() returns (status: Status)
      requires Valid() && leftover == []
      modifies this`leftover, this`rest, this`recorded
      ensures status == More ==> Valid() && |rest| < |old(rest)|
      ensures status != More ==> recorded == Pages(file) && delivered == WholeLength(|file|)
      ensures status == EndOfFile ==> |file| % WAL_PAGE == 0
      ensures status == PartialPage ==> |file| % WAL_PAGE != 0
    {
      hide Pages, WholeLength;
      ghost var before := rest;
      status := ReadPageData();
      if status != More {
        NoPages(before);
        assert recorded + [] == recorded;
        LastLength(file, before);
        return;
      }
      FirstPage(before);
      assert recorded + ([leftover] + Pages(rest)) == (recorded + [leftover]) + Pages(rest);
      assert [] + before == leftover + rest;
      recorded := recorded + [leftover];
    }

    /** Read into a buffer of `n` bytes. */
    method Read(n: nat) returns (out: Bytes, status: Status)
      requires Valid()
      modifies this
      ensures old(delivered) + |out| <= |file| && out == file[old(delivered)..old(delivered) + |out|]
      ensures status == More ==> Valid() && |out| == n && delivered == old(delivered) + n
      ensures status != More ==> recorded == Pages(file) && old(delivered) + |out| == WholeLength(|file|)
      ensures status == EndOfFile ==> |file| % WAL_PAGE == 0
      ensures status == PartialPage ==> |file| % WAL_PAGE != 0
    {
      hide Pages, WholeLength;
      out := [];
      ghost var from := delivered;
      while true
        invariant Valid() && |out| <= n && delivered == from + |out| && out == file[from..delivered]
        decreases |rest|
      {
        ghost var at := delivered;
        var enough := n - |out| <= |leftover|;
        var part := Take(if enough then n - |out| else |leftover|);
        assert file[from..at] + file[at..delivered] == file[from..delivered];
        out := out + part;
        if enough {
          return out, More;
        }
        status := NextPage();
        if status != More {
          return;
        }
      }
    }

    /** Reading to the end with buffers of any sizes. */
    method ReadAll() returns (all: Bytes, status: Status)
      requires Valid() && delivered == 0
      modifies this
      ensures all == file[..WholeLength(|file|)] && recorded == Pages(file)
      ensures status == if |file| % WAL_PAGE == 0 then EndOfFile else PartialPage
    {
      all := [];
      while true
        invariant Valid() && delivered <= |file| && all == file[..delivered]
        decreases |file| - delivered
      {
        var n: nat :| n > 0;
        ghost var before := delivered;
        var part;
        part, status := Read(n);
        assert file[..before] + file[before..before + |part|] == file[..before + |part|];
        all := all + part;
        if status != More {
          return;
        }
      }
    }
  }

  lemma NoPages(rest: Bytes)
    requires |rest| < WAL_PAGE
    ensures Pages(rest) == []
  {
  }

  lemma FirstPage(rest: Bytes)
    requires |rest| >= WAL_PAGE
    ensures Pages(rest) == [rest[..WAL_PAGE]] + Pages(rest[WAL_PAGE..])
  {
  }

  lemma LastLength(file: Bytes, rest: Bytes)
    requires |rest| < WAL_PAGE && |rest| <= |file| && (|file| - |rest|) % WAL_PAGE == 0
    ensures WholeLength(|file|) == |file| - |rest| && (|rest| == 0 <==> |file| % WAL_PAGE == 0)
  {
  }

  /**
   * Pushing a WAL file: whatever the read sizes, the uploader gets the file's bytes up to its last whole page, and the
   * manager records exactly the pages of the file.
   */
  method PushWalFile(manager: DeltaFileManager, segment: nat, file: Bytes) returns (uploaded: Bytes, status: Status)
    modifies manager
    ensures uploaded == file[..WholeLength(|file|)]
    ensures status == if |file| % WAL_PAGE == 0 then EndOfFile else PartialPage
    ensures status == EndOfFile ==> uploaded == file
    ensures var rec := RecordPages(START, Pages(file));
      && manager.partFiles == Recorded(old(manager.partFiles), segment, rec)
      && manager.locations == AddLocations(old(manager.locations), segment / SEGMENTS, Locations(rec.records))
      && manager.cancelledDeltas == old(manager.cancelledDeltas) + CancelledBy(segment, rec)
                                    + (if status == PartialPage then CancelledBy(segment, rec.(cancelled := true)) else {})
  {
    var reader := new WalDeltaRecordingReader(file);
    uploaded, status := reader.ReadAll();
    manager.RecordSegment(segment, reader.recorded);
    if status == PartialPage {
      manager.CancelRecording(segment);
    }
  }
}
