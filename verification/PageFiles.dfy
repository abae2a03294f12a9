/** A local file as bytes, with the operating system's truncate and positioned write, and its view as pages. */
module PageFiles {
  import opened Bytes

  /** DatabasePageSize. */
  const PAGE: nat := 8192

  /** Length of a page header; a page whose header is all zero is called missing. */
  const HEADER_SIZE: nat := 24

  // ---- bytes ----------------------------------------------------------------

  /** The content after `Truncate(n)`: cut, or extended with zeros. */
  function Resize(d: Bytes, n: nat): (r: Bytes)
    ensures |r| == n
  {
    if n <= |d| then d[..n] else d + Zeros(n - |d|)
  }

  /** The content after `WriteAt(p, off)`: a gap before `off` reads as zeros. */
  function Write(d: Bytes, off: nat, p: Bytes): (r: Bytes)
    ensures |r| == if |d| < off + |p| then off + |p| else |d|
  {
    var e := if |d| < off + |p| then Resize(d, off + |p|) else d;
    e[..off] + p + e[off + |p|..]
  }

  // ---- pages ----------------------------------------------------------------

  predicate WholePages(d: Bytes) {
    |d| % PAGE == 0
  }

  function PageCount(d: Bytes): nat {
    |d| / PAGE
  }

  function PageAt(d: Bytes, i: nat): (p: Bytes)
    requires i < PageCount(d)
    ensures |p| == PAGE
  {
    d[i * PAGE..(i + 1) * PAGE]
  }

  /** The test behind "missing": bytes compared are those of the page header only. */
  predicate ZeroHeader(p: Bytes)
    requires |p| == PAGE
  {
    p[..HEADER_SIZE] == Zeros(HEADER_SIZE)
  }

  /** Missing means exactly that the first 24 bytes are zero. */
  lemma MissingExactly(p: Bytes)
    requires |p| == PAGE
    ensures ZeroHeader(p) <==> forall k :: 0 <= k < 24 ==> p[k] == 0
  {
    if ZeroHeader(p) {
      forall k | 0 <= k < 24
        ensures p[k] == 0
      {
        assert p[..HEADER_SIZE][k] == Zeros(HEADER_SIZE)[k];
      }
    }
  }

  /** How many pages of `d` a reverse restore still calls missing. */
  function MissingPages(d: Bytes): (n: nat)
    ensures n <= PageCount(d)
  {
    MissingUpTo(d, PageCount(d))
  }

  function MissingUpTo(d: Bytes, n: nat): (m: nat)
    requires n <= PageCount(d)
    ensures m <= n
  {
    if n == 0 then 0 else MissingUpTo(d, n - 1) + if ZeroHeader(PageAt(d, n - 1)) then 1 else 0
  }

  /** A file of whole pages is determined by its pages. */
  lemma SamePages(d: Bytes, e: Bytes)
    requires WholePages(d) && |d| == |e|
    requires forall i :: 0 <= i < PageCount(d) ==> PageAt(d, i) == PageAt(e, i)
    ensures d == e
  {
    forall k | 0 <= k < |d|
      ensures d[k] == e[k]
    {
      var i := k / PAGE;
      assert i < PageCount(d) && PageAt(d, i)[k % PAGE] == d[k] && PageAt(e, i)[k % PAGE] == e[k];
    }
  }

  lemma ResizeKeepsPages(d: Bytes, n: nat, i: nat)
    requires WholePages(d) && i < n
    ensures PageAt(Resize(d, n * PAGE), i) == if i < PageCount(d) then PageAt(d, i) else Zeros(PAGE)
  {
  }

  lemma WriteReplacesOnePage(d: Bytes, k: nat, p: Bytes)
    requires |p| == PAGE && WholePages(d)
    ensures var r := Write(d, k * PAGE, p);
            && WholePages(r)
            && PageCount(r) == (if k < PageCount(d) then PageCount(d) else k + 1)
            && PageAt(r, k) == p
            && forall i :: 0 <= i < PageCount(d) && i != k ==> PageAt(r, i) == PageAt(d, i)
  {
    var r := Write(d, k * PAGE, p);
    forall i | 0 <= i < PageCount(d) && i != k
      ensures PageAt(r, i) == PageAt(d, i)
    {
      WriteKeepsPage(d, k, p, i);
    }
  }

  lemma WriteKeepsPage(d: Bytes, k: nat, p: Bytes, i: nat)
    requires |p| == PAGE && WholePages(d) && i < PageCount(d) && i != k
    ensures PageAt(Write(d, k * PAGE, p), i) == PageAt(d, i)
  {
    var r := Write(d, k * PAGE, p);
    forall j | i * PAGE <= j < (i + 1) * PAGE
      ensures r[j] == d[j]
    {
    }
  }

  /** Two files that agree on their first `n` pages have as many missing pages among them. */
  lemma {:induction false} MissingUpToSame(d: Bytes, e: Bytes, n: nat)
    requires n <= PageCount(d) && n <= PageCount(e)
    requires forall i :: 0 <= i < n ==> PageAt(d, i) == PageAt(e, i)
    ensures MissingUpTo(d, n) == MissingUpTo(e, n)
  {
    if n > 0 {
      MissingUpToSame(d, e, n - 1);
    }
  }

  /** Writing one page changes the missing count by that page's own change. */
  lemma {:induction false} MissingAfterWrite(d: Bytes, k: nat, p: Bytes, n: nat)
    requires |p| == PAGE && WholePages(d) && k < n <= PageCount(d)
    ensures |Write(d, k * PAGE, p)| == |d|
    ensures MissingUpTo(Write(d, k * PAGE, p), n)
         == MissingUpTo(d, n) - (if ZeroHeader(PageAt(d, k)) then 1 else 0) + (if ZeroHeader(p) then 1 else 0)
  {
    var r := Write(d, k * PAGE, p);
    WriteReplacesOnePage(d, k, p);
    if n == k + 1 {
      MissingUpToSame(r, d, k);
    } else {
      MissingAfterWrite(d, k, p, n - 1);
    }
  }

  /** Writing over a missing page of the file. */
  lemma MissingAfterFill(d: Bytes, k: nat, p: Bytes)
    requires |p| == PAGE && WholePages(d) && k < PageCount(d) && ZeroHeader(PageAt(d, k))
    ensures MissingPages(Write(d, k * PAGE, p)) == MissingPages(d) - 1 + if ZeroHeader(p) then 1 else 0
  {
    MissingAfterWrite(d, k, p, PageCount(d));
  }

  /** Appending a page. */
  lemma MissingAfterAppend(d: Bytes, p: Bytes)
    requires |p| == PAGE && WholePages(d)
    ensures MissingPages(d + p) == MissingPages(d) + if ZeroHeader(p) then 1 else 0
  {
    var n := PageCount(d);
    forall i | 0 <= i < n
      ensures PageAt(d + p, i) == PageAt(d, i)
    {
    }
    MissingUpToSame(d + p, d, n);
    assert PageAt(d + p, n) == p;
  }

  /** A file with no missing page among its first `n` counts none, and the other way round. */
  lemma {:induction false} NoneMissing(d: Bytes, n: nat)
    requires n <= PageCount(d)
    ensures MissingUpTo(d, n) == 0 <==> forall i :: 0 <= i < n ==> !ZeroHeader(PageAt(d, i))
  {
    if n > 0 {
      NoneMissing(d, n - 1);
    }
  }
}
