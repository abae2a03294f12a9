/** Bytes, little-endian numbers and the result type shared by the whole model. */
module Bytes {

  type Byte = x: int | 0 <= x < 256

  type Bytes = seq<Byte>

  datatype Option<+T> = None | Some(value: T)

  /** Why an operation of the source returned an error. */
  datatype Error =
    | Eof
    | UnexpectedEof
    | InvalidHeader
    | UnknownHeader
    | DiffMapTooLong
    | FileMissing
    | NegativeSize
    | UnexpectedTarData
    | InvalidBlock
    | NoDescription

  datatype Result<+T> = Ok(value: T) | Err(error: Error)

  const UINT32: nat := 0x1_0000_0000
  const UINT64: nat := 0x1_0000_0000_0000_0000

  // ---- little-endian numbers ------------------------------------------------

  /** 256 to the power of `width`: the first number that needs more than `width` bytes. */
  function Range(width: nat): (r: nat)
    ensures r > 0
  {
    if width == 0 then 1 else 256 * Range(width - 1)
  }

  function Encode(n: nat, width: nat): (b: Bytes)
    ensures |b| == width
  {
    if width == 0 then [] else [n % 256] + Encode(n / 256, width - 1)
  }

  function Decode(b: Bytes): nat {
    if b == [] then 0 else b[0] + 256 * Decode(b[1..])
  }

  /** The first byte is the lowest. */
  lemma LittleEndian(b: Bytes)
    requires |b| == 4
    ensures Decode(b) == b[0] + 0x100 * (b[1] as int) + 0x1_0000 * (b[2] as int) + 0x100_0000 * (b[3] as int)
  {
    assert b[1..][1..] == b[2..] && b[2..][1..] == b[3..] && b[3..][1..] == [];
    assert Decode(b[3..]) == b[3];
    assert Decode(b[2..]) == b[2] + 256 * (b[3] as int);
  }

  lemma Widths()
    ensures Range(1) == 0x100 && Range(2) == 0x1_0000 && Range(4) == UINT32 && Range(8) == UINT64
  {
    assert Range(3) == 0x100_0000 && Range(4) == UINT32;
    assert Range(5) == 0x100 * UINT32;
    assert Range(6) == 0x1_0000 * UINT32;
    assert Range(7) == 0x100_0000 * UINT32;
  }

  lemma {:induction false} DecodeBound(b: Bytes)
    ensures Decode(b) < Range(|b|)
  {
    if b != [] {
      DecodeBound(b[1..]);
    }
  }

  lemma {:induction false} DecodeEncode(n: nat, width: nat)
    requires n < Range(width)
    ensures Decode(Encode(n, width)) == n
  {
    if width > 0 {
      assert Encode(n, width)[1..] == Encode(n / 256, width - 1);
      DecodeEncode(n / 256, width - 1);
    }
  }

  lemma {:induction false} EncodeDecode(b: Bytes)
    ensures Encode(Decode(b), |b|) == b
  {
    if b != [] {
      EncodeDecode(b[1..]);
      assert Decode(b) % 256 == b[0] && Decode(b) / 256 == Decode(b[1..]);
    }
  }

  lemma DecodeEncode4(n: nat)
    requires n < UINT32
    ensures Decode(Encode(n, 4)) == n
  {
    hide Encode, Decode;
    Widths();
    DecodeEncode(n, 4);
  }

  // ---- zeros and concatenation ----------------------------------------------

  function Zeros(n: nat): (z: Bytes)
    ensures |z| == n && forall i :: 0 <= i < n ==> z[i] == 0
  {
    seq(n, _ => 0)
  }

  function Concat(parts: seq<Bytes>): Bytes {
    if parts == [] then [] else parts[0] + Concat(parts[1..])
  }

  lemma {:induction false} ConcatAppend(xs: seq<Bytes>, ys: seq<Bytes>)
    ensures Concat(xs + ys) == Concat(xs) + Concat(ys)
  {
    if xs == [] {
      assert xs + ys == ys;
    } else {
      assert (xs + ys)[0] == xs[0] && (xs + ys)[1..] == xs[1..] + ys;
      ConcatAppend(xs[1..], ys);
    }
  }

  lemma ConcatOne(x: Bytes)
    ensures Concat([x]) == x
  {
    assert [x][1..] == [];
  }

  function Min(a: nat, b: nat): (m: nat)
    ensures m <= a && m <= b && (m == a || m == b)
  {
    if a < b then a else b
  }

  lemma SameElements<T>(a: seq<T>, b: seq<T>)
    requires multiset(a) == multiset(b)
    ensures forall x :: x in a <==> x in b
  {
    assert forall x :: x in a <==> x in multiset(a);
    assert forall x :: x in b <==> x in multiset(b);
  }
}
