/** A small Option type for error outcomes. */
module Wrappers {
  datatype Option<+T> = None | Some(value: T)
}

/**
 * Byte-level primitives of the extended-attribute wire format: 4-byte
 * big-endian "atoms" (the unsigned integers of the XDR encoding, section 4.2
 * of RFC 4506), Go's truncating `uint32(n)` conversion, zero-filled buffers
 * and ASCII literals as byte strings.
 */
module Wire {

  /** A byte, as Go's `byte`. */
  type byte = x: int | 0 <= x < 0x100

  /** An unsigned 32-bit value, as Go's `uint32`. */
  type uint32 = x: int | 0 <= x < 0x1_0000_0000

  /** Size in bytes of one packing atom (a uint32). */
  const ATOM_SIZE: nat := 4

  /** Largest value of a uint32, plus one. */
  const UINT32_LIMIT: nat := 0x1_0000_0000

  /** `binary.BigEndian.Uint32(s[i:])`: the atom whose first byte is `s[i]`. */
  function ReadUint(s: seq<byte>, i: nat): (r: uint32)
    requires i + ATOM_SIZE <= |s|
  {
    s[i] as int * 0x100_0000 + s[i + 1] as int * 0x1_0000 + s[i + 2] as int * 0x100 + s[i + 3] as int
  }

  /** The last `k` base-256 digits of `n`, most significant first. */
  function Digits(n: nat, k: nat): (r: seq<byte>)
    ensures |r| == k
    decreases k
  {
    if k == 0 then [] else Digits(n / 0x100, k - 1) + [n % 0x100]
  }

  /**
   * `binary.BigEndian.PutUint32(b, uint32(n))`: the four atom bytes of `n`.
   * Taking the last four base-256 digits is Go's `uint32(n)`, which keeps
   * `n` modulo 2^32.
   */
  function PutUint(n: nat): (r: seq<byte>)
    ensures |r| == ATOM_SIZE
  {
    Digits(n, ATOM_SIZE)
  }

  /** A larger multiplier gives a product larger by at least the multiplicand. */
  lemma MulStrict(m: nat, a: nat, b: nat)
    ensures a < b ==> m * a + m <= m * b
  {
    if a < b {
      var d: nat := b - a - 1;
      assert m * b == m * a + m + m * d;
    }
  }

  /** Division with remainder determines the remainder. */
  lemma ModOfDivision(n: nat, m: nat, t: nat, x: nat)
    requires n == m * t + x && x < m
    ensures n % m == x
  {
    var q, r := n / m, n % m;
    assert n == m * q + r;
    MulStrict(m, t, q);
    MulStrict(m, q, t);
  }

  /** The remainder modulo `0x100 * p`, from the last digit and the rest. */
  lemma ModOfLastDigit(n: nat, p: nat)
    requires p > 0
    ensures n / 0x100 % p * 0x100 + n % 0x100 == n % (0x100 * p)
  {
    var q, r := n / 0x100, n % 0x100;
    var t, u := q / p, q % p;
    assert q == p * t + u;
    assert n == 0x100 * q + r;
    assert n == (0x100 * p) * t + (u * 0x100 + r);
    ModOfDivision(n, 0x100 * p, t, u * 0x100 + r);
  }

  /** The four digits of an atom, least significant last. */
  lemma DigitsOfAtom(n: nat)
    ensures var n1 := n / 0x100; var n2 := n1 / 0x100; var n3 := n2 / 0x100;
      PutUint(n) == [n3 % 0x100, n2 % 0x100, n1 % 0x100, n % 0x100]
  {
    var n1 := n / 0x100;
    var n2 := n1 / 0x100;
    assert Digits(n, 4) == Digits(n1, 3) + [n % 0x100];
    assert Digits(n1, 3) == Digits(n2, 2) + [n1 % 0x100];
    assert Digits(n2, 2) == Digits(n2 / 0x100, 1) + [n2 % 0x100];
  }

  /** Writing a count or length and reading it back keeps it modulo 2^32. */
  lemma ReadPutUint(n: nat)
    ensures ReadUint(PutUint(n), 0) == n % UINT32_LIMIT
  {
    var n1 := n / 0x100;
    var n2 := n1 / 0x100;
    DigitsOfAtom(n);
    ModOfLastDigit(n2, 0x100);
    ModOfLastDigit(n1, 0x1_0000);
    ModOfLastDigit(n, 0x100_0000);
  }

  /** A uint32 is read back from wherever it was written. */
  lemma ReadUintOf(s: seq<byte>, i: nat, n: uint32)
    requires i + ATOM_SIZE <= |s| && s[i..i + ATOM_SIZE] == PutUint(n)
    ensures ReadUint(s, i) == n
  {
    var w := s[i..i + ATOM_SIZE];
    assert s[i] == w[0] && s[i + 1] == w[1] && s[i + 2] == w[2] && s[i + 3] == w[3];
    ReadPutUint(n);
  }

  /** Base-256 division with remainder determines the quotient and the last digit. */
  lemma DivModByte(n: nat, t: nat, x: nat)
    requires n == 0x100 * t + x && x < 0x100
    ensures n / 0x100 == t && n % 0x100 == x
  {
    var q, r := n / 0x100, n % 0x100;
    assert n == 0x100 * q + r;
    MulStrict(0x100, t, q);
    MulStrict(0x100, q, t);
  }

  /** Writing back an atom that was read gives the bytes it was read from. */
  lemma PutReadUint(s: seq<byte>, i: nat)
    requires i + ATOM_SIZE <= |s|
    ensures PutUint(ReadUint(s, i)) == s[i..i + ATOM_SIZE]
  {
    var n := ReadUint(s, i);
    var t2 := s[i] as int * 0x100 + s[i + 1] as int;
    var t1 := t2 * 0x100 + s[i + 2] as int;
    assert n == 0x100 * t1 + s[i + 3] as int;
    DivModByte(n, t1, s[i + 3]);
    DivModByte(t1, t2, s[i + 2]);
    DivModByte(t2, s[i], s[i + 1]);
    DigitsOfAtom(n);
    assert t2 / 0x100 % 0x100 == s[i];
  }

  /** A uint32 written at the front of a buffer reads back. */
  lemma ReadUintFront(n: uint32, rest: seq<byte>)
    ensures ATOM_SIZE <= |PutUint(n) + rest|
    ensures ReadUint(PutUint(n) + rest, 0) == n
  {
    var s := PutUint(n) + rest;
    assert s[0..ATOM_SIZE] == PutUint(n);
    ReadUintOf(s, 0, n);
  }

  // ---------------------------------------------------------------------
  // Slices of concatenations

  /** A slice of the middle part of `pre + mid + post`, at offsets relative to `mid`. */
  lemma SliceOfMiddle<T>(pre: seq<T>, mid: seq<T>, post: seq<T>, i: nat, j: nat)
    requires i <= j <= |mid|
    ensures (pre + mid + post)[|pre| + i..|pre| + j] == mid[i..j]
  {
    var s := pre + mid + post;
    assert forall k :: 0 <= k < j - i ==> s[|pre| + i..|pre| + j][k] == mid[i..j][k];
  }

  /** The middle part of a three-part concatenation, sliced out at its own offsets. */
  lemma MiddleSlice<T>(p: seq<T>, q: seq<T>, r: seq<T>)
    ensures (p + q + r)[|p|..|p| + |q|] == q
  {
    SliceOfMiddle(p, q, r, 0, |q|);
    assert q[0..|q|] == q;
  }

  /** A slice of a slice is a slice of the whole. */
  lemma SliceOfSlice<T>(s: seq<T>, c: nat, d: nat, i: nat, j: nat)
    requires c <= d <= |s| && i <= j <= d - c
    ensures s[c..d][i..j] == s[c + i..c + j]
  {
    forall k | 0 <= k < j - i
      ensures s[c..d][i..j][k] == s[c + i..c + j][k]
    {
      assert s[c..d][i..j][k] == s[c..d][i + k];
    }
  }

  /** A slice holding two concatenated sequences holds each of them. */
  lemma SplitSlice<T>(s: seq<T>, c: nat, p: seq<T>, q: seq<T>)
    requires c + |p| + |q| <= |s| && s[c..c + |p + q|] == p + q
    ensures s[c..c + |p|] == p
    ensures s[c + |p|..c + |p| + |q|] == q
  {
    SliceOfSlice(s, c, c + |p + q|, 0, |p|);
    SliceOfSlice(s, c, c + |p + q|, |p|, |p| + |q|);
    SliceOfMiddle([], p, q, 0, |p|);
    SliceOfMiddle(p, q, [], 0, |q|);
    assert [] + p + q == p + q + [] == p + q;
    assert p[0..|p|] == p && q[0..|q|] == q;
  }

  /** `SplitSlice` with the length of the first part given as `n`. */
  lemma SplitSliceAt<T>(s: seq<T>, c: nat, p: seq<T>, q: seq<T>, n: nat)
    requires n == |p| && c + |p| + |q| <= |s| && s[c..c + |p + q|] == p + q
    ensures s[c..c + n] == p
    ensures c + n + |q| <= |s| && s[c + n..c + n + |q|] == q
  {
    SplitSlice(s, c, p, q);
  }

  /** A slice is its two halves, cut anywhere in between. */
  lemma SliceCut<T>(s: seq<T>, i: nat, j: nat, k: nat)
    requires i <= j <= k <= |s|
    ensures s[i..k] == s[i..j] + s[j..k]
  {
    assert forall m :: 0 <= m < k - i ==> s[i..k][m] == (s[i..j] + s[j..k])[m];
  }

  /** A sequence holding the atom `n` and then `q`, and nothing more, is the packing of `n` followed by `q`. */
  lemma AtomThen(s: seq<byte>, n: nat, y: nat, q: seq<byte>)
    requires |s| == ATOM_SIZE + y && ReadUint(s, 0) == n && s[ATOM_SIZE..ATOM_SIZE + y] == q
    ensures s == PutUint(n) + q
  {
    PutReadUint(s, 0);
    SliceCut(s, 0, ATOM_SIZE, ATOM_SIZE + y);
    assert s == s[0..ATOM_SIZE + y];
  }

  /** A slice of length `k` whose two halves, of lengths `x` and `y`, are known is their concatenation. */
  lemma SliceOfTwo<T>(s: seq<T>, i: nat, x: nat, y: nat, k: nat, p: seq<T>, q: seq<T>)
    requires k == x + y && i + k <= |s| && s[i..i + x] == p && s[i + x..i + x + y] == q
    ensures s[i..i + k] == p + q
  {
    SliceCut(s, i, i + x, i + k);
  }

  /** Four atoms read at `c`, then `who`, then `pad`, are the bytes they were read from. */
  lemma AtomsReencode(s: seq<byte>, c: nat, w: nat, e: nat, t: nat, f: nat, m: nat, who: seq<byte>, pad: seq<byte>)
    requires c + 16 <= w <= e <= |s|
    requires ReadUint(s, c) == t && ReadUint(s, c + 4) == f && ReadUint(s, c + 8) == m && ReadUint(s, c + 12) == |who|
    requires s[c + 16..w] == who && s[w..e] == pad
    ensures s[c..e] == PutUint(t) + PutUint(f) + PutUint(m) + PutUint(|who|) + who + pad
  {
    PutReadUint(s, c);
    PutReadUint(s, c + 4);
    PutReadUint(s, c + 8);
    PutReadUint(s, c + 12);
    SliceCut(s, c, c + 4, e);
    SliceCut(s, c + 4, c + 8, e);
    SliceCut(s, c + 8, c + 12, e);
    SliceCut(s, c + 12, c + 16, e);
    SliceCut(s, c + 16, w, e);
  }

  /** The four atom-sized slices of four concatenated atoms. */
  lemma AtomSlices<T>(p: seq<T>, q: seq<T>, r: seq<T>, t: seq<T>)
    requires |p| == |q| == |r| == |t| == ATOM_SIZE
    ensures (p + q + r + t)[0..4] == p && (p + q + r + t)[4..8] == q
    ensures (p + q + r + t)[8..12] == r && (p + q + r + t)[12..16] == t
  {
    SliceOfMiddle([], p, q + r + t, 0, 4);
    assert p + q + r + t == [] + p + (q + r + t);
    SliceOfMiddle(p, q, r + t, 0, 4);
    assert p + q + r + t == p + q + (r + t);
    SliceOfMiddle(p + q, r, t, 0, 4);
    SliceOfMiddle(p + q + r, t, [], 0, 4);
    assert p + q + r + t == p + q + r + t + [];
  }

  /**
   * Four atoms and a string laid out at the front of `e`, where `e` sits at
   * offset `c` of `s`, sit at the same offsets from `c` in `s`.
   */
  lemma HeaderSlices<T>(s: seq<T>, c: nat, e: seq<T>, p: seq<T>, q: seq<T>, r: seq<T>, t: seq<T>, w: seq<T>)
    requires c + |e| <= |s| && s[c..c + |e|] == e && 16 + |w| <= |e|
    requires e[0..4] == p && e[4..8] == q && e[8..12] == r && e[12..16] == t && e[16..16 + |w|] == w
    ensures s[c..c + 4] == p && s[c + 4..c + 8] == q && s[c + 8..c + 12] == r && s[c + 12..c + 16] == t
    ensures s[c + 16..c + 16 + |w|] == w
  {
    SliceOfSlice(s, c, c + |e|, 0, 4);
    SliceOfSlice(s, c, c + |e|, 4, 8);
    SliceOfSlice(s, c, c + |e|, 8, 12);
    SliceOfSlice(s, c, c + |e|, 12, 16);
    SliceOfSlice(s, c, c + |e|, 16, 16 + |w|);
  }

  /** Dropping the last element of a sequence of two or more keeps the first in front. */
  lemma ButLastOfCons<T>(xs: seq<T>)
    requires |xs| > 1
    ensures xs[..|xs| - 1] == [xs[0]] + xs[1..][..|xs| - 2]
  {
  }

  /** A buffer holding `buffer + w`, appended to, holds `buffer + (w + l)`. */
  lemma Appended<T>(buffer: seq<T>, w: seq<T>, b0: seq<T>, l: seq<T>, b1: seq<T>)
    requires b0 == buffer + w && b1 == b0 + l
    ensures b1 == buffer + (w + l)
  {
  }

  // ---------------------------------------------------------------------
  // Zero-filled buffers

  /** `n` zero bytes: the contents of a buffer made by Go's `make`. */
  function Zeros(n: nat): (r: seq<byte>)
    ensures |r| == n && forall i :: 0 <= i < n ==> r[i] == 0
  {
    seq(n, _ => 0)
  }

  /** A run of zeros splits into two runs of zeros. */
  lemma ZerosSplit(m: nat, n: nat)
    ensures Zeros(m + n) == Zeros(m) + Zeros(n)
  {
  }

  /**
   * `buf[at:at+|w|]` overwritten with `w`: what `PutUint32` and `copy`
   * do to a slice that has room.
   */
  function Splice(buf: seq<byte>, at: nat, w: seq<byte>): (r: seq<byte>)
    requires at + |w| <= |buf|
    ensures |r| == |buf|
  {
    buf[..at] + w + buf[at + |w|..]
  }

  /** Writing `w` where the zeros start moves the written prefix forward over the zeros. */
  lemma SpliceZeros(pre: seq<byte>, w: seq<byte>, n: nat)
    requires |w| <= n
    ensures Splice(pre + Zeros(n), |pre|, w) == (pre + w) + Zeros(n - |w|)
  {
    var buf := pre + Zeros(n);
    assert buf[..|pre|] == pre;
    assert buf[|pre| + |w|..] == Zeros(n - |w|);
  }

  // ---------------------------------------------------------------------
  // ASCII text as bytes

  /** True when every character of `s` is 7-bit ASCII. */
  predicate IsAscii(s: string) {
    forall i :: 0 <= i < |s| ==> s[i] as int < 128
  }

  /** The byte of an ASCII character. */
  function Byte(c: char): (b: byte)
    requires c as int < 128
    ensures b == c as int
  {
    c as int
  }

  /** The bytes of an ASCII string, one per character. */
  function Ascii(s: string): (r: seq<byte>)
    requires IsAscii(s)
    ensures |r| == |s|
    ensures forall i :: 0 <= i < |s| ==> r[i] == s[i] as int
  {
    seq(|s|, i requires 0 <= i < |s| => Byte(s[i]))
  }
}
