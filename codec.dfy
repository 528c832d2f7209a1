/**
 * The `system.nfs4_acl` extended-attribute encoding, as functions: the
 * padding rule, what the decoder (`nfs4_xattr_load`) computes, what the
 * encoder (`XAttrSize` / `PackXAttr`) produces, and the laws between them.
 *
 * Layout, every integer a 4-byte big-endian atom (the XDR encoding of a
 * list of `nfsace4`, section 6.2.1 of RFC 7530, with the variable-length
 * string padded as in section 4.11 of RFC 4506):
 *
 *   [num_aces] { [type][flags][access_mask][who_len][who bytes, padded to 4] } * num_aces
 */
module Codec {
  import opened Wrappers
  import opened Wire
  import opened AclTypes

  /** The four atoms in front of the who string of every entry. */
  const ACE_HEADER_SIZE: nat := 4 * ATOM_SIZE

  // ---------------------------------------------------------------------
  // Padding

  /**
   * `Nfs4ACEWhoStringAtomLength`: the number of bytes a who string of
   * `whoLength` bytes occupies, rounded up to whole atoms.
   */
  function PaddedLength(whoLength: nat): (r: nat)
    ensures r % ATOM_SIZE == 0
    ensures whoLength <= r < whoLength + ATOM_SIZE
    ensures whoLength % ATOM_SIZE == 0 ==> r == whoLength
  {
    var whoIncrement := whoLength / ATOM_SIZE * ATOM_SIZE;
    if whoIncrement < whoLength then whoIncrement + ATOM_SIZE else whoIncrement
  }

  /** The padded length is the least multiple of the atom size that holds the string. */
  lemma PaddedLengthIsLeast(whoLength: nat, m: nat)
    requires m % ATOM_SIZE == 0 && whoLength <= m
    ensures PaddedLength(whoLength) <= m
  {
    var r := PaddedLength(whoLength);
    var k, j := m / ATOM_SIZE, r / ATOM_SIZE;
    assert m == k * ATOM_SIZE && r == j * ATOM_SIZE;
  }

  /** The boundary cases: no padding at all for exact multiples. */
  lemma PaddedLengthExamples()
    ensures PaddedLength(0) == 0 && PaddedLength(4) == 4
    ensures PaddedLength(5) == 8 && PaddedLength(7) == 8
  {
  }

  // ---------------------------------------------------------------------
  // Decoding

  /**
   * The decoder's errors. `InvalidInputBuffer` and `BufferOverflow` are the
   * two errors nfs4_acl.go returns; `WhoOutOfRange` stands for the slice
   * at nfs4_acl.go:213, which in Go panics when the declared who length
   * runs past the buffer.
   */
  datatype DecodeError = InvalidInputBuffer | BufferOverflow | WhoOutOfRange

  /**
   * What the decoder hands back: the entries decoded so far and the error,
   * if any. Like the Go code, a failed decode still returns the entries
   * read before the failure.
   */
  datatype Decoded = Decoded(aces: seq<Ace>, err: Option<DecodeError>)

  /** Puts `pre` in front of the entries of `d`. */
  function Prepend(pre: seq<Ace>, d: Decoded): Decoded {
    Decoded(pre + d.aces, d.err)
  }

  /**
   * The test guarding an entry header. `AsWritten` is nfs4_acl.go:191,
   * `cur + 16 >= len` fails, so a header needs MORE than 16 bytes left;
   * `Corrected` accepts exactly 16.
   */
  datatype HeaderRule = AsWritten | Corrected

  predicate HeaderFits(rule: HeaderRule, cur: nat, len: nat) {
    match rule
    case AsWritten => cur + ACE_HEADER_SIZE < len
    case Corrected => cur + ACE_HEADER_SIZE <= len
  }

  /** The ACE whose header starts at `cur`, and the cursor past its padded who string. */
  function EntryAt(value: seq<byte>, cur: nat): (r: (Ace, nat))
    requires cur + ACE_HEADER_SIZE <= |value|
    requires cur + ACE_HEADER_SIZE + ReadUint(value, cur + 12) <= |value|
    ensures r.0.WellFormed() && |r.0.who| == ReadUint(value, cur + 12)
    ensures r.1 == cur + EntrySize(r.0)
  {
    var whoLen := ReadUint(value, cur + 12);
    var whoStart := cur + ACE_HEADER_SIZE;
    (NewNfs4Ace(ReadUint(value, cur), ReadUint(value, cur + 4), ReadUint(value, cur + 8),
                value[whoStart..whoStart + whoLen]),
     whoStart + PaddedLength(whoLen))
  }

  /** The loop of `nfs4_xattr_load`: `count` more entries from cursor `cur`. */
  function DecodeLoop(rule: HeaderRule, value: seq<byte>, cur: nat, count: nat): (r: Decoded)
    ensures |r.aces| <= count
    ensures |r.aces| == count <==> r.err == None
    decreases count
  {
    if count == 0 then Decoded([], None)
    else if cur >= |value| then Decoded([], Some(BufferOverflow))
    else if !HeaderFits(rule, cur, |value|) then Decoded([], Some(BufferOverflow))
    else if cur + ACE_HEADER_SIZE + ReadUint(value, cur + 12) > |value| then
      Decoded([], Some(WhoOutOfRange))
    else
      var (ace, next) := EntryAt(value, cur);
      Prepend([ace], DecodeLoop(rule, value, next, count - 1))
  }

  /**
   * The entry region of a value decoded from `cur` on, as a whole;
   * `DecodeWith` and the round-trip lemmas speak of it rather than of
   * the loop's steps.
   */
  function DecodeEntries(rule: HeaderRule, value: seq<byte>, cur: nat, count: nat): Decoded {
    DecodeLoop(rule, value, cur, count)
  }

  /** Decoding a whole attribute value under the given header rule. */
  function DecodeWith(rule: HeaderRule, value: seq<byte>): Decoded {
    if |value| < ATOM_SIZE then Decoded([], Some(InvalidInputBuffer))
    else DecodeEntries(rule, value, ATOM_SIZE, ReadUint(value, 0))
  }

  /** `nfs4_xattr_load` as written. */
  function Decode(value: seq<byte>): (r: Decoded)
    ensures r.err == None ==> ATOM_SIZE <= |value| && |r.aces| == ReadUint(value, 0)
    ensures ATOM_SIZE <= |value| ==> |r.aces| <= ReadUint(value, 0)
  {
    DecodeWith(AsWritten, value)
  }

  /** A buffer shorter than one atom is rejected before anything is read. */
  lemma DecodeShortBuffer(value: seq<byte>)
    requires |value| < ATOM_SIZE
    ensures Decode(value) == Decoded([], Some(InvalidInputBuffer))
  {
  }

  /**
   * As written, an entry header needs strictly more than 16 bytes: with 16
   * or fewer left (the cursor at or past the end included), the entry fails
   * with `BufferOverflow` and nothing of it is read.
   */
  lemma DecodeHeaderNeedsMoreThan16(value: seq<byte>, cur: nat, count: nat)
    requires count > 0 && |value| <= cur + ACE_HEADER_SIZE
    ensures DecodeEntries(AsWritten, value, cur, count) == Decoded([], Some(BufferOverflow))
  {
  }

  /** A who length that runs past the buffer is an error, not a read out of bounds. */
  lemma DecodeWhoOverrun(rule: HeaderRule, value: seq<byte>, cur: nat, count: nat)
    requires count > 0 && HeaderFits(rule, cur, |value|)
    requires cur + ACE_HEADER_SIZE + ReadUint(value, cur + 12) > |value|
    ensures DecodeEntries(rule, value, cur, count) == Decoded([], Some(WhoOutOfRange))
  {
  }

  /**
   * The decoder yields at most the declared number of entries, and all of
   * them exactly when it reports no error. Every entry's who-type is the
   * one derived from its who string.
   */
  lemma {:induction false} DecodeEntriesShape(rule: HeaderRule, value: seq<byte>, cur: nat, count: nat)
    ensures var d := DecodeEntries(rule, value, cur, count);
      && |d.aces| <= count
      && (|d.aces| == count <==> d.err == None)
      && forall i :: 0 <= i < |d.aces| ==> d.aces[i].WellFormed()
    decreases count
  {
    if count > 0 && cur < |value| && HeaderFits(rule, cur, |value|)
       && cur + ACE_HEADER_SIZE + ReadUint(value, cur + 12) <= |value| {
      var (ace, next) := EntryAt(value, cur);
      DecodeEntriesShape(rule, value, next, count - 1);
    }
  }

  /**
   * On success the decoder returns exactly `num_aces` well-formed entries;
   * on failure it returns fewer.
   */
  lemma DecodeCount(value: seq<byte>)
    requires ATOM_SIZE <= |value|
    ensures var d := Decode(value);
      && (|d.aces| == ReadUint(value, 0) <==> d.err == None)
      && |d.aces| <= ReadUint(value, 0)
      && forall i :: 0 <= i < |d.aces| ==> d.aces[i].WellFormed()
  {
    DecodeEntriesShape(AsWritten, value, ATOM_SIZE, ReadUint(value, 0));
  }

  /**
   * A successful entry is the one read at the cursor: big-endian type,
   * flags and mask, then `who_len` bytes of who; the next entry starts 16
   * bytes plus the padded who length further on.
   */
  lemma DecodeFirstEntry(rule: HeaderRule, value: seq<byte>, cur: nat, count: nat)
    requires count > 0 && DecodeEntries(rule, value, cur, count).err == None
    ensures cur + ACE_HEADER_SIZE <= |value|
    ensures var whoLen := ReadUint(value, cur + 12);
      var d := DecodeEntries(rule, value, cur, count);
      && cur + ACE_HEADER_SIZE + whoLen <= |value|
      && |d.aces| > 0
      && d.aces[0].aceType == ReadUint(value, cur)
      && d.aces[0].flags == ReadUint(value, cur + 4)
      && d.aces[0].accessMask == ReadUint(value, cur + 8)
      && d.aces[0].who == value[cur + ACE_HEADER_SIZE..cur + ACE_HEADER_SIZE + whoLen]
      && d.aces[0].whoType == GetWhoType(d.aces[0].who)
      && d.aces[1..] == DecodeEntries(rule, value, cur + ACE_HEADER_SIZE + PaddedLength(whoLen), count - 1).aces
  {
  }

  // ---------------------------------------------------------------------
  // Encoding

  /** One packed entry: four atoms, the who bytes, zero padding. */
  function EncodeAce(a: Ace): (r: seq<byte>)
    ensures |r| == EntrySize(a)
  {
    PutUint(a.aceType) + PutUint(a.flags) + PutUint(a.accessMask) + PutUint(|a.who|)
    + a.who + Zeros(PaddedLength(|a.who|) - |a.who|)
  }

  /** The packed entries, in list order. */
  function EncodeAces(aces: seq<Ace>): seq<byte> {
    if aces == [] then [] else EncodeAce(aces[0]) + EncodeAces(aces[1..])
  }

  /** `PackXAttr`: the entry count, then every entry. */
  function Encode(aces: seq<Ace>): (r: seq<byte>)
    ensures |r| == EncodedSize(aces)
  {
    EncodeAcesLength(aces);
    PutUint(|aces|) + EncodeAces(aces)
  }

  /** The bytes one entry takes: four atoms and the padded who string. */
  function EntrySize(a: Ace): nat {
    ACE_HEADER_SIZE + PaddedLength(|a.who|)
  }

  /** Sum of the entry sizes. */
  function EntriesSize(aces: seq<Ace>): nat {
    if aces == [] then 0 else EntrySize(aces[0]) + EntriesSize(aces[1..])
  }

  /** Every entry, and so every list of entries, takes whole atoms. */
  lemma {:induction false} EntriesSizeInAtoms(aces: seq<Ace>)
    ensures EntriesSize(aces) % ATOM_SIZE == 0
    decreases |aces|
  {
    if aces != [] {
      EntriesSizeInAtoms(aces[1..]);
    }
  }

  /** `XAttrSize`: one atom for the count plus every entry. */
  function EncodedSize(aces: seq<Ace>): (r: nat)
    ensures r >= ATOM_SIZE && r % ATOM_SIZE == 0
  {
    EntriesSizeInAtoms(aces);
    ATOM_SIZE + EntriesSize(aces)
  }

  /** Encoding distributes over concatenation of entry lists. */
  lemma {:induction false} EncodeAcesAppend(xs: seq<Ace>, ys: seq<Ace>)
    ensures EncodeAces(xs + ys) == EncodeAces(xs) + EncodeAces(ys)
    ensures EntriesSize(xs + ys) == EntriesSize(xs) + EntriesSize(ys)
    decreases |xs|
  {
    if xs == [] {
      assert xs + ys == ys;
    } else {
      assert (xs + ys)[1..] == xs[1..] + ys;
      EncodeAcesAppend(xs[1..], ys);
    }
  }

  /** The packed entries take exactly the summed entry sizes. */
  lemma {:induction false} EncodeAcesLength(aces: seq<Ace>)
    ensures |EncodeAces(aces)| == EntriesSize(aces)
    decreases |aces|
  {
    if aces != [] {
      EncodeAcesLength(aces[1..]);
    }
  }

  // ---------------------------------------------------------------------
  // Round trip

  /**
   * What the encoder needs for its output to decode back to the same list:
   * at most 2^32 - 1 entries and who strings (their lengths are written as
   * uint32), and every who-type derived from its who string.
   */
  predicate Encodable(aces: seq<Ace>) {
    && |aces| < UINT32_LIMIT
    && forall i :: 0 <= i < |aces| ==> aces[i].WellFormed() && |aces[i].who| < UINT32_LIMIT
  }

  /** The last entry's who string is empty. */
  predicate LastWhoEmpty(aces: seq<Ace>) {
    aces != [] && aces[|aces| - 1].who == []
  }

  /** Where the fields of an entry sit in its encoding. */
  lemma EncodeAceFields(a: Ace)
    ensures |EncodeAce(a)| == EntrySize(a)
    ensures EncodeAce(a)[0..4] == PutUint(a.aceType)
    ensures EncodeAce(a)[4..8] == PutUint(a.flags)
    ensures EncodeAce(a)[8..12] == PutUint(a.accessMask)
    ensures EncodeAce(a)[12..16] == PutUint(|a.who|)
    ensures EncodeAce(a)[16..16 + |a.who|] == a.who
  {
    var e := EncodeAce(a);
    var h := PutUint(a.aceType) + PutUint(a.flags) + PutUint(a.accessMask) + PutUint(|a.who|);
    assert e == h + a.who + Zeros(PaddedLength(|a.who|) - |a.who|);
    assert e[0..16] == h;
    AtomSlices(PutUint(a.aceType), PutUint(a.flags), PutUint(a.accessMask), PutUint(|a.who|));
    SliceOfMiddle(h, a.who, Zeros(PaddedLength(|a.who|) - |a.who|), 0, |a.who|);
  }

  /** The decoder, looking at offset `c` of `s`, reads `a` and moves on by its entry size. */
  predicate ReadsEntry(s: seq<byte>, c: nat, a: Ace) {
    && c + EntrySize(a) <= |s|
    && ReadUint(s, c + 12) == |a.who|
    && EntryAt(s, c) == (a, c + EntrySize(a))
  }

  /** An entry laid out at `c` as the encoder lays it out is what `EntryAt` reads there. */
  lemma EntryAtLayout(s: seq<byte>, c: nat, a: Ace)
    requires a.WellFormed() && |a.who| < UINT32_LIMIT
    requires c + ACE_HEADER_SIZE + |a.who| <= |s|
    requires s[c..c + 4] == PutUint(a.aceType) && s[c + 4..c + 8] == PutUint(a.flags)
    requires s[c + 8..c + 12] == PutUint(a.accessMask) && s[c + 12..c + 16] == PutUint(|a.who|)
    requires s[c + ACE_HEADER_SIZE..c + ACE_HEADER_SIZE + |a.who|] == a.who
    ensures ReadUint(s, c + 12) == |a.who|
    ensures EntryAt(s, c) == (a, c + EntrySize(a))
  {
    ReadUintOf(s, c, a.aceType);
    ReadUintOf(s, c + 4, a.flags);
    ReadUintOf(s, c + 8, a.accessMask);
    ReadUintOf(s, c + 12, |a.who|);
    var (ace, next) := EntryAt(s, c);
    assert ace == NewNfs4Ace(a.aceType, a.flags, a.accessMask, a.who);
    WellFormedIsConstructed(a);
  }

  /** The fields of an entry encoded at `c`, each at its own offset. */
  lemma EncodedFields(s: seq<byte>, c: nat, a: Ace)
    requires c + EntrySize(a) <= |s| && s[c..c + EntrySize(a)] == EncodeAce(a)
    ensures c + ACE_HEADER_SIZE + |a.who| <= |s|
    ensures s[c..c + 4] == PutUint(a.aceType) && s[c + 4..c + 8] == PutUint(a.flags)
    ensures s[c + 8..c + 12] == PutUint(a.accessMask) && s[c + 12..c + 16] == PutUint(|a.who|)
    ensures s[c + ACE_HEADER_SIZE..c + ACE_HEADER_SIZE + |a.who|] == a.who
  {
    EncodeAceFields(a);
    HeaderSlices(s, c, EncodeAce(a), PutUint(a.aceType), PutUint(a.flags), PutUint(a.accessMask),
                 PutUint(|a.who|), a.who);
  }

  /** An entry encoded at `c` is the one `EntryAt` reads there. */
  lemma EntryAtEncoded(s: seq<byte>, c: nat, a: Ace)
    requires a.WellFormed() && |a.who| < UINT32_LIMIT
    requires c + EntrySize(a) <= |s| && s[c..c + EntrySize(a)] == EncodeAce(a)
    ensures ReadsEntry(s, c, a)
  {
    EncodedFields(s, c, a);
    EntryAtLayout(s, c, a);
  }

  /** The decoder reads `aces` one after the other from offset `c` of `s`. */
  predicate ReadsAll(s: seq<byte>, c: nat, aces: seq<Ace>)
    decreases |aces|
  {
    aces == [] || (ReadsEntry(s, c, aces[0]) && ReadsAll(s, c + EntrySize(aces[0]), aces[1..]))
  }

  /** The entry region of `s` from `c` on holds `aces`, as a whole rather than entry by entry. */
  predicate ReadsEntries(s: seq<byte>, c: nat, aces: seq<Ace>) {
    ReadsAll(s, c, aces)
  }

  /** Reading the first entry and then the rest is reading the list. */
  lemma ReadsEntriesCons(s: seq<byte>, c: nat, aces: seq<Ace>)
    requires aces != [] && ReadsEntry(s, c, aces[0]) && ReadsEntries(s, c + EntrySize(aces[0]), aces[1..])
    ensures ReadsEntries(s, c, aces)
  {
  }

  /** Every entry is well-formed and its who length fits in a uint32 (as a recursion on the list). */
  predicate AllFit(aces: seq<Ace>)
    decreases |aces|
  {
    aces == [] || (aces[0].WellFormed() && |aces[0].who| < UINT32_LIMIT && AllFit(aces[1..]))
  }

  /** The entry conditions of `Encodable`, one entry at a time. */
  lemma {:induction false} EncodableAllFit(aces: seq<Ace>)
    requires Encodable(aces)
    ensures AllFit(aces)
    decreases |aces|
  {
    if aces != [] {
      assert forall i :: 0 <= i < |aces| - 1 ==> aces[1..][i] == aces[i + 1];
      EncodableAllFit(aces[1..]);
    }
  }

  /** The encoding of a list, found at offset `c` of `s`, is read back from there. */
  lemma {:induction false} ReadsEncodedEntries(s: seq<byte>, c: nat, aces: seq<Ace>)
    requires AllFit(aces)
    requires c + |EncodeAces(aces)| <= |s| && s[c..c + |EncodeAces(aces)|] == EncodeAces(aces)
    ensures ReadsEntries(s, c, aces)
    decreases |aces|
  {
    if aces != [] {
      assert |EncodeAce(aces[0])| == EntrySize(aces[0]);
      SplitSliceAt(s, c, EncodeAce(aces[0]), EncodeAces(aces[1..]), EntrySize(aces[0]));
      EntryAtEncoded(s, c, aces[0]);
      ReadsEncodedEntries(s, c + EntrySize(aces[0]), aces[1..]);
      ReadsEntriesCons(s, c, aces);
    }
  }

  /** True when entries read back to back from `c` end exactly at the end of `s`. */
  predicate EndsBuffer(s: seq<byte>, c: nat, aces: seq<Ace>) {
    c + EntriesSize(aces) == |s|
  }

  /** Entries read back to back lie within the buffer. */
  lemma {:induction false} ReadsEntriesBound(s: seq<byte>, c: nat, aces: seq<Ace>)
    requires ReadsEntries(s, c, aces)
    ensures aces != [] ==> c + EntriesSize(aces) <= |s|
    decreases |aces|
  {
    if aces != [] {
      ReadsEntriesBound(s, c + EntrySize(aces[0]), aces[1..]);
    }
  }

  /** A step of the decoder whose header fits and whose who string lies within the buffer. */
  lemma DecodeNext(rule: HeaderRule, s: seq<byte>, c: nat, count: nat, a: Ace, next: nat)
    requires count > 0 && c < |s| && HeaderFits(rule, c, |s|)
    requires c + ACE_HEADER_SIZE + ReadUint(s, c + 12) <= |s|
    requires EntryAt(s, c) == (a, next)
    ensures DecodeEntries(rule, s, c, count) == Prepend([a], DecodeEntries(rule, s, next, count - 1))
  {
  }

  /** One step of the decoder over an entry it reads and whose header fits. */
  lemma DecodeStep(rule: HeaderRule, s: seq<byte>, c: nat, a: Ace, count: nat, rest: nat)
    requires ReadsEntry(s, c, a) && HeaderFits(rule, c, |s|) && count == rest + 1
    ensures DecodeEntries(rule, s, c, count) == Prepend([a], DecodeEntries(rule, s, c + EntrySize(a), rest))
  {
    assert c + ACE_HEADER_SIZE + ReadUint(s, c + 12) <= |s| by {
      assert |a.who| <= PaddedLength(|a.who|);
    }
    DecodeNext(rule, s, c, count, a, c + EntrySize(a));
  }

  /**
   * The first header of entries read back to back fits, except as written
   * for a last entry with an empty who string that ends the buffer.
   */
  lemma ReadsHeaderFits(rule: HeaderRule, s: seq<byte>, c: nat, aces: seq<Ace>)
    requires aces != [] && ReadsEntries(s, c, aces)
    requires rule == Corrected || !LastWhoEmpty(aces) || !EndsBuffer(s, c, aces) || |aces| > 1
    ensures HeaderFits(rule, c, |s|)
  {
    ReadsEntriesBound(s, c, aces);
    if |aces| > 1 {
      assert EntriesSize(aces[1..]) >= EntrySize(aces[1]);
    } else {
      assert EntriesSize(aces) == EntrySize(aces[0]);
    }
    assert aces[0].who != [] ==> PaddedLength(|aces[0].who|) > 0;
  }

  /** The as-written failure condition of a list is that of its tail, unless the list is a lone entry. */
  lemma LastFailsOfTail(s: seq<byte>, c: nat, aces: seq<Ace>)
    requires |aces| > 1
    ensures LastWhoEmpty(aces) == LastWhoEmpty(aces[1..])
    ensures EndsBuffer(s, c, aces) == EndsBuffer(s, c + EntrySize(aces[0]), aces[1..])
  {
    assert aces[|aces| - 1] == aces[1..][|aces| - 2];
  }

  /** A list that does not fail as written leaves a tail that does not either. */
  lemma TailDoesNotFail(rule: HeaderRule, s: seq<byte>, c: nat, aces: seq<Ace>)
    requires aces != []
    requires rule == Corrected || !LastWhoEmpty(aces) || !EndsBuffer(s, c, aces)
    ensures rule == Corrected || !LastWhoEmpty(aces[1..]) || !EndsBuffer(s, c + EntrySize(aces[0]), aces[1..])
  {
    if |aces| > 1 {
      LastFailsOfTail(s, c, aces);
    }
  }

  /** A list of several entries that fails as written leaves a tail that fails too. */
  lemma TailFails(s: seq<byte>, c: nat, aces: seq<Ace>)
    requires |aces| > 1 && LastWhoEmpty(aces) && EndsBuffer(s, c, aces)
    ensures LastWhoEmpty(aces[1..]) && EndsBuffer(s, c + EntrySize(aces[0]), aces[1..])
  {
    LastFailsOfTail(s, c, aces);
  }

  /**
   * The first step of decoding entries that read back to back: it returns
   * the first entry, followed by what the rest decodes to, and the rest
   * read back to back after it.
   */
  lemma DecodeFirstRead(rule: HeaderRule, s: seq<byte>, c: nat, aces: seq<Ace>)
    requires aces != [] && ReadsEntries(s, c, aces)
    requires rule == Corrected || !LastWhoEmpty(aces) || !EndsBuffer(s, c, aces) || |aces| > 1
    ensures DecodeEntries(rule, s, c, |aces|) == Prepend([aces[0]], DecodeEntries(rule, s, c + EntrySize(aces[0]), |aces[1..]|))
    ensures ReadsEntries(s, c + EntrySize(aces[0]), aces[1..])
  {
    ReadsHeaderFits(rule, s, c, aces);
    DecodeStep(rule, s, c, aces[0], |aces|, |aces[1..]|);
  }

  /** The first entry put back in front of the decoded rest of a list. */
  lemma PrependFirst(aces: seq<Ace>, d: Decoded, err: Option<DecodeError>)
    requires aces != [] && d == Decoded(aces[1..], err)
    ensures Prepend([aces[0]], d) == Decoded(aces, err)
  {
    assert [aces[0]] + aces[1..] == aces;
  }

  /** The first entry put back in front of the decoded rest of a list but its last entry. */
  lemma PrependButLast(aces: seq<Ace>, d: Decoded, err: Option<DecodeError>)
    requires |aces| > 1 && d == Decoded(aces[1..][..|aces[1..]| - 1], err)
    ensures Prepend([aces[0]], d) == Decoded(aces[..|aces| - 1], err)
  {
    ButLastOfCons(aces);
  }

  /**
   * Decoding entries that read back to back returns them all, unless, as
   * written, they end the buffer and the last who string is empty.
   */
  lemma {:induction false} DecodeReadsEntries(rule: HeaderRule, s: seq<byte>, c: nat, aces: seq<Ace>)
    requires ReadsEntries(s, c, aces)
    requires rule == Corrected || !LastWhoEmpty(aces) || !EndsBuffer(s, c, aces)
    ensures DecodeEntries(rule, s, c, |aces|) == Decoded(aces, None)
    decreases |aces|
  {
    if aces != [] {
      DecodeFirstRead(rule, s, c, aces);
      TailDoesNotFail(rule, s, c, aces);
      DecodeReadsEntries(rule, s, c + EntrySize(aces[0]), aces[1..]);
      PrependFirst(aces, DecodeEntries(rule, s, c + EntrySize(aces[0]), |aces[1..]|), None);
    }
  }

  /**
   * As written, entries that read back to back, end the buffer and end
   * with an empty who string decode to all but the last: the last entry's
   * header has only 16 bytes left and fails with `BufferOverflow`.
   */
  lemma {:induction false} DecodeReadsEntriesLastEmpty(s: seq<byte>, c: nat, aces: seq<Ace>)
    requires ReadsEntries(s, c, aces) && LastWhoEmpty(aces) && EndsBuffer(s, c, aces)
    ensures DecodeEntries(AsWritten, s, c, |aces|) == Decoded(aces[..|aces| - 1], Some(BufferOverflow))
    decreases |aces|
  {
    if |aces| == 1 {
      assert EntriesSize(aces) == EntrySize(aces[0]);
      assert aces[..|aces| - 1] == [];
    } else {
      DecodeFirstRead(AsWritten, s, c, aces);
      TailFails(s, c, aces);
      DecodeReadsEntriesLastEmpty(s, c + EntrySize(aces[0]), aces[1..]);
      PrependButLast(aces, DecodeEntries(AsWritten, s, c + EntrySize(aces[0]), |aces[1..]|), Some(BufferOverflow));
    }
  }

  /** The count atom at the front of an encoding, followed by anything, reads back as the count. */
  lemma EncodedCount(aces: seq<Ace>, post: seq<byte>)
    requires |aces| < UINT32_LIMIT
    ensures ATOM_SIZE <= |Encode(aces) + post|
    ensures ReadUint(Encode(aces) + post, 0) == |aces|
  {
    var t := EncodeAces(aces) + post;
    assert Encode(aces) + post == PutUint(|aces|) + t;
    ReadUintFront(|aces|, t);
  }

  /**
   * Round trip of the code as written: decoding `PackXAttr`'s output gives
   * back the same entries in the same order if and only if the list is
   * empty or its last who string is not.
   */
  lemma RoundTrip(aces: seq<Ace>)
    requires Encodable(aces)
    ensures Decode(Encode(aces)) == if LastWhoEmpty(aces)
                                    then Decoded(aces[..|aces| - 1], Some(BufferOverflow))
                                    else Decoded(aces, None)
  {
    EncodedCount(aces, []);
    assert Encode(aces) + [] == Encode(aces);
    MiddleSlice(PutUint(|aces|), EncodeAces(aces), []);
    EncodableAllFit(aces);
    ReadsEncodedEntries(Encode(aces), ATOM_SIZE, aces);
    if LastWhoEmpty(aces) {
      DecodeReadsEntriesLastEmpty(Encode(aces), ATOM_SIZE, aces);
    } else {
      DecodeReadsEntries(AsWritten, Encode(aces), ATOM_SIZE, aces);
    }
  }

  /** With the header test corrected to accept exactly 16 bytes, the round trip is unconditional. */
  lemma RoundTripCorrected(aces: seq<Ace>)
    requires Encodable(aces)
    ensures DecodeWith(Corrected, Encode(aces)) == Decoded(aces, None)
  {
    EncodedCount(aces, []);
    assert Encode(aces) + [] == Encode(aces);
    MiddleSlice(PutUint(|aces|), EncodeAces(aces), []);
    EncodableAllFit(aces);
    ReadsEncodedEntries(Encode(aces), ATOM_SIZE, aces);
    DecodeReadsEntries(Corrected, Encode(aces), ATOM_SIZE, aces);
  }

  /** The smallest case of the header off-by-one: one ACE with an empty who string. */
  lemma EmptyWhoEntryRejected()
    ensures var aces := [NewNfs4Ace(NFS4_ACE_ACCESS_ALLOWED_ACE_TYPE, 0, NFS4_ACE_WRITE_DATA, [])];
      |Encode(aces)| == 20 && Decode(Encode(aces)) == Decoded([], Some(BufferOverflow))
  {
    var aces := [NewNfs4Ace(NFS4_ACE_ACCESS_ALLOWED_ACE_TYPE, 0, NFS4_ACE_WRITE_DATA, [])];
    assert EntriesSize(aces[1..]) == 0;
    RoundTrip(aces);
  }

  /**
   * Bytes after the last entry are never looked at: the decoder accepts
   * an encoding followed by anything, so re-encoding what it returns does
   * not in general give back the input.
   */
  lemma DecodeIgnoresTrailingBytes(aces: seq<Ace>, post: seq<byte>)
    requires Encodable(aces) && post != []
    ensures Decode(Encode(aces) + post) == Decoded(aces, None)
    ensures Encode(Decode(Encode(aces) + post).aces) != Encode(aces) + post
  {
    EncodedCount(aces, post);
    MiddleSlice(PutUint(|aces|), EncodeAces(aces), post);
    EncodableAllFit(aces);
    ReadsEncodedEntries(Encode(aces) + post, ATOM_SIZE, aces);
    DecodeReadsEntries(AsWritten, Encode(aces) + post, ATOM_SIZE, aces);
    assert |Encode(aces)| < |Encode(aces) + post|;
  }

  /**
   * A concrete attribute value: one ALLOW entry for OWNER@ with the
   * write-data bit, 28 bytes with two bytes of padding.
   */
  lemma DecodeOwnerWriteScenario()
    ensures Decode([0, 0, 0, 1,  0, 0, 0, 0,  0, 0, 0, 0,  0, 0, 0, 2,  0, 0, 0, 6,
                    0x4F, 0x57, 0x4E, 0x45, 0x52, 0x40, 0, 0])
         == Decoded([Ace(NFS4_ACE_ACCESS_ALLOWED_ACE_TYPE, Owner, NFS4_ACL_WHO_OWNER_STRING, 0, NFS4_ACE_WRITE_DATA)], None)
  {
    var value: seq<byte> := [0, 0, 0, 1,  0, 0, 0, 0,  0, 0, 0, 0,  0, 0, 0, 2,  0, 0, 0, 6,
                             0x4F, 0x57, 0x4E, 0x45, 0x52, 0x40, 0, 0];
    assert ReadUint(value, 0) == 1 && ReadUint(value, 12) == 2 && ReadUint(value, 16) == 6;
    assert value[20..26] == NFS4_ACL_WHO_OWNER_STRING;
    DecodesOneEntry(value, Ace(NFS4_ACE_ACCESS_ALLOWED_ACE_TYPE, Owner, NFS4_ACL_WHO_OWNER_STRING, 0, NFS4_ACE_WRITE_DATA));
  }

  /** The entry the two values below hold: ALLOW, no flags, no mask bits, who "x". */
  const X_ENTRY: Ace := NewNfs4Ace(NFS4_ACE_ACCESS_ALLOWED_ACE_TYPE, 0, 0, [0x78])

  /** A value that declares one entry and holds its header and who string decodes to that entry alone. */
  lemma DecodesOneEntry(value: seq<byte>, a: Ace)
    requires ATOM_SIZE + ACE_HEADER_SIZE < |value| && ReadUint(value, 0) == 1
    requires ATOM_SIZE + ACE_HEADER_SIZE + ReadUint(value, 16) <= |value|
    requires EntryAt(value, ATOM_SIZE).0 == a
    ensures Decode(value) == Decoded([a], None)
  {
    assert DecodeEntries(AsWritten, value, ATOM_SIZE, 1)
        == Prepend([a], DecodeEntries(AsWritten, value, EntryAt(value, ATOM_SIZE).1, 0));
  }

  /** A value that starts with X_ENTRY's count, header and who byte decodes to it alone. */
  lemma DecodesXEntry(value: seq<byte>)
    requires 21 <= |value| <= 24
    requires value[..21] == [0, 0, 0, 1,  0, 0, 0, 0,  0, 0, 0, 0,  0, 0, 0, 0,  0, 0, 0, 1,  0x78]
    ensures Decode(value) == Decoded([X_ENTRY], None)
  {
    assert ReadUint(value, 0) == 1 && ReadUint(value, 16) == 1;
    assert value[20..21] == [0x78];
    DecodesOneEntry(value, X_ENTRY);
  }

  /**
   * The cursor moved past the last entry's padding is never compared with
   * the end of the buffer: a last entry whose padding is missing loads
   * without error, and its re-encoding is longer than the value read.
   */
  lemma DecodeAcceptsMissingFinalPadding()
    ensures var value: seq<byte> := [0, 0, 0, 1,  0, 0, 0, 0,  0, 0, 0, 0,  0, 0, 0, 0,  0, 0, 0, 1,  0x78];
      && Decode(value) == Decoded([X_ENTRY], None)
      && |value| == 21 && |Encode(Decode(value).aces)| == 24
  {
    var value: seq<byte> := [0, 0, 0, 1,  0, 0, 0, 0,  0, 0, 0, 0,  0, 0, 0, 0,  0, 0, 0, 1,  0x78];
    assert value[..21] == value;
    DecodesXEntry(value);
  }

  /**
   * The padding bytes are skipped unread: non-zero padding loads without
   * error, and re-encoding writes zeros in their place.
   */
  lemma DecodeAcceptsNonZeroPadding()
    ensures var value: seq<byte> := [0, 0, 0, 1,  0, 0, 0, 0,  0, 0, 0, 0,  0, 0, 0, 0,  0, 0, 0, 1,  0x78, 1, 2, 3];
      && Decode(value) == Decoded([X_ENTRY], None)
      && Encode(Decode(value).aces) != value
  {
    var value: seq<byte> := [0, 0, 0, 1,  0, 0, 0, 0,  0, 0, 0, 0,  0, 0, 0, 0,  0, 0, 0, 1,  0x78, 1, 2, 3];
    DecodesXEntry(value);
    assert Encode([X_ENTRY])[21] == 0 != value[21];
  }

  // ---------------------------------------------------------------------
  // Re-encoding what was decoded

  /**
   * The padding after each who string of `aces`, read back to back from
   * offset `c` of `s`, lies within `s` and is all zero bytes.
   */
  predicate ZeroPadded(s: seq<byte>, c: nat, aces: seq<Ace>)
    decreases |aces|
  {
    aces == [] ||
      (&& c + EntrySize(aces[0]) <= |s|
       && s[c + ACE_HEADER_SIZE + |aces[0].who|..c + EntrySize(aces[0])]
          == Zeros(PaddedLength(|aces[0].who|) - |aces[0].who|)
       && ZeroPadded(s, c + EntrySize(aces[0]), aces[1..]))
  }

  /** Zero padding of a list is zero padding of its first entry and of the rest. */
  lemma ZeroPaddedCons(s: seq<byte>, c: nat, aces: seq<Ace>)
    requires aces != []
    ensures ZeroPadded(s, c, aces) ==>
      && c + EntrySize(aces[0]) <= |s|
      && s[c + ACE_HEADER_SIZE + |aces[0].who|..c + EntrySize(aces[0])]
         == Zeros(PaddedLength(|aces[0].who|) - |aces[0].who|)
      && ZeroPadded(s, c + EntrySize(aces[0]), aces[1..])
  {
  }

  /** The four header atoms and the who string of `a` are the bytes at offset `c` of `s`. */
  predicate FieldsAt(s: seq<byte>, c: nat, a: Ace) {
    && c + ACE_HEADER_SIZE + |a.who| <= |s|
    && ReadUint(s, c) == a.aceType && ReadUint(s, c + 4) == a.flags && ReadUint(s, c + 8) == a.accessMask
    && ReadUint(s, c + 12) == |a.who| && s[c + ACE_HEADER_SIZE..c + ACE_HEADER_SIZE + |a.who|] == a.who
  }

  /** The entry `EntryAt` reads carries the fields found at its offset. */
  lemma EntryAtFields(s: seq<byte>, c: nat)
    requires c + ACE_HEADER_SIZE <= |s| && c + ACE_HEADER_SIZE + ReadUint(s, c + 12) <= |s|
    ensures FieldsAt(s, c, EntryAt(s, c).0)
  {
  }

  /** An entry whose fields are at `c` and whose padding is zero packs back to the bytes it was read from. */
  lemma EntryReencodes(s: seq<byte>, c: nat, a: Ace)
    requires c + EntrySize(a) <= |s|
    requires ReadUint(s, c) == a.aceType && ReadUint(s, c + 4) == a.flags && ReadUint(s, c + 8) == a.accessMask
    requires ReadUint(s, c + 12) == |a.who| && s[c + ACE_HEADER_SIZE..c + ACE_HEADER_SIZE + |a.who|] == a.who
    requires s[c + ACE_HEADER_SIZE + |a.who|..c + EntrySize(a)] == Zeros(PaddedLength(|a.who|) - |a.who|)
    ensures s[c..c + EntrySize(a)] == EncodeAce(a)
  {
    assert EncodeAce(a) == PutUint(a.aceType) + PutUint(a.flags) + PutUint(a.accessMask) + PutUint(|a.who|)
                           + a.who + Zeros(PaddedLength(|a.who|) - |a.who|);
    AtomsReencode(s, c, c + ACE_HEADER_SIZE + |a.who|, c + EntrySize(a), a.aceType, a.flags, a.accessMask,
                  a.who, Zeros(PaddedLength(|a.who|) - |a.who|));
  }

  /**
   * One step of a decode without error: the first entry's fields are the
   * ones at `c`, and the rest of the list is decoded from just after it.
   */
  lemma ReencodeStep(rule: HeaderRule, s: seq<byte>, c: nat, count: nat, aces: seq<Ace>)
    requires count > 0 && DecodeEntries(rule, s, c, count) == Decoded(aces, None)
    ensures aces != [] && FieldsAt(s, c, aces[0])
    ensures DecodeEntries(rule, s, c + EntrySize(aces[0]), count - 1) == Decoded(aces[1..], None)
  {
    DecodeNext(rule, s, c, count, EntryAt(s, c).0, EntryAt(s, c).1);
    EntryAtFields(s, c);
  }

  /** The packing of a list's first entry followed by the packing of the rest is the packing of the list. */
  lemma ReencodeJoin(s: seq<byte>, c: nat, aces: seq<Ace>)
    requires aces != [] && c + EntrySize(aces[0]) + EntriesSize(aces[1..]) <= |s|
    requires s[c..c + EntrySize(aces[0])] == EncodeAce(aces[0])
    requires s[c + EntrySize(aces[0])..c + EntrySize(aces[0]) + EntriesSize(aces[1..])] == EncodeAces(aces[1..])
    ensures c + EntriesSize(aces) <= |s| && s[c..c + EntriesSize(aces)] == EncodeAces(aces)
  {
    assert EncodeAces(aces) == EncodeAce(aces[0]) + EncodeAces(aces[1..]);
    SliceOfTwo(s, c, EntrySize(aces[0]), EntriesSize(aces[1..]), EntriesSize(aces),
               EncodeAce(aces[0]), EncodeAces(aces[1..]));
  }

  /**
   * The fields of the entries of `aces` lie one after the other from
   * offset `c` of `s`, each next entry starting after the previous one's
   * padding, whether or not that padding lies within `s`.
   */
  predicate ReadsFrom(s: seq<byte>, c: nat, aces: seq<Ace>)
    decreases |aces|
  {
    aces == [] || (FieldsAt(s, c, aces[0]) && ReadsFrom(s, c + EntrySize(aces[0]), aces[1..]))
  }

  /** Reading a list is reading its first entry and then the rest. */
  lemma ReadsFromUncons(s: seq<byte>, c: nat, aces: seq<Ace>)
    requires aces != []
    ensures ReadsFrom(s, c, aces) ==> FieldsAt(s, c, aces[0]) && ReadsFrom(s, c + EntrySize(aces[0]), aces[1..])
  {
  }

  /** The entries of a decode without error are read back to back from where it started. */
  lemma {:induction false} DecodedReadsFrom(rule: HeaderRule, s: seq<byte>, c: nat, count: nat, aces: seq<Ace>)
    requires DecodeEntries(rule, s, c, count) == Decoded(aces, None)
    ensures ReadsFrom(s, c, aces)
    decreases count
  {
    if count > 0 {
      ReencodeStep(rule, s, c, count, aces);
      DecodedReadsFrom(rule, s, c + EntrySize(aces[0]), count - 1, aces[1..]);
      assert ReadsFrom(s, c, aces) by {
        assert FieldsAt(s, c, aces[0]) && ReadsFrom(s, c + EntrySize(aces[0]), aces[1..]);
      }
    }
  }

  /** A list whose first entry re-encodes, and whose rest re-encodes after it, re-encodes. */
  lemma ReencodeCons(s: seq<byte>, c: nat, aces: seq<Ace>)
    requires aces != [] && FieldsAt(s, c, aces[0]) && c + EntrySize(aces[0]) <= |s|
    requires s[c + ACE_HEADER_SIZE + |aces[0].who|..c + EntrySize(aces[0])]
             == Zeros(PaddedLength(|aces[0].who|) - |aces[0].who|)
    requires c + EntrySize(aces[0]) + EntriesSize(aces[1..]) <= |s|
    requires s[c + EntrySize(aces[0])..c + EntrySize(aces[0]) + EntriesSize(aces[1..])] == EncodeAces(aces[1..])
    ensures c + EntriesSize(aces) <= |s| && s[c..c + EntriesSize(aces)] == EncodeAces(aces)
  {
    EntryReencodes(s, c, aces[0]);
    ReencodeJoin(s, c, aces);
  }

  /** Entries read back to back from `c`, whose padding is zero, pack back to exactly those bytes. */
  lemma {:induction false} PaddedEntriesReencode(s: seq<byte>, c: nat, aces: seq<Ace>)
    ensures c <= |s| && ReadsFrom(s, c, aces) && ZeroPadded(s, c, aces) ==>
      c + EntriesSize(aces) <= |s| && s[c..c + EntriesSize(aces)] == EncodeAces(aces)
    decreases |aces|
  {
    if aces != [] {
      PaddedEntriesReencode(s, c + EntrySize(aces[0]), aces[1..]);
      ReadsFromUncons(s, c, aces);
      ZeroPaddedCons(s, c, aces);
      if c <= |s| && ReadsFrom(s, c, aces) && ZeroPadded(s, c, aces) {
        ReencodeCons(s, c, aces);
      }
    }
  }

  /** A count atom followed by the packed entries, with nothing after them, is their encoding. */
  lemma EncodeOfParts(value: seq<byte>, aces: seq<Ace>)
    requires |value| == ATOM_SIZE + EntriesSize(aces) && ReadUint(value, 0) == |aces|
    requires value[ATOM_SIZE..ATOM_SIZE + EntriesSize(aces)] == EncodeAces(aces)
    ensures Encode(aces) == value
  {
    assert Encode(aces) == PutUint(|aces|) + EncodeAces(aces);
    AtomThen(value, |aces|, EntriesSize(aces), EncodeAces(aces));
  }

  /**
   * A value holding the count of `aces` and then their fields back to
   * back, with only zero padding and nothing after the last entry, is
   * their encoding.
   */
  lemma ReencodeEntries(value: seq<byte>, aces: seq<Ace>)
    ensures && |value| == EncodedSize(aces) && ReadUint(value, 0) == |aces|
            && ReadsFrom(value, ATOM_SIZE, aces) && ZeroPadded(value, ATOM_SIZE, aces)
            ==> Encode(aces) == value
  {
    PaddedEntriesReencode(value, ATOM_SIZE, aces);
    if |value| == EncodedSize(aces) && ReadUint(value, 0) == |aces|
       && ReadsFrom(value, ATOM_SIZE, aces) && ZeroPadded(value, ATOM_SIZE, aces) {
      EncodeOfParts(value, aces);
    }
  }

  /**
   * Re-encoding is exact on canonical values: a value that decodes without
   * error, has no bytes after its last entry and has only zero padding
   * packs back to itself. Trailing bytes, a missing final padding and
   * non-zero padding, each shown above to break this, are the only ways
   * it can fail.
   */
  lemma ReencodeCanonical(value: seq<byte>)
    requires Decode(value).err == None
    requires |value| == EncodedSize(Decode(value).aces)
    requires ZeroPadded(value, ATOM_SIZE, Decode(value).aces)
    ensures Encode(Decode(value).aces) == value
  {
    var aces := Decode(value).aces;
    assert ATOM_SIZE <= |value| && ReadUint(value, 0) == |aces|;
    assert DecodeEntries(AsWritten, value, ATOM_SIZE, ReadUint(value, 0)) == Decoded(aces, None);
    DecodedReadsFrom(AsWritten, value, ATOM_SIZE, ReadUint(value, 0), aces);
    ReencodeEntries(value, aces);
  }
}
