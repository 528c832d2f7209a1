/**
 * The ACL object of nfs4_acl.go and the code that works on it step by
 * step: the decoder `nfs4_xattr_load`, `XAttrSize`, `PackXAttr`,
 * `SetWrite`, `ClearWrite` and `Nfs4_print_acl`. Each method is proved
 * against the functions of `Codec` and `Render`.
 */
module Nfs4Acl {
  import opened Wrappers
  import opened Wire
  import opened Bits
  import opened AclTypes
  import opened Codec
  import opened Render

  /**
   * `Nfs4_acl`: the directory flag and the list of entries. The entries
   * are values: the Go list holds pointers, but no two entries of a list
   * built here share one.
   */
  class Acl {
    var isDirectory: bool
    var aceList: seq<Ace>

    /** The empty ACL `nfs4_xattr_load` starts from. */
    constructor (isDir: bool)
      ensures isDirectory == isDir && aceList == []
    {
      isDirectory := isDir;
      aceList := [];
    }

    /** `XAttrSize`: one atom for the count, then four atoms and the padded who string per entry. */
    method XAttrSize() returns (xAttrSize: nat)
      ensures xAttrSize == EncodedSize(aceList)
    {
      xAttrSize := ATOM_SIZE;
      for i := 0 to |aceList|
        invariant xAttrSize == ATOM_SIZE + EntriesSize(aceList[..i])
      {
        xAttrSize := xAttrSize + ATOM_SIZE * 4;
        xAttrSize := xAttrSize + PaddedLength(|aceList[i].who|);
        SizeOfPrefix(aceList, i);
      }
      assert aceList[..|aceList|] == aceList;
    }

    /**
     * `PackXAttr`: a zeroed buffer of `XAttrSize` bytes, the entry count
     * written at the front and each entry after it, in list order.
     */
    method PackXAttr() returns (xattr: array<byte>)
      ensures fresh(xattr)
      ensures xattr[..] == Encode(aceList)
    {
      var aclSize := XAttrSize();
      xattr := new byte[aclSize](_ => 0);
      var currAtom := 0;
      assert xattr[..] == [] + Zeros(aclSize);
      PutUint32(xattr, currAtom, |aceList|);
      SpliceZeros([], PutUint(|aceList|), aclSize);
      currAtom := currAtom + ATOM_SIZE;
      assert [] + PutUint(|aceList|) + EncodeAces(aceList[..0]) == PutUint(|aceList|);
      for i := 0 to |aceList|
        invariant currAtom == ATOM_SIZE + EntriesSize(aceList[..i])
        invariant currAtom + EntriesSize(aceList[i..]) == xattr.Length
        invariant xattr[..] == PutUint(|aceList|) + EncodeAces(aceList[..i]) + Zeros(xattr.Length - currAtom)
      {
        ghost var pre := PutUint(|aceList|) + EncodeAces(aceList[..i]);
        RestOfEntries(aceList, i);
        currAtom := PackAce(xattr, currAtom, aceList[i], pre);
        SizeOfPrefix(aceList, i);
        EncodeOfPrefix(aceList, i);
        Appended(PutUint(|aceList|), EncodeAces(aceList[..i]), pre, EncodeAce(aceList[i]), pre + EncodeAce(aceList[i]));
      }
      assert aceList[..|aceList|] == aceList;
      assert xattr[..] == Encode(aceList) + [];
    }

    /**
     * `SetWrite`: sets the write-data bit in the mask of every entry and
     * changes nothing else.
     */
    method SetWrite()
      modifies this
      ensures isDirectory == old(isDirectory)
      ensures aceList == WithWrite(old(aceList))
    {
      ghost var aces := aceList;
      for i := 0 to |aceList|
        invariant isDirectory == old(isDirectory)
        invariant |aceList| == |aces|
        invariant forall j :: 0 <= j < i ==> aceList[j] == SetWriteOf(aces[j])
        invariant forall j :: i <= j < |aceList| ==> aceList[j] == aces[j]
      {
        var ace := aceList[i];
        aceList := aceList[i := ace.(accessMask := SetBits(ace.accessMask, NFS4_ACE_WRITE_DATA))];
      }
    }

    /**
     * `ClearWrite`: clears the write-data bit in the mask of every entry
     * and changes nothing else.
     */
    method ClearWrite()
      modifies this
      ensures isDirectory == old(isDirectory)
      ensures aceList == WithoutWrite(old(aceList))
    {
      ghost var aces := aceList;
      for i := 0 to |aceList|
        invariant isDirectory == old(isDirectory)
        invariant |aceList| == |aces|
        invariant forall j :: 0 <= j < i ==> aceList[j] == ClearWriteOf(aces[j])
        invariant forall j :: i <= j < |aceList| ==> aceList[j] == aces[j]
      {
        var ace := aceList[i];
        aceList := aceList[i := ace.(accessMask := ClearBits(ace.accessMask, NFS4_ACE_WRITE_DATA))];
      }
    }

    /** `Nfs4_print_acl`: the line of every entry, in list order, against the ACL's directory flag. */
    method PrintAcl(verbose: bool) returns (lines: seq<seq<byte>>)
      ensures |lines| == |aceList|
      ensures forall i :: 0 <= i < |lines| ==> lines[i] == AceText(aceList[i], verbose, isDirectory)
    {
      lines := AceLines(aceList, verbose, isDirectory);
    }
  }

  /** The loop of `Nfs4_print_acl`: one `Nfs4_print_ace` line per entry. */
  method AceLines(aces: seq<Ace>, verbose: bool, isDir: bool) returns (lines: seq<seq<byte>>)
    ensures |lines| == |aces|
    ensures forall i :: 0 <= i < |lines| ==> lines[i] == AceText(aces[i], verbose, isDir)
  {
    lines := [];
    for i := 0 to |aces|
      invariant |lines| == i
      invariant forall j :: 0 <= j < i ==> lines[j] == AceText(aces[j], verbose, isDir)
    {
      var line := AceLine(aces[i], verbose, isDir);
      lines := lines + [line];
    }
  }

  // ---------------------------------------------------------------------
  // Decoding

  /**
   * `nfs4_xattr_load`: walks the buffer with a cursor, appending one entry
   * per iteration. Like the Go code it hands back the ACL even on error,
   * holding the entries read before the error.
   */
  method XattrLoad(value: seq<byte>, isDir: bool) returns (newAcl: Acl, err: Option<DecodeError>)
    ensures fresh(newAcl) && newAcl.isDirectory == isDir
    ensures Decoded(newAcl.aceList, err) == Decode(value)
  {
    var aceList: seq<Ace>;
    aceList, err := LoadAces(value);
    newAcl := new Acl(isDir);
    newAcl.aceList := aceList;
  }

  /**
   * The body of `nfs4_xattr_load` that fills `new_acl.ace_list`: the
   * length check, the entry count, and the loop over the entries.
   */
  method LoadAces(value: seq<byte>) returns (aceList: seq<Ace>, err: Option<DecodeError>)
    ensures Decoded(aceList, err) == Decode(value)
  {
    aceList, err := [], None;
    var maxAtom := |value|;
    if maxAtom < ATOM_SIZE {
      err := Some(InvalidInputBuffer);
      return;
    }
    var numAces := ReadUint(value, 0);
    var curAtom: nat := ATOM_SIZE;
    for curAce := 0 to numAces
      invariant Prepend(aceList, DecodeEntries(AsWritten, value, curAtom, numAces - curAce)) == Decode(value)
    {
      var newAce, next, e := LoadAce(value, curAtom, numAces - curAce);
      if e.Some? {
        err := e;
        return;
      }
      PrependTwice(aceList, newAce, DecodeEntries(AsWritten, value, next, numAces - curAce - 1));
      aceList := aceList + [newAce];
      curAtom := next;
    }
    assert aceList + [] == aceList;
  }

  /**
   * One iteration of `nfs4_xattr_load`'s loop at cursor `curAtom`: the
   * two bounds checks, the four atoms, the who string, and the cursor
   * moved past its padding. The error stops the decoder.
   */
  method LoadAce(value: seq<byte>, curAtom: nat, ghost count: nat) returns (newAce: Ace, next: nat, err: Option<DecodeError>)
    requires count > 0
    ensures err == None ==>
      DecodeEntries(AsWritten, value, curAtom, count) == Prepend([newAce], DecodeEntries(AsWritten, value, next, count - 1))
    ensures err != None ==> DecodeEntries(AsWritten, value, curAtom, count) == Decoded([], err)
  {
    var maxAtom := |value|;
    newAce, next, err := NewNfs4Ace(0, 0, 0, []), curAtom, None;
    if curAtom >= maxAtom {
      err := Some(BufferOverflow);
      return;
    }
    if curAtom + ATOM_SIZE * 4 >= maxAtom {
      err := Some(BufferOverflow);
      return;
    }
    next := curAtom;
    var aceType := ReadUint(value, next);
    next := next + ATOM_SIZE;
    var aceFlag := ReadUint(value, next);
    next := next + ATOM_SIZE;
    var aceMask := ReadUint(value, next);
    next := next + ATOM_SIZE;
    var whoLen := ReadUint(value, next);
    next := next + ATOM_SIZE;
    if next + whoLen > maxAtom {
      err := Some(WhoOutOfRange);
      return;
    }
    var aceWho := value[next..next + whoLen];
    next := next + PaddedLength(whoLen);
    newAce := NewNfs4Ace(aceType, aceFlag, aceMask, aceWho);
    assert (newAce, next) == EntryAt(value, curAtom);
  }

  /** Putting `[a]` and then `pre` in front is putting `pre + [a]` in front. */
  lemma PrependTwice(pre: seq<Ace>, a: Ace, d: Decoded)
    ensures Prepend(pre, Prepend([a], d)) == Prepend(pre + [a], d)
  {
  }

  /** An ACL loaded and packed again gives back its entries, under the conditions of `RoundTrip`. */
  method LoadPacked(acl: Acl) returns (loaded: Acl, err: Option<DecodeError>)
    requires Encodable(acl.aceList) && !LastWhoEmpty(acl.aceList)
    ensures fresh(loaded)
    ensures loaded.aceList == acl.aceList && loaded.isDirectory == acl.isDirectory && err == None
  {
    var xattr := acl.PackXAttr();
    RoundTrip(acl.aceList);
    loaded, err := XattrLoad(xattr[..], acl.isDirectory);
  }

  // ---------------------------------------------------------------------
  // Packing helpers

  /**
   * `binary.BigEndian.PutUint32(buf[at:], uint32(v))`: the low four bytes
   * of `v`, most significant first.
   */
  method PutUint32(buf: array<byte>, at: nat, v: nat)
    requires at + ATOM_SIZE <= buf.Length
    modifies buf
    ensures buf[..] == Splice(old(buf[..]), at, PutUint(v))
  {
    DigitsOfAtom(v);
    buf[at] := v / 0x100_0000 % 0x100;
    buf[at + 1] := v / 0x1_0000 % 0x100;
    buf[at + 2] := v / 0x100 % 0x100;
    buf[at + 3] := v % 0x100;
    assert v / 0x100 / 0x100 == v / 0x1_0000;
    assert v / 0x1_0000 / 0x100 == v / 0x100_0000;
  }

  /** `copy(buf[at:], src)` where `src` fits. */
  method CopyBytes(buf: array<byte>, at: nat, src: seq<byte>)
    requires at + |src| <= buf.Length
    modifies buf
    ensures buf[..] == Splice(old(buf[..]), at, src)
  {
    for i := 0 to |src|
      invariant forall k :: 0 <= k < buf.Length ==> buf[k] == if at <= k < at + i then src[k - at] else old(buf[k])
    {
      buf[at + i] := src[i];
    }
  }

  /** `PutUint32` where the zeros start, after `pre + w` has been written. */
  method PackAtom(xattr: array<byte>, at: nat, v: nat, ghost pre: seq<byte>, ghost w: seq<byte>)
    requires |pre + w| == at && at + ATOM_SIZE <= xattr.Length
    requires xattr[..] == pre + w + Zeros(xattr.Length - at)
    modifies xattr
    ensures |pre + (w + PutUint(v))| == at + ATOM_SIZE
    ensures xattr[..] == pre + (w + PutUint(v)) + Zeros(xattr.Length - (at + ATOM_SIZE))
  {
    PutUint32(xattr, at, v);
    SpliceZeros(pre + w, PutUint(v), xattr.Length - at);
    Appended(pre, w, pre + w, PutUint(v), pre + w + PutUint(v));
  }

  /** `copy` where the zeros start, after `pre + w` has been written. */
  method PackBytes(xattr: array<byte>, at: nat, src: seq<byte>, ghost pre: seq<byte>, ghost w: seq<byte>)
    requires |pre + w| == at && at + |src| <= xattr.Length
    requires xattr[..] == pre + w + Zeros(xattr.Length - at)
    modifies xattr
    ensures xattr[..] == pre + (w + src) + Zeros(xattr.Length - (at + |src|))
  {
    CopyBytes(xattr, at, src);
    SpliceZeros(pre + w, src, xattr.Length - at);
    Appended(pre, w, pre + w, src, pre + w + src);
  }

  /**
   * One iteration of `PackXAttr`'s loop: the four atoms and the who bytes
   * written where the zeros start, the cursor moved past the padding.
   */
  method PackAce(xattr: array<byte>, currAtom: nat, ace: Ace, ghost pre: seq<byte>) returns (next: nat)
    requires |pre| == currAtom && currAtom + EntrySize(ace) <= xattr.Length
    requires xattr[..] == pre + Zeros(xattr.Length - currAtom)
    modifies xattr
    ensures next == currAtom + EntrySize(ace)
    ensures xattr[..] == pre + EncodeAce(ace) + Zeros(xattr.Length - next)
  {
    PackHeader(xattr, currAtom, ace, pre);
    next := currAtom + ACE_HEADER_SIZE;
    ghost var w := PutUint(ace.aceType) + PutUint(ace.flags) + PutUint(ace.accessMask) + PutUint(|ace.who|);
    PackBytes(xattr, next, ace.who, pre, w);
    w := w + ace.who;
    var padded := PaddedLength(|ace.who|);
    ZerosSplit(padded - |ace.who|, xattr.Length - next - padded);
    next := next + padded;
    Appended(pre, w, pre + w, Zeros(padded - |ace.who|), pre + w + Zeros(padded - |ace.who|));
  }

  /** The four atoms of an entry, written where the zeros start. */
  method PackHeader(xattr: array<byte>, currAtom: nat, ace: Ace, ghost pre: seq<byte>)
    requires |pre| == currAtom && currAtom + ACE_HEADER_SIZE <= xattr.Length
    requires xattr[..] == pre + Zeros(xattr.Length - currAtom)
    modifies xattr
    ensures xattr[..] == pre + (PutUint(ace.aceType) + PutUint(ace.flags) + PutUint(ace.accessMask) + PutUint(|ace.who|))
                        + Zeros(xattr.Length - (currAtom + ACE_HEADER_SIZE))
  {
    assert pre + [] == pre;
    PackAtom(xattr, currAtom, ace.aceType, pre, []);
    PackAtom(xattr, currAtom + ATOM_SIZE, ace.flags, pre, [] + PutUint(ace.aceType));
    PackAtom(xattr, currAtom + ATOM_SIZE + ATOM_SIZE, ace.accessMask, pre,
             [] + PutUint(ace.aceType) + PutUint(ace.flags));
    PackAtom(xattr, currAtom + ATOM_SIZE + ATOM_SIZE + ATOM_SIZE, |ace.who|, pre,
             [] + PutUint(ace.aceType) + PutUint(ace.flags) + PutUint(ace.accessMask));
    assert [] + PutUint(ace.aceType) == PutUint(ace.aceType);
  }

  // ---------------------------------------------------------------------
  // Sizes and encodings of list prefixes

  /** Growing a prefix by one entry grows its size by that entry's size. */
  lemma SizeOfPrefix(aces: seq<Ace>, i: nat)
    requires i < |aces|
    ensures EntriesSize(aces[..i + 1]) == EntriesSize(aces[..i]) + ACE_HEADER_SIZE + PaddedLength(|aces[i].who|)
  {
    assert aces[..i + 1] == aces[..i] + [aces[i]];
    EncodeAcesAppend(aces[..i], [aces[i]]);
    assert [aces[i]][1..] == [];
  }

  /** Growing a prefix by one entry appends that entry's encoding. */
  lemma EncodeOfPrefix(aces: seq<Ace>, i: nat)
    requires i < |aces|
    ensures EncodeAces(aces[..i + 1]) == EncodeAces(aces[..i]) + EncodeAce(aces[i])
  {
    assert aces[..i + 1] == aces[..i] + [aces[i]];
    EncodeAcesAppend(aces[..i], [aces[i]]);
    assert [aces[i]][1..] == [];
    assert EncodeAces([aces[i]]) == EncodeAce(aces[i]) + [];
  }

  /** The entries from i on take the size of entry i and of those after it. */
  lemma RestOfEntries(aces: seq<Ace>, i: nat)
    requires i < |aces|
    ensures EntriesSize(aces[i..]) == EntrySize(aces[i]) + EntriesSize(aces[i + 1..])
  {
    assert aces[i..][1..] == aces[i + 1..];
  }

  // ---------------------------------------------------------------------
  // The write-data bit over a whole list

  /** One entry after `SetWrite`. */
  function SetWriteOf(a: Ace): Ace {
    a.(accessMask := SetBits(a.accessMask, NFS4_ACE_WRITE_DATA))
  }

  /** One entry after `ClearWrite`. */
  function ClearWriteOf(a: Ace): Ace {
    a.(accessMask := ClearBits(a.accessMask, NFS4_ACE_WRITE_DATA))
  }

  /** Every entry after `SetWrite`, in the same order. */
  function WithWrite(aces: seq<Ace>): seq<Ace> {
    seq(|aces|, i requires 0 <= i < |aces| => SetWriteOf(aces[i]))
  }

  /** Every entry after `ClearWrite`, in the same order. */
  function WithoutWrite(aces: seq<Ace>): seq<Ace> {
    seq(|aces|, i requires 0 <= i < |aces| => ClearWriteOf(aces[i]))
  }

  /**
   * `SetWrite` sets bit 1 (0x2) of every mask, keeps every other mask
   * bit, and keeps each entry's type, flags, who and who-type, and the
   * length and order of the list.
   */
  lemma WithWriteEffect(aces: seq<Ace>)
    ensures |WithWrite(aces)| == |aces|
    ensures forall i :: 0 <= i < |aces| ==> Bit(WithWrite(aces)[i].accessMask, 1)
    ensures forall i, k :: 0 <= i < |aces| && k != 1 ==>
      Bit(WithWrite(aces)[i].accessMask, k) == Bit(aces[i].accessMask, k)
    ensures forall i :: 0 <= i < |aces| ==>
      WithWrite(aces)[i].(accessMask := aces[i].accessMask) == aces[i]
  {
    forall i, k | 0 <= i < |aces|
      ensures Bit(WithWrite(aces)[i].accessMask, k) == (Bit(aces[i].accessMask, k) || k == 1)
    {
      BitOfPow2(1, k);
    }
  }

  /**
   * `ClearWrite` clears bit 1 (0x2) of every mask, keeps every other mask
   * bit, and keeps each entry's type, flags, who and who-type, and the
   * length and order of the list.
   */
  lemma WithoutWriteEffect(aces: seq<Ace>)
    ensures |WithoutWrite(aces)| == |aces|
    ensures forall i :: 0 <= i < |aces| ==> !Bit(WithoutWrite(aces)[i].accessMask, 1)
    ensures forall i, k :: 0 <= i < |aces| && k != 1 ==>
      Bit(WithoutWrite(aces)[i].accessMask, k) == Bit(aces[i].accessMask, k)
    ensures forall i :: 0 <= i < |aces| ==>
      WithoutWrite(aces)[i].(accessMask := aces[i].accessMask) == aces[i]
  {
    forall i, k | 0 <= i < |aces|
      ensures Bit(WithoutWrite(aces)[i].accessMask, k) == (Bit(aces[i].accessMask, k) && k != 1)
    {
      BitOfPow2(1, k);
    }
  }

  /** Setting twice is setting once; clearing after setting is clearing; and the other way round. */
  lemma WriteBitLaws(aces: seq<Ace>)
    ensures WithWrite(WithWrite(aces)) == WithWrite(aces)
    ensures WithoutWrite(WithoutWrite(aces)) == WithoutWrite(aces)
    ensures WithoutWrite(WithWrite(aces)) == WithoutWrite(aces)
    ensures WithWrite(WithoutWrite(aces)) == WithWrite(aces)
  {
    forall i | 0 <= i < |aces|
      ensures SetWriteOf(SetWriteOf(aces[i])) == SetWriteOf(aces[i])
      ensures ClearWriteOf(ClearWriteOf(aces[i])) == ClearWriteOf(aces[i])
      ensures ClearWriteOf(SetWriteOf(aces[i])) == ClearWriteOf(aces[i])
      ensures SetWriteOf(ClearWriteOf(aces[i])) == SetWriteOf(aces[i])
    {
      var m := aces[i].accessMask;
      BitOpsIdempotent(m, NFS4_ACE_WRITE_DATA);
      BitOpsAbsorb(m, NFS4_ACE_WRITE_DATA);
    }
  }

  /** Neither changes the size of the packed attribute nor makes an entry ill-formed. */
  lemma WriteBitKeepsShape(aces: seq<Ace>)
    ensures EncodedSize(WithWrite(aces)) == EncodedSize(aces)
    ensures EncodedSize(WithoutWrite(aces)) == EncodedSize(aces)
    ensures Encodable(aces) ==> Encodable(WithWrite(aces)) && Encodable(WithoutWrite(aces))
  {
    SizesOfSameWho(aces, WithWrite(aces));
    SizesOfSameWho(aces, WithoutWrite(aces));
  }

  /** Lists whose who strings have the same lengths take the same size. */
  lemma {:induction false} SizesOfSameWho(xs: seq<Ace>, ys: seq<Ace>)
    requires |xs| == |ys| && forall i :: 0 <= i < |xs| ==> |xs[i].who| == |ys[i].who|
    ensures EntriesSize(xs) == EntriesSize(ys)
    decreases |xs|
  {
    if xs != [] {
      assert forall i :: 0 <= i < |xs| - 1 ==> xs[1..][i] == xs[i + 1] && ys[1..][i] == ys[i + 1];
      SizesOfSameWho(xs[1..], ys[1..]);
    }
  }
}
