/**
 * nfs4_ace.go: the `NFS4ACE` object, whose methods change its access mask
 * and flags in place, the who-type and padding helpers that file repeats
 * from nfs4_acl.go, and `PrintACE`.
 */
module Nfs4Ace {
  import opened Wire
  import opened Bits
  import opened AclTypes
  import opened Codec
  import opened Render

  /** `AceGetWhoType`: exact, byte-for-byte match against the three well-known who strings. */
  function AceGetWhoType(who: seq<byte>): (t: WhoType)
    ensures t == Owner <==> who == NFS4_ACL_WHO_OWNER_STRING
    ensures t == Group <==> who == NFS4_ACL_WHO_GROUP_STRING
    ensures t == Everyone <==> who == NFS4_ACL_WHO_EVERYONE_STRING
  {
    WhoStringsDistinct();
    if who == NFS4_ACL_WHO_OWNER_STRING then Owner
    else if who == NFS4_ACL_WHO_GROUP_STRING then Group
    else if who == NFS4_ACL_WHO_EVERYONE_STRING then Everyone
    else Named
  }

  /** The two copies of the who-type derivation agree on every string. */
  lemma AceGetWhoTypeAgrees(who: seq<byte>)
    ensures AceGetWhoType(who) == GetWhoType(who)
  {
    GetWhoTypeCases(who);
  }

  /** `AceWhoStringAtomLength`: the who length rounded up to whole atoms of `ATOM_SIZE` bytes. */
  function AceWhoStringAtomLength(whoLength: nat): (r: nat)
    ensures r % ATOM_SIZE == 0
    ensures whoLength <= r < whoLength + ATOM_SIZE
    ensures whoLength % ATOM_SIZE == 0 ==> r == whoLength
  {
    var whoIncrement := whoLength / ATOM_SIZE * ATOM_SIZE;
    if whoIncrement < whoLength then whoIncrement + ATOM_SIZE else whoIncrement
  }

  /** The two copies of the padding rule agree, and so round up to the least multiple of four. */
  lemma AceWhoStringAtomLengthAgrees(whoLength: nat, m: nat)
    ensures AceWhoStringAtomLength(whoLength) == PaddedLength(whoLength)
    ensures m % ATOM_SIZE == 0 && whoLength <= m ==> AceWhoStringAtomLength(whoLength) <= m
  {
    if m % ATOM_SIZE == 0 && whoLength <= m {
      PaddedLengthIsLeast(whoLength, m);
    }
  }

  /** `NFS4ACE`: one entry, whose mask and flags its methods change in place. */
  class NFS4ACE {
    var aceType: uint32
    var whoType: WhoType
    var who: seq<byte>
    var flags: uint32
    var accessMask: uint32

    /** The entry as a value. */
    function Value(): Ace
      reads this
    {
      Ace(aceType, whoType, who, flags, accessMask)
    }

    /** `NewNFS4ACE`: stores the fields and derives the who-type from `who`. */
    constructor (aceType: uint32, flag: uint32, mask: uint32, who: seq<byte>)
      ensures Value() == Ace(aceType, AceGetWhoType(who), who, flag, mask)
      ensures Value().WellFormed()
    {
      this.aceType := aceType;
      this.who := who;
      this.whoType := AceGetWhoType(who);
      this.flags := flag;
      this.accessMask := mask;
      AceGetWhoTypeAgrees(who);
    }

    /** `applyAccessMask`: `AccessMask | accessMask`; nothing else changes. */
    method ApplyAccessMask(accessMask: uint32)
      modifies this
      ensures Value() == old(Value()).(accessMask := SetBits(old(this.accessMask), accessMask))
    {
      this.accessMask := SetBits(this.accessMask, accessMask);
    }

    /** `removeAccessMask`: `AccessMask &^ accessMask`; nothing else changes. */
    method RemoveAccessMask(accessMask: uint32)
      modifies this
      ensures Value() == old(Value()).(accessMask := ClearBits(old(this.accessMask), accessMask))
    {
      this.accessMask := ClearBits(this.accessMask, accessMask);
    }

    /** `setAccessMask`: the mask becomes `accessMask`, whatever it was; nothing else changes. */
    method SetAccessMask(accessMask: uint32)
      modifies this
      ensures Value() == old(Value()).(accessMask := accessMask)
    {
      this.accessMask := accessMask;
    }

    /** `applyFlags`: `Flags | flags`; nothing else changes. */
    method ApplyFlags(flags: uint32)
      modifies this
      ensures Value() == old(Value()).(flags := SetBits(old(this.flags), flags))
    {
      this.flags := SetBits(this.flags, flags);
    }

    /** `removeFlags`: `Flags &^ flags`; nothing else changes. */
    method RemoveFlags(flags: uint32)
      modifies this
      ensures Value() == old(Value()).(flags := ClearBits(old(this.flags), flags))
    {
      this.flags := ClearBits(this.flags, flags);
    }

    /** `setFlags`: the flags become `flags`, whatever they were; nothing else changes. */
    method SetFlags(flags: uint32)
      modifies this
      ensures Value() == old(Value()).(flags := flags)
    {
      this.flags := flags;
    }

    /** `PrintACE` up to the `fmt.Println`: the same line as `Nfs4_print_ace`. */
    method PrintAce(verbose: bool, isDir: bool) returns (line: seq<byte>)
      ensures line == AceText(Value(), verbose, isDir)
    {
      line := AceLine(Value(), verbose, isDir);
    }
  }

  /**
   * The mutators on a value: applying sets every given bit and clears
   * none, removing clears exactly the given bits; the other field, the
   * type, the who string and the who-type are untouched, and the entry
   * stays well-formed.
   */
  lemma MutatorEffects(a: Ace, bits: uint32)
    ensures forall k :: Bit(a.(accessMask := SetBits(a.accessMask, bits)).accessMask, k) == (Bit(a.accessMask, k) || Bit(bits, k))
    ensures forall k :: Bit(a.(accessMask := ClearBits(a.accessMask, bits)).accessMask, k) == (Bit(a.accessMask, k) && !Bit(bits, k))
    ensures forall k :: Bit(a.(flags := SetBits(a.flags, bits)).flags, k) == (Bit(a.flags, k) || Bit(bits, k))
    ensures forall k :: Bit(a.(flags := ClearBits(a.flags, bits)).flags, k) == (Bit(a.flags, k) && !Bit(bits, k))
    ensures a.WellFormed() ==>
              (a.(accessMask := SetBits(a.accessMask, bits)).WellFormed() &&
               a.(accessMask := ClearBits(a.accessMask, bits)).WellFormed() &&
               a.(flags := SetBits(a.flags, bits)).WellFormed() &&
               a.(flags := ClearBits(a.flags, bits)).WellFormed())
  {
  }

  /** The worked examples of nfs4_ace.go:188-204, through the methods themselves. */
  method MutatorExamples() returns (applied: uint32, removed: uint32)
    ensures applied == 0x37 && removed == 0x34
  {
    var ace := new NFS4ACE(NFS4_ACE_ACCESS_ALLOWED_ACE_TYPE, 0, 0x35, NFS4_ACL_WHO_OWNER_STRING);
    ace.ApplyAccessMask(0x03);
    applied := ace.accessMask;
    ace.SetAccessMask(0x35);
    ace.RemoveAccessMask(0x03);
    removed := ace.accessMask;
    SetBitsExample();
    ClearBitsExample();
  }
}
