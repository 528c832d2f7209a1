/**
 * The entities of an NFSv4 ACL: the constant tables of nfs4_acl.go, the
 * who-type classification and the access control entry (ACE) as a value.
 *
 * Type, flag and mask values are those of section 6.2.1 of RFC 7530; the
 * flags 0x80, 0x100 and 0x200 (OWNER@, GROUP@ and EVERYONE@) are specific
 * to this library.
 */
module AclTypes {
  import opened Wire

  // ---------------------------------------------------------------------
  // Well-known who strings (nfs4_acl.go:23-27), as the bytes Go compares:
  // "OWNER@", "GROUP@" and "EVERYONE@" in ASCII.

  const NFS4_ACL_WHO_OWNER_STRING: seq<byte> := [0x4F, 0x57, 0x4E, 0x45, 0x52, 0x40]
  const NFS4_ACL_WHO_GROUP_STRING: seq<byte> := [0x47, 0x52, 0x4F, 0x55, 0x50, 0x40]
  const NFS4_ACL_WHO_EVERYONE_STRING: seq<byte> := [0x45, 0x56, 0x45, 0x52, 0x59, 0x4F, 0x4E, 0x45, 0x40]

  /** The byte constants spell the strings of the source. */
  lemma WhoStringsSpelled()
    ensures NFS4_ACL_WHO_OWNER_STRING == Ascii("OWNER@")
    ensures NFS4_ACL_WHO_GROUP_STRING == Ascii("GROUP@")
    ensures NFS4_ACL_WHO_EVERYONE_STRING == Ascii("EVERYONE@")
  {
  }

  /** Who-type enumeration (nfs4_acl.go:30-35), in the order of its codes 0..3. */
  datatype WhoType = Named | Owner | Group | Everyone

  // ---------------------------------------------------------------------
  // ACE type codes (nfs4_acl.go:38-43) and their display characters.

  const NFS4_ACE_ACCESS_ALLOWED_ACE_TYPE: uint32 := 0
  const NFS4_ACE_ACCESS_DENIED_ACE_TYPE: uint32 := 1
  const NFS4_ACE_SYSTEM_AUDIT_ACE_TYPE: uint32 := 2
  const NFS4_ACE_SYSTEM_ALARM_ACE_TYPE: uint32 := 3

  const TYPE_ALLOW: char := 'A'
  const TYPE_DENY: char := 'D'
  const TYPE_AUDIT: char := 'U'
  const TYPE_ALARM: char := 'L'

  // ---------------------------------------------------------------------
  // ACE flag bits (nfs4_acl.go:55-66): bit k is 1 << k.

  const NFS4_ACE_FILE_INHERIT_ACE: uint32 := 0x001
  const NFS4_ACE_DIRECTORY_INHERIT_ACE: uint32 := 0x002
  const NFS4_ACE_NO_PROPAGATE_INHERIT_ACE: uint32 := 0x004
  const NFS4_ACE_INHERIT_ONLY_ACE: uint32 := 0x008
  const NFS4_ACE_SUCCESSFUL_ACCESS_ACE_FLAG: uint32 := 0x010
  const NFS4_ACE_FAILED_ACCESS_ACE_FLAG: uint32 := 0x020
  const NFS4_ACE_IDENTIFIER_GROUP: uint32 := 0x040
  const NFS4_ACE_OWNER: uint32 := 0x080
  const NFS4_ACE_GROUP: uint32 := 0x100
  const NFS4_ACE_EVERYONE: uint32 := 0x200

  const FLAG_FILE_INHERIT: char := 'f'
  const FLAG_DIR_INHERIT: char := 'd'
  const FLAG_NO_PROPAGATE_INHERIT: char := 'n'
  const FLAG_INHERIT_ONLY: char := 'i'
  const FLAG_SUCCESSFUL_ACCESS: char := 'S'
  const FLAG_FAILED_ACCESS: char := 'F'
  const FLAG_GROUP: char := 'g'
  const FLAG_OWNER_AT: char := 'O'
  const FLAG_GROUP_AT: char := 'G'
  const FLAG_EVERYONE_AT: char := 'E'

  // ---------------------------------------------------------------------
  // Access mask bits (nfs4_acl.go:84-102). The first three bits carry a
  // file name and a directory name; each is one constant, named here for
  // the file meaning, with the directory name alongside.

  const NFS4_ACE_READ_DATA: uint32 := 0x00000001
  const NFS4_ACE_LIST_DIRECTORY: uint32 := NFS4_ACE_READ_DATA
  const NFS4_ACE_WRITE_DATA: uint32 := 0x00000002
  const NFS4_ACE_ADD_FILE: uint32 := NFS4_ACE_WRITE_DATA
  const NFS4_ACE_APPEND_DATA: uint32 := 0x00000004
  const NFS4_ACE_ADD_SUBDIRECTORY: uint32 := NFS4_ACE_APPEND_DATA
  const NFS4_ACE_READ_NAMED_ATTRS: uint32 := 0x00000008
  const NFS4_ACE_WRITE_NAMED_ATTRS: uint32 := 0x00000010
  const NFS4_ACE_EXECUTE: uint32 := 0x00000020
  const NFS4_ACE_DELETE_CHILD: uint32 := 0x00000040
  const NFS4_ACE_READ_ATTRIBUTES: uint32 := 0x00000080
  const NFS4_ACE_WRITE_ATTRIBUTES: uint32 := 0x00000100
  const NFS4_ACE_DELETE: uint32 := 0x00010000
  const NFS4_ACE_READ_ACL: uint32 := 0x00020000
  const NFS4_ACE_WRITE_ACL: uint32 := 0x00040000
  const NFS4_ACE_WRITE_OWNER: uint32 := 0x00080000
  const NFS4_ACE_SYNCHRONIZE: uint32 := 0x00100000

  // Permission display characters (nfs4_acl.go:104-128).
  const PERM_READ_DATA: char := 'r'
  const PERM_WRITE_DATA: char := 'w'
  const PERM_APPEND_DATA: char := 'a'
  const PERM_LIST_DIR: char := PERM_READ_DATA
  const PERM_CREATE_FILE: char := PERM_WRITE_DATA
  const PERM_CREATE_SUBDIR: char := PERM_APPEND_DATA
  const PERM_DELETE_CHILD: char := 'D'
  const PERM_DELETE: char := 'd'
  const PERM_EXECUTE: char := 'x'
  const PERM_READ_ATTR: char := 't'
  const PERM_WRITE_ATTR: char := 'T'
  const PERM_READ_NAMED_ATTR: char := 'n'
  const PERM_WRITE_NAMED_ATTR: char := 'N'
  const PERM_READ_ACL: char := 'c'
  const PERM_WRITE_ACL: char := 'C'
  const PERM_WRITE_OWNER: char := 'o'
  const PERM_SYNCHRONIZE: char := 'y'

  // ---------------------------------------------------------------------
  // The ACE.

  /**
   * One access control entry (`Nfs4_ace` in nfs4_acl.go, `NFS4ACE` in
   * nfs4_ace.go). `who` is a byte string: Go converts bytes to a string
   * without validating them.
   */
  datatype Ace = Ace(aceType: uint32, whoType: WhoType, who: seq<byte>, flags: uint32, accessMask: uint32)
  {
    /** The stored who-type is the one derived from `who`. */
    predicate WellFormed() {
      whoType == GetWhoType(who)
    }
  }

  /** The three well-known who strings differ from each other. */
  lemma WhoStringsDistinct()
    ensures NFS4_ACL_WHO_OWNER_STRING != NFS4_ACL_WHO_GROUP_STRING
    ensures NFS4_ACL_WHO_OWNER_STRING != NFS4_ACL_WHO_EVERYONE_STRING
    ensures NFS4_ACL_WHO_GROUP_STRING != NFS4_ACL_WHO_EVERYONE_STRING
  {
  }

  /**
   * `nfs4_ace_get_whotype`: classifies a who string by exact, byte-for-byte
   * comparison with the three well-known strings.
   */
  function GetWhoType(who: seq<byte>): (t: WhoType)
    ensures t == Owner ==> who == NFS4_ACL_WHO_OWNER_STRING
    ensures t == Group ==> who == NFS4_ACL_WHO_GROUP_STRING
    ensures t == Everyone ==> who == NFS4_ACL_WHO_EVERYONE_STRING
    ensures t == Named ==> who != NFS4_ACL_WHO_OWNER_STRING && who != NFS4_ACL_WHO_GROUP_STRING && who != NFS4_ACL_WHO_EVERYONE_STRING
  {
    WhoStringsDistinct();
    if who == NFS4_ACL_WHO_OWNER_STRING then Owner
    else if who == NFS4_ACL_WHO_GROUP_STRING then Group
    else if who == NFS4_ACL_WHO_EVERYONE_STRING then Everyone
    else Named
  }

  /** Each well-known string, and only it, gets its own who-type; everything else is NAMED. */
  lemma GetWhoTypeCases(who: seq<byte>)
    ensures GetWhoType(who) == Owner <==> who == NFS4_ACL_WHO_OWNER_STRING
    ensures GetWhoType(who) == Group <==> who == NFS4_ACL_WHO_GROUP_STRING
    ensures GetWhoType(who) == Everyone <==> who == NFS4_ACL_WHO_EVERYONE_STRING
    ensures GetWhoType(who) == Named <==>
      who != NFS4_ACL_WHO_OWNER_STRING && who != NFS4_ACL_WHO_GROUP_STRING && who != NFS4_ACL_WHO_EVERYONE_STRING
  {
    WhoStringsDistinct();
  }

  /** The empty string, a lower-case variant and a padded variant are all NAMED. */
  lemma GetWhoTypeNonMatches()
    ensures GetWhoType([]) == Named
    ensures GetWhoType(Ascii("owner@")) == Named
    ensures GetWhoType(Ascii("GROUP@ ")) == Named
    ensures GetWhoType(Ascii("Everyone@")) == Named
  {
    assert Ascii("owner@")[0] != NFS4_ACL_WHO_OWNER_STRING[0];
    assert Ascii("Everyone@")[1] != NFS4_ACL_WHO_EVERYONE_STRING[1];
  }

  /**
   * `NewNfs4_ace`: an ACE holding the given fields, with its who-type
   * derived from `who`.
   */
  function NewNfs4Ace(aceType: uint32, flag: uint32, mask: uint32, who: seq<byte>): (a: Ace)
    ensures a.WellFormed()
    ensures a.aceType == aceType && a.flags == flag && a.accessMask == mask && a.who == who
  {
    Ace(aceType, GetWhoType(who), who, flag, mask)
  }

  /** Every well-formed ACE is the one `NewNfs4Ace` builds from its fields. */
  lemma WellFormedIsConstructed(a: Ace)
    requires a.WellFormed()
    ensures a == NewNfs4Ace(a.aceType, a.flags, a.accessMask, a.who)
  {
  }
}
