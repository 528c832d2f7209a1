/**
 * The text form of an ACE, `TYPE:FLAGS:WHO:MASK`, as `Nfs4_print_ace`
 * (nfs4_acl.go) and `PrintACE` (nfs4_ace.go) build it in a `bytes.Buffer`.
 * The text is a byte string: the type, flag and mask characters are ASCII
 * and the who string is copied byte for byte.
 *
 * The flag and mask fields are runs of tests "if x & bit != 0, write c" in
 * a fixed order. `FlagText` and `MaskText` are those runs as the code
 * spells them out; the tables list the same `(bit, c)` pairs, `Letters` is
 * the text a table of tests writes, and the laws about which letters
 * appear are proved on the tables.
 */
module Render {
  import opened Wire
  import opened Bits
  import opened AclTypes

  // ---------------------------------------------------------------------
  // The text, as the code builds it

  /** What one test `if x & bit != 0 { buffer.WriteRune(c) }` writes. */
  function Letter(x: uint32, bit: uint32, c: char): seq<byte>
    requires c as int < 128
  {
    if And(x, bit) != 0 then [Byte(c)] else []
  }

  /** The type field: a word in verbose mode, a letter otherwise, nothing for an unknown type. */
  function TypeText(aceType: uint32, verbose: bool): (r: seq<byte>)
    ensures r == [] <==> aceType > NFS4_ACE_SYSTEM_ALARM_ACE_TYPE
    ensures |r| <= (if verbose then 5 else 1)
    ensures COLON !in r
  {
    if verbose then
      if aceType == NFS4_ACE_ACCESS_ALLOWED_ACE_TYPE then Ascii("ALLOW")
      else if aceType == NFS4_ACE_ACCESS_DENIED_ACE_TYPE then Ascii("DENY")
      else if aceType == NFS4_ACE_SYSTEM_AUDIT_ACE_TYPE then Ascii("AUDIT")
      else if aceType == NFS4_ACE_SYSTEM_ALARM_ACE_TYPE then Ascii("ALARM")
      else []
    else
      if aceType == NFS4_ACE_ACCESS_ALLOWED_ACE_TYPE then [Byte(TYPE_ALLOW)]
      else if aceType == NFS4_ACE_ACCESS_DENIED_ACE_TYPE then [Byte(TYPE_DENY)]
      else if aceType == NFS4_ACE_SYSTEM_AUDIT_ACE_TYPE then [Byte(TYPE_AUDIT)]
      else if aceType == NFS4_ACE_SYSTEM_ALARM_ACE_TYPE then [Byte(TYPE_ALARM)]
      else []
  }

  /** The flags field: the ten flag tests, in order f d n i S F g O G E. */
  function FlagText(flags: uint32): (r: seq<byte>)
    ensures |r| <= 10 && COLON !in r
  {
    Letter(flags, NFS4_ACE_FILE_INHERIT_ACE, FLAG_FILE_INHERIT)
    + Letter(flags, NFS4_ACE_DIRECTORY_INHERIT_ACE, FLAG_DIR_INHERIT)
    + Letter(flags, NFS4_ACE_NO_PROPAGATE_INHERIT_ACE, FLAG_NO_PROPAGATE_INHERIT)
    + Letter(flags, NFS4_ACE_INHERIT_ONLY_ACE, FLAG_INHERIT_ONLY)
    + Letter(flags, NFS4_ACE_SUCCESSFUL_ACCESS_ACE_FLAG, FLAG_SUCCESSFUL_ACCESS)
    + Letter(flags, NFS4_ACE_FAILED_ACCESS_ACE_FLAG, FLAG_FAILED_ACCESS)
    + Letter(flags, NFS4_ACE_IDENTIFIER_GROUP, FLAG_GROUP)
    + Letter(flags, NFS4_ACE_OWNER, FLAG_OWNER_AT)
    + Letter(flags, NFS4_ACE_GROUP, FLAG_GROUP_AT)
    + Letter(flags, NFS4_ACE_EVERYONE, FLAG_EVERYONE_AT)
  }

  /** The mask tests that differ: r w a D for a directory, r w a for a file. */
  function KindMaskText(mask: uint32, isDir: bool): (r: seq<byte>)
    ensures |r| <= (if isDir then 4 else 3) && COLON !in r
  {
    if isDir then
      Letter(mask, NFS4_ACE_LIST_DIRECTORY, PERM_LIST_DIR)
      + Letter(mask, NFS4_ACE_ADD_FILE, PERM_CREATE_FILE)
      + Letter(mask, NFS4_ACE_ADD_SUBDIRECTORY, PERM_CREATE_SUBDIR)
      + Letter(mask, NFS4_ACE_DELETE_CHILD, PERM_DELETE_CHILD)
    else
      Letter(mask, NFS4_ACE_READ_DATA, PERM_READ_DATA)
      + Letter(mask, NFS4_ACE_WRITE_DATA, PERM_WRITE_DATA)
      + Letter(mask, NFS4_ACE_APPEND_DATA, PERM_APPEND_DATA)
  }

  /** The mask tests common to both: d x t T n N c C o y. */
  function CommonMaskText(mask: uint32): (r: seq<byte>)
    ensures |r| <= 10 && COLON !in r
  {
    Letter(mask, NFS4_ACE_DELETE, PERM_DELETE)
    + Letter(mask, NFS4_ACE_EXECUTE, PERM_EXECUTE)
    + Letter(mask, NFS4_ACE_READ_ATTRIBUTES, PERM_READ_ATTR)
    + Letter(mask, NFS4_ACE_WRITE_ATTRIBUTES, PERM_WRITE_ATTR)
    + Letter(mask, NFS4_ACE_READ_NAMED_ATTRS, PERM_READ_NAMED_ATTR)
    + Letter(mask, NFS4_ACE_WRITE_NAMED_ATTRS, PERM_WRITE_NAMED_ATTR)
    + Letter(mask, NFS4_ACE_READ_ACL, PERM_READ_ACL)
    + Letter(mask, NFS4_ACE_WRITE_ACL, PERM_WRITE_ACL)
    + Letter(mask, NFS4_ACE_WRITE_OWNER, PERM_WRITE_OWNER)
    + Letter(mask, NFS4_ACE_SYNCHRONIZE, PERM_SYNCHRONIZE)
  }

  /** The mask field. */
  function MaskText(mask: uint32, isDir: bool): (r: seq<byte>)
    ensures |r| <= 14 && COLON !in r
  {
    KindMaskText(mask, isDir) + CommonMaskText(mask)
  }

  /** The field separator `':'`. */
  const COLON: byte := 0x3A


  // ---------------------------------------------------------------------
  // The tests as tables

  /** A table of `(bit, letter)` tests, every letter ASCII. */
  type LetterTable = t: seq<(uint32, char)> | forall i :: 0 <= i < |t| ==> t[i].1 as int < 128

  /** The flag tests of nfs4_acl.go:276-305, in order. */
  const FLAG_TABLE: LetterTable := [
    (NFS4_ACE_FILE_INHERIT_ACE, FLAG_FILE_INHERIT),
    (NFS4_ACE_DIRECTORY_INHERIT_ACE, FLAG_DIR_INHERIT),
    (NFS4_ACE_NO_PROPAGATE_INHERIT_ACE, FLAG_NO_PROPAGATE_INHERIT),
    (NFS4_ACE_INHERIT_ONLY_ACE, FLAG_INHERIT_ONLY),
    (NFS4_ACE_SUCCESSFUL_ACCESS_ACE_FLAG, FLAG_SUCCESSFUL_ACCESS),
    (NFS4_ACE_FAILED_ACCESS_ACE_FLAG, FLAG_FAILED_ACCESS),
    (NFS4_ACE_IDENTIFIER_GROUP, FLAG_GROUP),
    (NFS4_ACE_OWNER, FLAG_OWNER_AT),
    (NFS4_ACE_GROUP, FLAG_GROUP_AT),
    (NFS4_ACE_EVERYONE, FLAG_EVERYONE_AT)]

  /** The mask tests for a directory (nfs4_acl.go:313-325). */
  const DIR_MASK_TABLE: LetterTable := [
    (NFS4_ACE_LIST_DIRECTORY, PERM_LIST_DIR),
    (NFS4_ACE_ADD_FILE, PERM_CREATE_FILE),
    (NFS4_ACE_ADD_SUBDIRECTORY, PERM_CREATE_SUBDIR),
    (NFS4_ACE_DELETE_CHILD, PERM_DELETE_CHILD)]

  /** The mask tests for a file (nfs4_acl.go:326-336). */
  const FILE_MASK_TABLE: LetterTable := [
    (NFS4_ACE_READ_DATA, PERM_READ_DATA),
    (NFS4_ACE_WRITE_DATA, PERM_WRITE_DATA),
    (NFS4_ACE_APPEND_DATA, PERM_APPEND_DATA)]

  /** The mask tests for both (nfs4_acl.go:337-368). */
  const COMMON_MASK_TABLE: LetterTable := [
    (NFS4_ACE_DELETE, PERM_DELETE),
    (NFS4_ACE_EXECUTE, PERM_EXECUTE),
    (NFS4_ACE_READ_ATTRIBUTES, PERM_READ_ATTR),
    (NFS4_ACE_WRITE_ATTRIBUTES, PERM_WRITE_ATTR),
    (NFS4_ACE_READ_NAMED_ATTRS, PERM_READ_NAMED_ATTR),
    (NFS4_ACE_WRITE_NAMED_ATTRS, PERM_WRITE_NAMED_ATTR),
    (NFS4_ACE_READ_ACL, PERM_READ_ACL),
    (NFS4_ACE_WRITE_ACL, PERM_WRITE_ACL),
    (NFS4_ACE_WRITE_OWNER, PERM_WRITE_OWNER),
    (NFS4_ACE_SYNCHRONIZE, PERM_SYNCHRONIZE)]

  /** The mask tests in the order they run for a directory or a file. */
  function MaskTable(isDir: bool): LetterTable {
    (if isDir then DIR_MASK_TABLE else FILE_MASK_TABLE) + COMMON_MASK_TABLE
  }

  /** What the first k tests of a table write: the letters whose test passes, in table order. */
  function LettersUpTo(x: uint32, table: LetterTable, k: nat): seq<byte>
    requires k <= |table|
  {
    if k == 0 then [] else LettersUpTo(x, table, k - 1) + Letter(x, table[k - 1].0, table[k - 1].1)
  }

  /** What a whole table of tests writes. */
  function Letters(x: uint32, table: LetterTable): seq<byte> {
    LettersUpTo(x, table, |table|)
  }

  /** No letter is written by two tests of a table. */
  predicate DistinctLetters(table: LetterTable) {
    forall i, j :: 0 <= i < j < |table| ==> table[i].1 != table[j].1
  }

  /** The first k tests of `t + u` are the first k tests of `t`. */
  lemma {:induction false} LettersOfPrefix(x: uint32, t: LetterTable, u: LetterTable, k: nat)
    requires k <= |t|
    ensures LettersUpTo(x, t + u, k) == LettersUpTo(x, t, k)
  {
    if k > 0 {
      LettersOfPrefix(x, t, u, k - 1);
      assert (t + u)[k - 1] == t[k - 1];
    }
  }

  /** Running the tests of `t` and then the first j tests of `u` writes what each writes, in that order. */
  lemma {:induction false} LettersOfSuffix(x: uint32, t: LetterTable, u: LetterTable, j: nat)
    requires j <= |u|
    ensures LettersUpTo(x, t + u, |t| + j) == Letters(x, t) + LettersUpTo(x, u, j)
  {
    if j == 0 {
      LettersOfPrefix(x, t, u, |t|);
    } else {
      LettersOfSuffix(x, t, u, j - 1);
      assert (t + u)[|t| + j - 1] == u[j - 1];
    }
  }

  /** Two tables run one after the other write what each writes, in that order. */
  lemma LettersAppend(x: uint32, t: LetterTable, u: LetterTable)
    ensures Letters(x, t + u) == Letters(x, t) + Letters(x, u)
  {
    LettersOfSuffix(x, t, u, |u|);
  }

  /**
   * With distinct letters, the letter of one of the first k tests is written
   * exactly when its bit test passes, and nothing but their letters is written.
   */
  lemma {:induction false} LettersMembership(x: uint32, table: LetterTable, k: nat)
    requires k <= |table| && DistinctLetters(table)
    ensures forall i :: 0 <= i < k ==>
      (Byte(table[i].1) in LettersUpTo(x, table, k) <==> And(x, table[i].0) != 0)
    ensures forall b :: b in LettersUpTo(x, table, k) ==> exists i :: 0 <= i < k && b == Byte(table[i].1)
  {
    if k > 0 {
      LettersMembership(x, table, k - 1);
      forall b | b in LettersUpTo(x, table, k)
        ensures exists i :: 0 <= i < k && b == Byte(table[i].1)
      {
        if b !in LettersUpTo(x, table, k - 1) {
          assert b == Byte(table[k - 1].1);
        }
      }
    }
  }

  /** When every one of the first k tests fails, nothing is written. */
  lemma {:induction false} LettersNone(x: uint32, table: LetterTable, k: nat)
    requires k <= |table|
    requires forall i :: 0 <= i < k ==> And(x, table[i].0) == 0
    ensures LettersUpTo(x, table, k) == []
  {
    if k > 0 {
      LettersNone(x, table, k - 1);
    }
  }

  /** With no bit set, no letter is written. */
  lemma {:induction false} LettersOfZero(table: LetterTable, k: nat)
    requires k <= |table|
    ensures LettersUpTo(0, table, k) == []
  {
    if k > 0 {
      LettersOfZero(table, k - 1);
    }
  }

  /** A table writes at most one letter per test. */
  lemma {:induction false} LettersLength(x: uint32, table: LetterTable, k: nat)
    requires k <= |table|
    ensures |LettersUpTo(x, table, k)| <= k
  {
    if k > 0 {
      LettersLength(x, table, k - 1);
    }
  }

  /**
   * The whole line, `TYPE:FLAGS:WHO:MASK`: the flag and mask fields are
   * what the flag table and the mask table of the entry's kind write.
   */
  function AceText(a: Ace, verbose: bool, isDir: bool): (r: seq<byte>)
    ensures |a.who| + 3 <= |r| <= |a.who| + 32
  {
    LettersLength(a.flags, FLAG_TABLE, |FLAG_TABLE|);
    LettersLength(a.accessMask, MaskTable(isDir), |MaskTable(isDir)|);
    TypeText(a.aceType, verbose) + [COLON] + Letters(a.flags, FLAG_TABLE) + [COLON] + a.who + [COLON]
    + Letters(a.accessMask, MaskTable(isDir))
  }

  // ---------------------------------------------------------------------
  // The fields against the tables

  /** The flags field is what the flag table writes. */
  lemma FlagTextByTable(flags: uint32)
    ensures FlagText(flags) == Letters(flags, FLAG_TABLE)
  {
    assert LettersUpTo(flags, FLAG_TABLE, 1) == [] + Letter(flags, NFS4_ACE_FILE_INHERIT_ACE, FLAG_FILE_INHERIT);
    assert [] + Letter(flags, NFS4_ACE_FILE_INHERIT_ACE, FLAG_FILE_INHERIT) == Letter(flags, NFS4_ACE_FILE_INHERIT_ACE, FLAG_FILE_INHERIT);
    assert LettersUpTo(flags, FLAG_TABLE, 2) == Letter(flags, NFS4_ACE_FILE_INHERIT_ACE, FLAG_FILE_INHERIT) + Letter(flags, NFS4_ACE_DIRECTORY_INHERIT_ACE, FLAG_DIR_INHERIT);
    assert LettersUpTo(flags, FLAG_TABLE, 3) == Letter(flags, NFS4_ACE_FILE_INHERIT_ACE, FLAG_FILE_INHERIT) + Letter(flags, NFS4_ACE_DIRECTORY_INHERIT_ACE, FLAG_DIR_INHERIT) + Letter(flags, NFS4_ACE_NO_PROPAGATE_INHERIT_ACE, FLAG_NO_PROPAGATE_INHERIT);
    assert LettersUpTo(flags, FLAG_TABLE, 4) == Letter(flags, NFS4_ACE_FILE_INHERIT_ACE, FLAG_FILE_INHERIT) + Letter(flags, NFS4_ACE_DIRECTORY_INHERIT_ACE, FLAG_DIR_INHERIT) + Letter(flags, NFS4_ACE_NO_PROPAGATE_INHERIT_ACE, FLAG_NO_PROPAGATE_INHERIT) + Letter(flags, NFS4_ACE_INHERIT_ONLY_ACE, FLAG_INHERIT_ONLY);
    assert LettersUpTo(flags, FLAG_TABLE, 5) == Letter(flags, NFS4_ACE_FILE_INHERIT_ACE, FLAG_FILE_INHERIT) + Letter(flags, NFS4_ACE_DIRECTORY_INHERIT_ACE, FLAG_DIR_INHERIT) + Letter(flags, NFS4_ACE_NO_PROPAGATE_INHERIT_ACE, FLAG_NO_PROPAGATE_INHERIT) + Letter(flags, NFS4_ACE_INHERIT_ONLY_ACE, FLAG_INHERIT_ONLY) + Letter(flags, NFS4_ACE_SUCCESSFUL_ACCESS_ACE_FLAG, FLAG_SUCCESSFUL_ACCESS);
    assert LettersUpTo(flags, FLAG_TABLE, 6) == Letter(flags, NFS4_ACE_FILE_INHERIT_ACE, FLAG_FILE_INHERIT) + Letter(flags, NFS4_ACE_DIRECTORY_INHERIT_ACE, FLAG_DIR_INHERIT) + Letter(flags, NFS4_ACE_NO_PROPAGATE_INHERIT_ACE, FLAG_NO_PROPAGATE_INHERIT) + Letter(flags, NFS4_ACE_INHERIT_ONLY_ACE, FLAG_INHERIT_ONLY) + Letter(flags, NFS4_ACE_SUCCESSFUL_ACCESS_ACE_FLAG, FLAG_SUCCESSFUL_ACCESS) + Letter(flags, NFS4_ACE_FAILED_ACCESS_ACE_FLAG, FLAG_FAILED_ACCESS);
    assert LettersUpTo(flags, FLAG_TABLE, 7) == Letter(flags, NFS4_ACE_FILE_INHERIT_ACE, FLAG_FILE_INHERIT) + Letter(flags, NFS4_ACE_DIRECTORY_INHERIT_ACE, FLAG_DIR_INHERIT) + Letter(flags, NFS4_ACE_NO_PROPAGATE_INHERIT_ACE, FLAG_NO_PROPAGATE_INHERIT) + Letter(flags, NFS4_ACE_INHERIT_ONLY_ACE, FLAG_INHERIT_ONLY) + Letter(flags, NFS4_ACE_SUCCESSFUL_ACCESS_ACE_FLAG, FLAG_SUCCESSFUL_ACCESS) + Letter(flags, NFS4_ACE_FAILED_ACCESS_ACE_FLAG, FLAG_FAILED_ACCESS) + Letter(flags, NFS4_ACE_IDENTIFIER_GROUP, FLAG_GROUP);
    assert LettersUpTo(flags, FLAG_TABLE, 8) == Letter(flags, NFS4_ACE_FILE_INHERIT_ACE, FLAG_FILE_INHERIT) + Letter(flags, NFS4_ACE_DIRECTORY_INHERIT_ACE, FLAG_DIR_INHERIT) + Letter(flags, NFS4_ACE_NO_PROPAGATE_INHERIT_ACE, FLAG_NO_PROPAGATE_INHERIT) + Letter(flags, NFS4_ACE_INHERIT_ONLY_ACE, FLAG_INHERIT_ONLY) + Letter(flags, NFS4_ACE_SUCCESSFUL_ACCESS_ACE_FLAG, FLAG_SUCCESSFUL_ACCESS) + Letter(flags, NFS4_ACE_FAILED_ACCESS_ACE_FLAG, FLAG_FAILED_ACCESS) + Letter(flags, NFS4_ACE_IDENTIFIER_GROUP, FLAG_GROUP) + Letter(flags, NFS4_ACE_OWNER, FLAG_OWNER_AT);
    assert LettersUpTo(flags, FLAG_TABLE, 9) == Letter(flags, NFS4_ACE_FILE_INHERIT_ACE, FLAG_FILE_INHERIT) + Letter(flags, NFS4_ACE_DIRECTORY_INHERIT_ACE, FLAG_DIR_INHERIT) + Letter(flags, NFS4_ACE_NO_PROPAGATE_INHERIT_ACE, FLAG_NO_PROPAGATE_INHERIT) + Letter(flags, NFS4_ACE_INHERIT_ONLY_ACE, FLAG_INHERIT_ONLY) + Letter(flags, NFS4_ACE_SUCCESSFUL_ACCESS_ACE_FLAG, FLAG_SUCCESSFUL_ACCESS) + Letter(flags, NFS4_ACE_FAILED_ACCESS_ACE_FLAG, FLAG_FAILED_ACCESS) + Letter(flags, NFS4_ACE_IDENTIFIER_GROUP, FLAG_GROUP) + Letter(flags, NFS4_ACE_OWNER, FLAG_OWNER_AT) + Letter(flags, NFS4_ACE_GROUP, FLAG_GROUP_AT);
    assert LettersUpTo(flags, FLAG_TABLE, 10) == Letter(flags, NFS4_ACE_FILE_INHERIT_ACE, FLAG_FILE_INHERIT) + Letter(flags, NFS4_ACE_DIRECTORY_INHERIT_ACE, FLAG_DIR_INHERIT) + Letter(flags, NFS4_ACE_NO_PROPAGATE_INHERIT_ACE, FLAG_NO_PROPAGATE_INHERIT) + Letter(flags, NFS4_ACE_INHERIT_ONLY_ACE, FLAG_INHERIT_ONLY) + Letter(flags, NFS4_ACE_SUCCESSFUL_ACCESS_ACE_FLAG, FLAG_SUCCESSFUL_ACCESS) + Letter(flags, NFS4_ACE_FAILED_ACCESS_ACE_FLAG, FLAG_FAILED_ACCESS) + Letter(flags, NFS4_ACE_IDENTIFIER_GROUP, FLAG_GROUP) + Letter(flags, NFS4_ACE_OWNER, FLAG_OWNER_AT) + Letter(flags, NFS4_ACE_GROUP, FLAG_GROUP_AT) + Letter(flags, NFS4_ACE_EVERYONE, FLAG_EVERYONE_AT);
  }

  /** The kind-specific mask tests are what the directory or file table writes. */
  lemma KindMaskTextByTable(mask: uint32, isDir: bool)
    ensures KindMaskText(mask, isDir) == Letters(mask, if isDir then DIR_MASK_TABLE else FILE_MASK_TABLE)
  {
    if isDir {
      assert LettersUpTo(mask, DIR_MASK_TABLE, 1) == [] + Letter(mask, NFS4_ACE_LIST_DIRECTORY, PERM_LIST_DIR);
      assert [] + Letter(mask, NFS4_ACE_LIST_DIRECTORY, PERM_LIST_DIR) == Letter(mask, NFS4_ACE_LIST_DIRECTORY, PERM_LIST_DIR);
      assert LettersUpTo(mask, DIR_MASK_TABLE, 2) == Letter(mask, NFS4_ACE_LIST_DIRECTORY, PERM_LIST_DIR) + Letter(mask, NFS4_ACE_ADD_FILE, PERM_CREATE_FILE);
      assert LettersUpTo(mask, DIR_MASK_TABLE, 3) == Letter(mask, NFS4_ACE_LIST_DIRECTORY, PERM_LIST_DIR) + Letter(mask, NFS4_ACE_ADD_FILE, PERM_CREATE_FILE) + Letter(mask, NFS4_ACE_ADD_SUBDIRECTORY, PERM_CREATE_SUBDIR);
      assert LettersUpTo(mask, DIR_MASK_TABLE, 4) == Letter(mask, NFS4_ACE_LIST_DIRECTORY, PERM_LIST_DIR) + Letter(mask, NFS4_ACE_ADD_FILE, PERM_CREATE_FILE) + Letter(mask, NFS4_ACE_ADD_SUBDIRECTORY, PERM_CREATE_SUBDIR) + Letter(mask, NFS4_ACE_DELETE_CHILD, PERM_DELETE_CHILD);
    } else {
      assert LettersUpTo(mask, FILE_MASK_TABLE, 1) == [] + Letter(mask, NFS4_ACE_READ_DATA, PERM_READ_DATA);
      assert [] + Letter(mask, NFS4_ACE_READ_DATA, PERM_READ_DATA) == Letter(mask, NFS4_ACE_READ_DATA, PERM_READ_DATA);
      assert LettersUpTo(mask, FILE_MASK_TABLE, 2) == Letter(mask, NFS4_ACE_READ_DATA, PERM_READ_DATA) + Letter(mask, NFS4_ACE_WRITE_DATA, PERM_WRITE_DATA);
      assert LettersUpTo(mask, FILE_MASK_TABLE, 3) == Letter(mask, NFS4_ACE_READ_DATA, PERM_READ_DATA) + Letter(mask, NFS4_ACE_WRITE_DATA, PERM_WRITE_DATA) + Letter(mask, NFS4_ACE_APPEND_DATA, PERM_APPEND_DATA);
    }
  }

  /** The common mask tests are what the common table writes. */
  lemma CommonMaskTextByTable(mask: uint32)
    ensures CommonMaskText(mask) == Letters(mask, COMMON_MASK_TABLE)
  {
    assert LettersUpTo(mask, COMMON_MASK_TABLE, 1) == [] + Letter(mask, NFS4_ACE_DELETE, PERM_DELETE);
    assert [] + Letter(mask, NFS4_ACE_DELETE, PERM_DELETE) == Letter(mask, NFS4_ACE_DELETE, PERM_DELETE);
    assert LettersUpTo(mask, COMMON_MASK_TABLE, 2) == Letter(mask, NFS4_ACE_DELETE, PERM_DELETE) + Letter(mask, NFS4_ACE_EXECUTE, PERM_EXECUTE);
    assert LettersUpTo(mask, COMMON_MASK_TABLE, 3) == Letter(mask, NFS4_ACE_DELETE, PERM_DELETE) + Letter(mask, NFS4_ACE_EXECUTE, PERM_EXECUTE) + Letter(mask, NFS4_ACE_READ_ATTRIBUTES, PERM_READ_ATTR);
    assert LettersUpTo(mask, COMMON_MASK_TABLE, 4) == Letter(mask, NFS4_ACE_DELETE, PERM_DELETE) + Letter(mask, NFS4_ACE_EXECUTE, PERM_EXECUTE) + Letter(mask, NFS4_ACE_READ_ATTRIBUTES, PERM_READ_ATTR) + Letter(mask, NFS4_ACE_WRITE_ATTRIBUTES, PERM_WRITE_ATTR);
    assert LettersUpTo(mask, COMMON_MASK_TABLE, 5) == Letter(mask, NFS4_ACE_DELETE, PERM_DELETE) + Letter(mask, NFS4_ACE_EXECUTE, PERM_EXECUTE) + Letter(mask, NFS4_ACE_READ_ATTRIBUTES, PERM_READ_ATTR) + Letter(mask, NFS4_ACE_WRITE_ATTRIBUTES, PERM_WRITE_ATTR) + Letter(mask, NFS4_ACE_READ_NAMED_ATTRS, PERM_READ_NAMED_ATTR);
    assert LettersUpTo(mask, COMMON_MASK_TABLE, 6) == Letter(mask, NFS4_ACE_DELETE, PERM_DELETE) + Letter(mask, NFS4_ACE_EXECUTE, PERM_EXECUTE) + Letter(mask, NFS4_ACE_READ_ATTRIBUTES, PERM_READ_ATTR) + Letter(mask, NFS4_ACE_WRITE_ATTRIBUTES, PERM_WRITE_ATTR) + Letter(mask, NFS4_ACE_READ_NAMED_ATTRS, PERM_READ_NAMED_ATTR) + Letter(mask, NFS4_ACE_WRITE_NAMED_ATTRS, PERM_WRITE_NAMED_ATTR);
    assert LettersUpTo(mask, COMMON_MASK_TABLE, 7) == Letter(mask, NFS4_ACE_DELETE, PERM_DELETE) + Letter(mask, NFS4_ACE_EXECUTE, PERM_EXECUTE) + Letter(mask, NFS4_ACE_READ_ATTRIBUTES, PERM_READ_ATTR) + Letter(mask, NFS4_ACE_WRITE_ATTRIBUTES, PERM_WRITE_ATTR) + Letter(mask, NFS4_ACE_READ_NAMED_ATTRS, PERM_READ_NAMED_ATTR) + Letter(mask, NFS4_ACE_WRITE_NAMED_ATTRS, PERM_WRITE_NAMED_ATTR) + Letter(mask, NFS4_ACE_READ_ACL, PERM_READ_ACL);
    assert LettersUpTo(mask, COMMON_MASK_TABLE, 8) == Letter(mask, NFS4_ACE_DELETE, PERM_DELETE) + Letter(mask, NFS4_ACE_EXECUTE, PERM_EXECUTE) + Letter(mask, NFS4_ACE_READ_ATTRIBUTES, PERM_READ_ATTR) + Letter(mask, NFS4_ACE_WRITE_ATTRIBUTES, PERM_WRITE_ATTR) + Letter(mask, NFS4_ACE_READ_NAMED_ATTRS, PERM_READ_NAMED_ATTR) + Letter(mask, NFS4_ACE_WRITE_NAMED_ATTRS, PERM_WRITE_NAMED_ATTR) + Letter(mask, NFS4_ACE_READ_ACL, PERM_READ_ACL) + Letter(mask, NFS4_ACE_WRITE_ACL, PERM_WRITE_ACL);
    assert LettersUpTo(mask, COMMON_MASK_TABLE, 9) == Letter(mask, NFS4_ACE_DELETE, PERM_DELETE) + Letter(mask, NFS4_ACE_EXECUTE, PERM_EXECUTE) + Letter(mask, NFS4_ACE_READ_ATTRIBUTES, PERM_READ_ATTR) + Letter(mask, NFS4_ACE_WRITE_ATTRIBUTES, PERM_WRITE_ATTR) + Letter(mask, NFS4_ACE_READ_NAMED_ATTRS, PERM_READ_NAMED_ATTR) + Letter(mask, NFS4_ACE_WRITE_NAMED_ATTRS, PERM_WRITE_NAMED_ATTR) + Letter(mask, NFS4_ACE_READ_ACL, PERM_READ_ACL) + Letter(mask, NFS4_ACE_WRITE_ACL, PERM_WRITE_ACL) + Letter(mask, NFS4_ACE_WRITE_OWNER, PERM_WRITE_OWNER);
    assert LettersUpTo(mask, COMMON_MASK_TABLE, 10) == Letter(mask, NFS4_ACE_DELETE, PERM_DELETE) + Letter(mask, NFS4_ACE_EXECUTE, PERM_EXECUTE) + Letter(mask, NFS4_ACE_READ_ATTRIBUTES, PERM_READ_ATTR) + Letter(mask, NFS4_ACE_WRITE_ATTRIBUTES, PERM_WRITE_ATTR) + Letter(mask, NFS4_ACE_READ_NAMED_ATTRS, PERM_READ_NAMED_ATTR) + Letter(mask, NFS4_ACE_WRITE_NAMED_ATTRS, PERM_WRITE_NAMED_ATTR) + Letter(mask, NFS4_ACE_READ_ACL, PERM_READ_ACL) + Letter(mask, NFS4_ACE_WRITE_ACL, PERM_WRITE_ACL) + Letter(mask, NFS4_ACE_WRITE_OWNER, PERM_WRITE_OWNER) + Letter(mask, NFS4_ACE_SYNCHRONIZE, PERM_SYNCHRONIZE);
  }

  /** The mask field is what the mask table of its kind writes. */
  lemma MaskTextByTable(mask: uint32, isDir: bool)
    ensures MaskText(mask, isDir) == Letters(mask, MaskTable(isDir))
  {
    KindMaskTextByTable(mask, isDir);
    CommonMaskTextByTable(mask);
    LettersAppend(mask, if isDir then DIR_MASK_TABLE else FILE_MASK_TABLE, COMMON_MASK_TABLE);
  }

  /** The flag tests are of bits 0 to 9, in that order, with distinct letters. */
  lemma FlagTableBits()
    ensures |FLAG_TABLE| == 10 && DistinctLetters(FLAG_TABLE)
    ensures forall i :: 0 <= i < 10 ==> FLAG_TABLE[i].0 == Pow2(i)
  {
    forall i | 0 <= i < 10
      ensures FLAG_TABLE[i].0 == Pow2(i)
    {
      assert i == 0 || i == 1 || i == 2 || i == 3 || i == 4 || i == 5 || i == 6 || i == 7 || i == 8 || i == 9;
    }
  }

  /**
   * The letter of flag bit i appears in the flags field exactly when bit i
   * is set; nothing but flag letters appears; at most ten letters are written.
   */
  lemma FlagLetters(flags: uint32)
    ensures forall i :: 0 <= i < |FLAG_TABLE| ==> (Byte(FLAG_TABLE[i].1) in FlagText(flags) <==> Bit(flags, i))
    ensures forall b :: b in FlagText(flags) ==> exists i :: 0 <= i < |FLAG_TABLE| && b == Byte(FLAG_TABLE[i].1)
    ensures |FlagText(flags)| <= 10
  {
    FlagTableBits();
    FlagTextByTable(flags);
    LettersMembership(flags, FLAG_TABLE, 10);
    LettersLength(flags, FLAG_TABLE, 10);
    forall i | 0 <= i < |FLAG_TABLE|
      ensures And(flags, FLAG_TABLE[i].0) != 0 <==> Bit(flags, i)
    {
      var h := HasBit(flags, i);
    }
  }

  /** The mask letters are distinct, for a directory and for a file. */
  lemma MaskTableDistinct(isDir: bool)
    ensures DistinctLetters(MaskTable(isDir))
  {
  }

  /**
   * A mask letter appears in the mask field exactly when its bit test
   * passes, and nothing but the letters of the mask table of that kind appears.
   */
  lemma MaskLetters(mask: uint32, isDir: bool)
    ensures forall i :: 0 <= i < |MaskTable(isDir)| ==>
      (Byte(MaskTable(isDir)[i].1) in MaskText(mask, isDir) <==> And(mask, MaskTable(isDir)[i].0) != 0)
    ensures forall b :: b in MaskText(mask, isDir) ==>
      exists i :: 0 <= i < |MaskTable(isDir)| && b == Byte(MaskTable(isDir)[i].1)
  {
    MaskTableDistinct(isDir);
    MaskTextByTable(mask, isDir);
    LettersMembership(mask, MaskTable(isDir), |MaskTable(isDir)|);
  }

  /** No flag or mask letter is the separator. */
  lemma LettersAreNotColon(isDir: bool)
    ensures forall i :: 0 <= i < |FLAG_TABLE| ==> Byte(FLAG_TABLE[i].1) != COLON
    ensures forall i :: 0 <= i < |MaskTable(isDir)| ==> Byte(MaskTable(isDir)[i].1) != COLON
  {
    forall i | 0 <= i < |FLAG_TABLE|
      ensures Byte(FLAG_TABLE[i].1) != COLON
    {
      assert i == 0 || i == 1 || i == 2 || i == 3 || i == 4 || i == 5 || i == 6 || i == 7 || i == 8 || i == 9;
    }
    forall i | 0 <= i < |MaskTable(isDir)|
      ensures Byte(MaskTable(isDir)[i].1) != COLON
    {
      assert i < 14;
    }
  }

  /** Where the four fields and the three separators sit in `t:f:w:m`. */
  lemma FieldSlices<T>(t: seq<T>, f: seq<T>, w: seq<T>, m: seq<T>, c: T)
    ensures var line := t + [c] + f + [c] + w + [c] + m;
      && |line| == |t| + |f| + |w| + |m| + 3
      && line[..|t|] == t && line[|t|] == c
      && line[|t| + 1..|t| + 1 + |f|] == f && line[|t| + 1 + |f|] == c
      && line[|t| + |f| + 2..|t| + |f| + 2 + |w|] == w
      && line[|line| - |m| - 1] == c && line[|line| - |m|..] == m
  {
  }

  /**
   * The line can be taken apart again: the first separator ends the type,
   * the second ends the flags, and the last starts the mask, whatever the
   * who string holds.
   */
  lemma AceTextLayout(a: Ace, verbose: bool, isDir: bool)
    ensures var line, t, f, m := AceText(a, verbose, isDir), TypeText(a.aceType, verbose), FlagText(a.flags), MaskText(a.accessMask, isDir);
      && |line| == |t| + |f| + |a.who| + |m| + 3
      && line[..|t|] == t && line[|t|] == COLON
      && line[|t| + 1..|t| + 1 + |f|] == f && line[|t| + 1 + |f|] == COLON
      && line[|t| + |f| + 2..|t| + |f| + 2 + |a.who|] == a.who
      && line[|line| - |m| - 1] == COLON && line[|line| - |m|..] == m
      && COLON !in t && COLON !in f && COLON !in m
  {
    FlagTextByTable(a.flags);
    MaskTextByTable(a.accessMask, isDir);
    FieldSlices(TypeText(a.aceType, verbose), FlagText(a.flags), a.who, MaskText(a.accessMask, isDir), COLON);
  }

  /** On a file, a mask of only the write-data bit reads `w`. */
  lemma WriteDataMaskText()
    ensures MaskText(NFS4_ACE_WRITE_DATA, false) == [Byte(PERM_WRITE_DATA)]
  {
    assert KindMaskText(2, false) == [] + [0x77] + [];
    forall i | 0 <= i < |COMMON_MASK_TABLE|
      ensures And(2, COMMON_MASK_TABLE[i].0) == 0
    {
      assert i == 0 || i == 1 || i == 2 || i == 3 || i == 4 || i == 5 || i == 6 || i == 7 || i == 8 || i == 9;
    }
    LettersNone(2, COMMON_MASK_TABLE, 10);
    CommonMaskTextByTable(2);
  }

  /** The fields of the worked example, joined, spell `A::OWNER@:w`. */
  lemma ExampleSpelled()
    ensures [0x41] + [COLON] + [] + [COLON] + NFS4_ACL_WHO_OWNER_STRING + [COLON] + [0x77] == Ascii("A::OWNER@:w")
  {
  }

  /** The worked example: ALLOW, no flags, write-data on a file, for OWNER@. */
  lemma AceTextExample()
    ensures AceText(NewNfs4Ace(NFS4_ACE_ACCESS_ALLOWED_ACE_TYPE, 0, NFS4_ACE_WRITE_DATA, NFS4_ACL_WHO_OWNER_STRING),
                    false, false)
         == Ascii("A::OWNER@:w")
  {
    var a := NewNfs4Ace(NFS4_ACE_ACCESS_ALLOWED_ACE_TYPE, 0, NFS4_ACE_WRITE_DATA, NFS4_ACL_WHO_OWNER_STRING);
    LettersOfZero(FLAG_TABLE, 10);
    WriteDataMaskText();
    MaskTextByTable(NFS4_ACE_WRITE_DATA, false);
    assert TypeText(a.aceType, false) == [0x41];
    assert AceText(a, false, false) == [0x41] + [COLON] + [] + [COLON] + NFS4_ACL_WHO_OWNER_STRING + [COLON] + [0x77];
    ExampleSpelled();
  }

  // ---------------------------------------------------------------------
  // Writing the text step by step

  /** One bit test: `if x & bit != 0 { buffer.WriteRune(c) }`. */
  method WriteLetter(buffer: seq<byte>, x: uint32, bit: uint32, c: char) returns (b: seq<byte>)
    requires c as int < 128
    ensures b == buffer + Letter(x, bit, c)
  {
    b := buffer;
    if And(x, bit) != 0 {
      b := b + [Byte(c)];
    }
  }

  /** The type switch: the word or the letter of a known type, nothing otherwise. */
  method WriteType(buffer: seq<byte>, aceType: uint32, verbose: bool) returns (b: seq<byte>)
    ensures b == buffer + TypeText(aceType, verbose)
  {
    b := buffer;
    if verbose {
      if aceType == NFS4_ACE_ACCESS_ALLOWED_ACE_TYPE {
        b := b + Ascii("ALLOW");
      } else if aceType == NFS4_ACE_ACCESS_DENIED_ACE_TYPE {
        b := b + Ascii("DENY");
      } else if aceType == NFS4_ACE_SYSTEM_AUDIT_ACE_TYPE {
        b := b + Ascii("AUDIT");
      } else if aceType == NFS4_ACE_SYSTEM_ALARM_ACE_TYPE {
        b := b + Ascii("ALARM");
      }
    } else {
      if aceType == NFS4_ACE_ACCESS_ALLOWED_ACE_TYPE {
        b := b + [Byte(TYPE_ALLOW)];
      } else if aceType == NFS4_ACE_ACCESS_DENIED_ACE_TYPE {
        b := b + [Byte(TYPE_DENY)];
      } else if aceType == NFS4_ACE_SYSTEM_AUDIT_ACE_TYPE {
        b := b + [Byte(TYPE_AUDIT)];
      } else if aceType == NFS4_ACE_SYSTEM_ALARM_ACE_TYPE {
        b := b + [Byte(TYPE_ALARM)];
      }
    }
  }

  /** The ten flag tests, in order. */
  method WriteFlags(buffer: seq<byte>, flags: uint32) returns (b: seq<byte>)
    ensures b == buffer + FlagText(flags)
  {
    b := buffer;
    ghost var w: seq<byte>, b0 := [], b;
    b := WriteLetter(b, flags, NFS4_ACE_FILE_INHERIT_ACE, FLAG_FILE_INHERIT);
    Appended(buffer, w, b0, Letter(flags, NFS4_ACE_FILE_INHERIT_ACE, FLAG_FILE_INHERIT), b);
    w, b0 := w + Letter(flags, NFS4_ACE_FILE_INHERIT_ACE, FLAG_FILE_INHERIT), b;
    b := WriteLetter(b, flags, NFS4_ACE_DIRECTORY_INHERIT_ACE, FLAG_DIR_INHERIT);
    Appended(buffer, w, b0, Letter(flags, NFS4_ACE_DIRECTORY_INHERIT_ACE, FLAG_DIR_INHERIT), b);
    w, b0 := w + Letter(flags, NFS4_ACE_DIRECTORY_INHERIT_ACE, FLAG_DIR_INHERIT), b;
    b := WriteLetter(b, flags, NFS4_ACE_NO_PROPAGATE_INHERIT_ACE, FLAG_NO_PROPAGATE_INHERIT);
    Appended(buffer, w, b0, Letter(flags, NFS4_ACE_NO_PROPAGATE_INHERIT_ACE, FLAG_NO_PROPAGATE_INHERIT), b);
    w, b0 := w + Letter(flags, NFS4_ACE_NO_PROPAGATE_INHERIT_ACE, FLAG_NO_PROPAGATE_INHERIT), b;
    b := WriteLetter(b, flags, NFS4_ACE_INHERIT_ONLY_ACE, FLAG_INHERIT_ONLY);
    Appended(buffer, w, b0, Letter(flags, NFS4_ACE_INHERIT_ONLY_ACE, FLAG_INHERIT_ONLY), b);
    w, b0 := w + Letter(flags, NFS4_ACE_INHERIT_ONLY_ACE, FLAG_INHERIT_ONLY), b;
    b := WriteLetter(b, flags, NFS4_ACE_SUCCESSFUL_ACCESS_ACE_FLAG, FLAG_SUCCESSFUL_ACCESS);
    Appended(buffer, w, b0, Letter(flags, NFS4_ACE_SUCCESSFUL_ACCESS_ACE_FLAG, FLAG_SUCCESSFUL_ACCESS), b);
    w, b0 := w + Letter(flags, NFS4_ACE_SUCCESSFUL_ACCESS_ACE_FLAG, FLAG_SUCCESSFUL_ACCESS), b;
    b := WriteLetter(b, flags, NFS4_ACE_FAILED_ACCESS_ACE_FLAG, FLAG_FAILED_ACCESS);
    Appended(buffer, w, b0, Letter(flags, NFS4_ACE_FAILED_ACCESS_ACE_FLAG, FLAG_FAILED_ACCESS), b);
    w, b0 := w + Letter(flags, NFS4_ACE_FAILED_ACCESS_ACE_FLAG, FLAG_FAILED_ACCESS), b;
    b := WriteLetter(b, flags, NFS4_ACE_IDENTIFIER_GROUP, FLAG_GROUP);
    Appended(buffer, w, b0, Letter(flags, NFS4_ACE_IDENTIFIER_GROUP, FLAG_GROUP), b);
    w, b0 := w + Letter(flags, NFS4_ACE_IDENTIFIER_GROUP, FLAG_GROUP), b;
    b := WriteLetter(b, flags, NFS4_ACE_OWNER, FLAG_OWNER_AT);
    Appended(buffer, w, b0, Letter(flags, NFS4_ACE_OWNER, FLAG_OWNER_AT), b);
    w, b0 := w + Letter(flags, NFS4_ACE_OWNER, FLAG_OWNER_AT), b;
    b := WriteLetter(b, flags, NFS4_ACE_GROUP, FLAG_GROUP_AT);
    Appended(buffer, w, b0, Letter(flags, NFS4_ACE_GROUP, FLAG_GROUP_AT), b);
    w, b0 := w + Letter(flags, NFS4_ACE_GROUP, FLAG_GROUP_AT), b;
    b := WriteLetter(b, flags, NFS4_ACE_EVERYONE, FLAG_EVERYONE_AT);
    Appended(buffer, w, b0, Letter(flags, NFS4_ACE_EVERYONE, FLAG_EVERYONE_AT), b);
    w, b0 := w + Letter(flags, NFS4_ACE_EVERYONE, FLAG_EVERYONE_AT), b;
    assert [] + Letter(flags, NFS4_ACE_FILE_INHERIT_ACE, FLAG_FILE_INHERIT) == Letter(flags, NFS4_ACE_FILE_INHERIT_ACE, FLAG_FILE_INHERIT);
  }

  /** The mask tests that differ between a directory and a file. */
  method WriteKindMask(buffer: seq<byte>, mask: uint32, isDir: bool) returns (b: seq<byte>)
    ensures b == buffer + KindMaskText(mask, isDir)
  {
    b := buffer;
    ghost var w: seq<byte>, b0 := [], b;
    if isDir {
      b := WriteLetter(b, mask, NFS4_ACE_LIST_DIRECTORY, PERM_LIST_DIR);
      Appended(buffer, w, b0, Letter(mask, NFS4_ACE_LIST_DIRECTORY, PERM_LIST_DIR), b);
      w, b0 := w + Letter(mask, NFS4_ACE_LIST_DIRECTORY, PERM_LIST_DIR), b;
      b := WriteLetter(b, mask, NFS4_ACE_ADD_FILE, PERM_CREATE_FILE);
      Appended(buffer, w, b0, Letter(mask, NFS4_ACE_ADD_FILE, PERM_CREATE_FILE), b);
      w, b0 := w + Letter(mask, NFS4_ACE_ADD_FILE, PERM_CREATE_FILE), b;
      b := WriteLetter(b, mask, NFS4_ACE_ADD_SUBDIRECTORY, PERM_CREATE_SUBDIR);
      Appended(buffer, w, b0, Letter(mask, NFS4_ACE_ADD_SUBDIRECTORY, PERM_CREATE_SUBDIR), b);
      w, b0 := w + Letter(mask, NFS4_ACE_ADD_SUBDIRECTORY, PERM_CREATE_SUBDIR), b;
      b := WriteLetter(b, mask, NFS4_ACE_DELETE_CHILD, PERM_DELETE_CHILD);
      Appended(buffer, w, b0, Letter(mask, NFS4_ACE_DELETE_CHILD, PERM_DELETE_CHILD), b);
      w, b0 := w + Letter(mask, NFS4_ACE_DELETE_CHILD, PERM_DELETE_CHILD), b;
      assert [] + Letter(mask, NFS4_ACE_LIST_DIRECTORY, PERM_LIST_DIR) == Letter(mask, NFS4_ACE_LIST_DIRECTORY, PERM_LIST_DIR);
    } else {
      b := WriteLetter(b, mask, NFS4_ACE_READ_DATA, PERM_READ_DATA);
      Appended(buffer, w, b0, Letter(mask, NFS4_ACE_READ_DATA, PERM_READ_DATA), b);
      w, b0 := w + Letter(mask, NFS4_ACE_READ_DATA, PERM_READ_DATA), b;
      b := WriteLetter(b, mask, NFS4_ACE_WRITE_DATA, PERM_WRITE_DATA);
      Appended(buffer, w, b0, Letter(mask, NFS4_ACE_WRITE_DATA, PERM_WRITE_DATA), b);
      w, b0 := w + Letter(mask, NFS4_ACE_WRITE_DATA, PERM_WRITE_DATA), b;
      b := WriteLetter(b, mask, NFS4_ACE_APPEND_DATA, PERM_APPEND_DATA);
      Appended(buffer, w, b0, Letter(mask, NFS4_ACE_APPEND_DATA, PERM_APPEND_DATA), b);
      w, b0 := w + Letter(mask, NFS4_ACE_APPEND_DATA, PERM_APPEND_DATA), b;
      assert [] + Letter(mask, NFS4_ACE_READ_DATA, PERM_READ_DATA) == Letter(mask, NFS4_ACE_READ_DATA, PERM_READ_DATA);
    }
  }

  /** The mask tests common to directories and files. */
  method WriteCommonMask(buffer: seq<byte>, mask: uint32) returns (b: seq<byte>)
    ensures b == buffer + CommonMaskText(mask)
  {
    b := buffer;
    ghost var w: seq<byte>, b0 := [], b;
    b := WriteLetter(b, mask, NFS4_ACE_DELETE, PERM_DELETE);
    Appended(buffer, w, b0, Letter(mask, NFS4_ACE_DELETE, PERM_DELETE), b);
    w, b0 := w + Letter(mask, NFS4_ACE_DELETE, PERM_DELETE), b;
    b := WriteLetter(b, mask, NFS4_ACE_EXECUTE, PERM_EXECUTE);
    Appended(buffer, w, b0, Letter(mask, NFS4_ACE_EXECUTE, PERM_EXECUTE), b);
    w, b0 := w + Letter(mask, NFS4_ACE_EXECUTE, PERM_EXECUTE), b;
    b := WriteLetter(b, mask, NFS4_ACE_READ_ATTRIBUTES, PERM_READ_ATTR);
    Appended(buffer, w, b0, Letter(mask, NFS4_ACE_READ_ATTRIBUTES, PERM_READ_ATTR), b);
    w, b0 := w + Letter(mask, NFS4_ACE_READ_ATTRIBUTES, PERM_READ_ATTR), b;
    b := WriteLetter(b, mask, NFS4_ACE_WRITE_ATTRIBUTES, PERM_WRITE_ATTR);
    Appended(buffer, w, b0, Letter(mask, NFS4_ACE_WRITE_ATTRIBUTES, PERM_WRITE_ATTR), b);
    w, b0 := w + Letter(mask, NFS4_ACE_WRITE_ATTRIBUTES, PERM_WRITE_ATTR), b;
    b := WriteLetter(b, mask, NFS4_ACE_READ_NAMED_ATTRS, PERM_READ_NAMED_ATTR);
    Appended(buffer, w, b0, Letter(mask, NFS4_ACE_READ_NAMED_ATTRS, PERM_READ_NAMED_ATTR), b);
    w, b0 := w + Letter(mask, NFS4_ACE_READ_NAMED_ATTRS, PERM_READ_NAMED_ATTR), b;
    b := WriteLetter(b, mask, NFS4_ACE_WRITE_NAMED_ATTRS, PERM_WRITE_NAMED_ATTR);
    Appended(buffer, w, b0, Letter(mask, NFS4_ACE_WRITE_NAMED_ATTRS, PERM_WRITE_NAMED_ATTR), b);
    w, b0 := w + Letter(mask, NFS4_ACE_WRITE_NAMED_ATTRS, PERM_WRITE_NAMED_ATTR), b;
    b := WriteLetter(b, mask, NFS4_ACE_READ_ACL, PERM_READ_ACL);
    Appended(buffer, w, b0, Letter(mask, NFS4_ACE_READ_ACL, PERM_READ_ACL), b);
    w, b0 := w + Letter(mask, NFS4_ACE_READ_ACL, PERM_READ_ACL), b;
    b := WriteLetter(b, mask, NFS4_ACE_WRITE_ACL, PERM_WRITE_ACL);
    Appended(buffer, w, b0, Letter(mask, NFS4_ACE_WRITE_ACL, PERM_WRITE_ACL), b);
    w, b0 := w + Letter(mask, NFS4_ACE_WRITE_ACL, PERM_WRITE_ACL), b;
    b := WriteLetter(b, mask, NFS4_ACE_WRITE_OWNER, PERM_WRITE_OWNER);
    Appended(buffer, w, b0, Letter(mask, NFS4_ACE_WRITE_OWNER, PERM_WRITE_OWNER), b);
    w, b0 := w + Letter(mask, NFS4_ACE_WRITE_OWNER, PERM_WRITE_OWNER), b;
    b := WriteLetter(b, mask, NFS4_ACE_SYNCHRONIZE, PERM_SYNCHRONIZE);
    Appended(buffer, w, b0, Letter(mask, NFS4_ACE_SYNCHRONIZE, PERM_SYNCHRONIZE), b);
    w, b0 := w + Letter(mask, NFS4_ACE_SYNCHRONIZE, PERM_SYNCHRONIZE), b;
    assert [] + Letter(mask, NFS4_ACE_DELETE, PERM_DELETE) == Letter(mask, NFS4_ACE_DELETE, PERM_DELETE);
  }

  /** The mask field: the kind-specific tests, then the common ones. */
  method WriteMask(buffer: seq<byte>, mask: uint32, isDir: bool) returns (b: seq<byte>)
    ensures b == buffer + MaskText(mask, isDir)
  {
    b := WriteKindMask(buffer, mask, isDir);
    ghost var b0 := b;
    b := WriteCommonMask(b, mask);
    Appended(buffer, KindMaskText(mask, isDir), b0, CommonMaskText(mask), b);
  }

  /**
   * `Nfs4_print_ace` up to the `fmt.Println`: the type, the flags, the who
   * string and the mask, separated by `':'`, written into a fresh buffer.
   */
  method AceLine(a: Ace, verbose: bool, isDir: bool) returns (line: seq<byte>)
    ensures line == AceText(a, verbose, isDir)
  {
    line := WriteType([], a.aceType, verbose);
    ghost var w, b0 := TypeText(a.aceType, verbose), line;
    assert line == [] + w;
    line := line + [COLON];
    Appended([], w, b0, [COLON], line);
    w, b0 := w + [COLON], line;
    line := WriteFlags(line, a.flags);
    Appended([], w, b0, FlagText(a.flags), line);
    w, b0 := w + FlagText(a.flags), line;
    line := line + [COLON];
    Appended([], w, b0, [COLON], line);
    w, b0 := w + [COLON], line;
    line := line + a.who;
    Appended([], w, b0, a.who, line);
    w, b0 := w + a.who, line;
    line := line + [COLON];
    Appended([], w, b0, [COLON], line);
    w, b0 := w + [COLON], line;
    line := WriteMask(line, a.accessMask, isDir);
    Appended([], w, b0, MaskText(a.accessMask, isDir), line);
    FlagTextByTable(a.flags);
    MaskTextByTable(a.accessMask, isDir);
    assert [] + AceText(a, verbose, isDir) == AceText(a, verbose, isDir);
  }
}
