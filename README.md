# libnfs4acl-go core, modelled in Dafny

libnfs4acl-go reads, changes and writes NFSv4 access control lists (ACLs)
stored in the `system.nfs4_acl` extended attribute of a file. This model
covers the library's core:

- **The attribute value.** It is a list of access control entries (ACEs)
  in XDR form. Each integer is a 4-byte big-endian atom, and each who
  string is padded to whole atoms.
- **The decoder.** `nfs4_xattr_load` turns an attribute value into an
  ACL.
- **The encoder.** `XAttrSize` and `PackXAttr` turn an ACL back into an
  attribute value.
- **The helpers.** These are:
  - the padding and who-type helpers, which exist twice, in nfs4_acl.go
    and in nfs4_ace.go;
  - the two ACE constructors;
  - the write-bit operations on a whole ACL;
  - the six in-place mutators of an `NFS4ACE`;
  - the text renderers, which write each entry as `TYPE:FLAGS:WHO:MASK`.

The modules:

- `Wire` (wire.dfy): bytes, unbounded-integer `uint32`, the big-endian atom
  read `ReadUint` and write `PutUint`, and sequence lemmas. `Wrappers`
  holds `Option`.
- `Bits` (bits.dfy): `|`, `&^` and `&` on 32-bit values, defined
  arithmetically, with their bit-by-bit laws. `&` is the bit test of the
  text renderer.
- `AclTypes` (acl_types.dfy): the constant tables of nfs4_acl.go:16-128,
  the who-type classification, and the ACE as a value.
- `Codec` (codec.dfy): the padding rule, the decoder as a function
  (`Decode`), the encoder as a function (`Encode`), and the round-trip laws
  in both directions.
- `Render` (render.dfy): the text of an entry as a function (`AceText`),
  the laws about which letters it contains, and the step-by-step writer
  methods.
- `Nfs4Acl` (nfs4_acl.dfy): the ACL object (`class Acl`) and the
  imperative code of nfs4_acl.go. Each method, with its loop, is proved
  against the functions of `Codec` and `Render`.
- `Nfs4Ace` (nfs4_ace.dfy): the `NFS4ACE` object of nfs4_ace.go, whose
  methods change its fields in place, and the helpers that file repeats.

The model follows the code where its behaviour is surprising:

- The decoder returns the entries read before an error, together with the
  error.
- Bytes after the last entry are ignored.
- The cursor moved past a who string's padding (nfs4_acl.go:215) is
  compared with the end of the buffer only at the start of the next entry
  (nfs4_acl.go:182, 191). After the last entry it is never compared, and
  the padding bytes are never read. So a last entry whose padding is
  missing, or any entry whose padding is not zero, loads without error.
  Like trailing bytes, both break the law that re-encoding what was loaded
  gives back the value. `Codec.ReencodeCanonical` shows that these are the
  only ways it breaks.
- The header bounds test at nfs4_acl.go:191 is `>=`. So an entry with an
  empty who string that ends the buffer is rejected (see Findings).

## Model

| member | source | states |
|---|---|---|
| AclTypes.WhoStringsSpelled | nfs4_acl.go:23-27 | the byte constants are the ASCII spellings of OWNER@, GROUP@ and EVERYONE@ |
| AclTypes.GetWhoType | nfs4_acl.go:225-236 | a who string gets OWNER, GROUP or EVERYONE only when it equals that well-known string byte for byte, and NAMED only when it equals none of them; together these make each well-known string, and only it, get its own type |
| AclTypes.GetWhoTypeCases | nfs4_acl.go:225-236 | a who string gets OWNER, GROUP or EVERYONE if and only if it equals that well-known string exactly, and NAMED if and only if it equals none of them |
| AclTypes.GetWhoTypeNonMatches | nfs4_acl.go:225-236 | the empty string and case or spacing variants of the well-known strings are NAMED: the comparison is exact |
| AclTypes.NewNfs4Ace | nfs4_acl.go:144-152 | the new ACE holds the given type, flags, mask and who, and its who-type is the one derived from who |
| AclTypes.WellFormedIsConstructed | nfs4_acl.go:144-152 | every ACE whose who-type agrees with its who string is the one the constructor builds from its fields |
| Codec.PaddedLength | nfs4_acl.go:432-445 | the padded who length is a multiple of 4, at least the who length and less than 4 above it, and equal to it when the who length is already a multiple of 4 |
| Codec.PaddedLengthIsLeast | nfs4_acl.go:432-445 | the padded length is the least multiple of 4 that holds the who string |
| Codec.PaddedLengthExamples | nfs4_acl.go:432-445 | padding of 0, 4, 5 and 7 bytes gives 0, 4, 8 and 8 |
| Codec.EntryAt | nfs4_acl.go:196-215 | the entry read at the cursor is well-formed and its who string is who_len bytes long; the next cursor lies exactly that entry's packed size further on |
| Codec.DecodeLoop | nfs4_acl.go:180-220 | the loop yields at most the declared number of entries, and all of them if and only if it reports no error |
| Codec.Decode | nfs4_acl.go:154-223 | a decode without error had at least one atom of input and returns exactly num_aces entries; no decode returns more than num_aces |
| Codec.DecodeShortBuffer | nfs4_acl.go:162-166 | a value shorter than one atom is rejected with the invalid-input error and no entries |
| Codec.DecodeHeaderNeedsMoreThan16 | nfs4_acl.go:182-193 | with 16 or fewer bytes left before an entry (the cursor at or past the end included), decoding stops there with the buffer-overflow error |
| Codec.DecodeWhoOverrun | nfs4_acl.go:209-213 | a who length that runs past the end of the buffer stops decoding with an error instead of reading out of bounds |
| Codec.DecodeEntriesShape | nfs4_acl.go:180-220 | the loop yields at most the declared number of entries, yields all of them if and only if there is no error, and every entry it yields is well-formed |
| Codec.DecodeCount | nfs4_acl.go:175-222 | on success the decoder returns exactly num_aces entries, on failure fewer, and all of them are well-formed |
| Codec.DecodeFirstEntry | nfs4_acl.go:196-219 | a decoded entry holds the big-endian type, flags and mask at the cursor and the who_len bytes after the header; the next entry starts 16 bytes plus the padded who length further on |
| Codec.EncodeAce | nfs4_acl.go:410-426 | one packed entry takes exactly the size the decoder steps over: 16 header bytes plus the who string padded to whole atoms |
| Codec.Encode | nfs4_acl.go:393-430 | the packed value is exactly as long as XAttrSize computes |
| Codec.EncodedSize | nfs4_acl.go:374-391 | the attribute size is at least one atom and a whole number of atoms |
| Codec.EncodeAcesAppend | nfs4_acl.go:408-427 | packing a concatenation of lists is the concatenation of the packed lists, and the sizes add up |
| Codec.EncodeAcesLength | nfs4_acl.go:408-427 | the packed entries take exactly the sum of the entry sizes |
| Codec.EncodedCount | nfs4_acl.go:401-404 | the count atom at the front of a packed value, whatever follows it, reads back as the number of entries |
| Codec.RoundTrip | nfs4_acl.go:154-223 | decoding the packed list of an encodable ACL gives the same entries in the same order with no error, if and only if the list is empty or its last who string is not empty; otherwise it gives all but the last entry and the buffer-overflow error |
| Codec.RoundTripCorrected | nfs4_acl.go:191 | with the header test corrected to accept exactly 16 bytes, decoding the packed list always gives back the list with no error |
| Codec.EmptyWhoEntryRejected | nfs4_acl.go:191 | the 20-byte packed value of a single ALLOW entry with an empty who string decodes to no entries and the buffer-overflow error |
| Codec.DecodeIgnoresTrailingBytes | nfs4_acl.go:180-222 | bytes after the last declared entry are not read, so repacking what the decoder returns does not give back the input |
| Codec.DecodeAcceptsMissingFinalPadding | nfs4_acl.go:213-215 | a 21-byte value whose one entry, with who "x", lacks its three padding bytes loads without error, although that entry packs to 24 bytes |
| Codec.DecodeAcceptsNonZeroPadding | nfs4_acl.go:213-215 | the same entry with padding bytes 1, 2, 3 loads without error, and packing it again does not give back the value |
| Codec.DecodedReadsFrom | nfs4_acl.go:180-220 | the entries of a decode without error carry, one after the other, the type, flags, mask, who length and who bytes found at their offsets, each next entry starting after the previous one's padding |
| Codec.EntryReencodes | nfs4_acl.go:409-426 | an entry whose header atoms and who string are the bytes at an offset, and whose padding there is zero, packs to exactly the bytes it takes there |
| Codec.PaddedEntriesReencode | nfs4_acl.go:408-427 | entries read back to back whose padding is all zero pack to exactly the bytes they were read from |
| Codec.ReencodeEntries | nfs4_acl.go:393-430 | a value holding the entry count and then the entries read back to back, with zero padding and nothing after the last entry, is their packed value |
| Codec.ReencodeCanonical | nfs4_acl.go:154-223 | a value that decodes without error, is exactly as long as the packed size of what it decodes to, and has only zero padding packs back to itself: re-encoding what was loaded gives back the value |
| Codec.DecodeOwnerWriteScenario | nfs4_acl.go:154-223 | a 28-byte value holding one ALLOW entry for OWNER@ with write-data decodes to exactly that entry, with who-type OWNER |
| Bits.SetBits | nfs4_acl.go:449 | the result of value OR bits has exactly the bits that either operand has |
| Bits.ClearBits | nfs4_acl.go:455 | the result of value AND NOT bits has exactly the bits of value that bits does not have |
| Bits.BitOpsIdempotent | nfs4_ace.go:193-204 | setting the same bits twice is setting once; clearing twice is clearing once |
| Bits.BitOpsAbsorb | nfs4_ace.go:193-204 | clearing after setting the same bits is clearing; setting after clearing is setting |
| Bits.SetBitsExample | nfs4_ace.go:188-195 | 0x35 with 0x03 applied is 0x37 |
| Bits.ClearBitsExample | nfs4_ace.go:197-204 | 0x35 with 0x03 removed is 0x34 |
| Render.TypeText | nfs4_acl.go:250-272 | the type field is empty if and only if the type is not one of the four known types; it is one letter at most, or a word of at most five letters in verbose mode, and never holds the separator |
| Render.FlagText | nfs4_acl.go:274-305 | the flags field holds at most ten letters and never the separator |
| Render.KindMaskText | nfs4_acl.go:312-336 | the kind-specific mask letters: at most four for a directory, at most three for a file, never the separator |
| Render.CommonMaskText | nfs4_acl.go:337-368 | the mask letters common to both kinds: at most ten, never the separator |
| Render.MaskText | nfs4_acl.go:312-368 | the mask field holds at most fourteen letters and never the separator |
| Render.AceText | nfs4_acl.go:245-369 | the line is the who string plus between 3 and 32 bytes of type, flags, mask and separators |
| Render.WriteLetter | nfs4_acl.go:275-277 | one bit test appends the letter to the buffer if the bit is set, and nothing otherwise |
| Render.WriteType | nfs4_acl.go:250-272 | writing the type appends exactly the type field to the buffer |
| Render.WriteKindMask | nfs4_acl.go:312-336 | writing the kind-specific tests appends exactly the kind-specific mask letters |
| Render.WriteCommonMask | nfs4_acl.go:337-368 | writing the common tests appends exactly the common mask letters |
| Render.LettersMembership | nfs4_acl.go:276-368 | with distinct letters, the letter of a tested bit is written if and only if the bit is set, and no other letter is written |
| Render.LettersLength | nfs4_acl.go:276-368 | a run of bit tests writes at most one letter per test |
| Render.FlagTextByTable | nfs4_acl.go:276-305 | the spelled-out flag tests write what the flag table writes |
| Render.MaskTextByTable | nfs4_acl.go:313-368 | the spelled-out mask tests write what the mask table of the entry's kind (directory or file) writes |
| Render.FlagTableBits | nfs4_acl.go:276-305 | the flag tests are of bits 0 to 9, in that order, with distinct letters |
| Render.FlagLetters | nfs4_acl.go:276-305 | the letter of flag bit i appears in the flags field if and only if bit i is set; only flag letters appear, at most ten of them |
| Render.MaskLetters | nfs4_acl.go:313-368 | a mask letter appears if and only if its bit is set, and only letters of the mask table of the entry's kind appear |
| Render.AceTextLayout | nfs4_acl.go:245-368 | the line is type, `:`, flags, `:`, who, `:`, mask, with those lengths: the first two separators and the last one split it back into its fields, whatever the who string holds |
| Render.AceTextExample | nfs4_acl.go:245-368 | ALLOW, no flags, write-data on a file, for OWNER@ prints as `A::OWNER@:w` |
| Render.WriteFlags | nfs4_acl.go:276-305 | writing the flag tests appends exactly the flags field to the buffer |
| Render.WriteMask | nfs4_acl.go:313-368 | writing the mask tests appends exactly the mask field of the entry's kind to the buffer |
| Render.AceLine | nfs4_acl.go:245-369 | the text built step by step in the buffer is the entry's line `TYPE:FLAGS:WHO:MASK` |
| Nfs4Acl.Acl.constructor | nfs4_acl.go:155-157 | the new ACL has the given directory flag and no entries |
| Nfs4Acl.Acl.XAttrSize | nfs4_acl.go:374-391 | the size is one atom plus, per entry, four atoms and the padded who length: the length of the packed value |
| Nfs4Acl.Acl.PackXAttr | nfs4_acl.go:393-430 | the fresh buffer is exactly the packed value of the ACL: the count, then every entry in list order, zero-padded |
| Nfs4Acl.Acl.SetWrite | nfs4_acl.go:447-451 | every entry gets the write-data bit in its mask; the directory flag, the length and order of the list are kept |
| Nfs4Acl.Acl.ClearWrite | nfs4_acl.go:453-457 | every entry loses the write-data bit from its mask; the directory flag, the length and order of the list are kept |
| Nfs4Acl.Acl.PrintAcl | nfs4_acl.go:238-243 | one line per entry, in list order, each the line of that entry under the ACL's directory flag |
| Nfs4Acl.AceLines | nfs4_acl.go:238-243 | the loop yields one line per entry, in order |
| Nfs4Acl.XattrLoad | nfs4_acl.go:154-223 | the fresh ACL has the given directory flag, and its entries and the error are what the decoder function computes |
| Nfs4Acl.LoadAces | nfs4_acl.go:160-222 | the length check, the count and the cursor loop compute the decoder function's entries and error |
| Nfs4Acl.LoadAce | nfs4_acl.go:181-219 | one iteration either reads the entry the decoder function reads at the cursor and moves to its next cursor, or returns the error the decoder function stops with |
| Nfs4Acl.LoadPacked | nfs4_acl.go:154-223 | packing an encodable ACL whose last who string is not empty and loading it again gives the same entries, the same directory flag and no error |
| Nfs4Acl.PutUint32 | nfs4_acl.go:402 | the four bytes at the position become the low 32 bits of the value, most significant first, and no other byte changes |
| Nfs4Acl.CopyBytes | nfs4_acl.go:425 | the bytes at the position become the source bytes, and no other byte changes |
| Nfs4Acl.PackAtom | nfs4_acl.go:411-422 | writing one atom right after what is already packed extends the packed prefix by that atom and leaves the rest zero |
| Nfs4Acl.PackBytes | nfs4_acl.go:425 | copying the who string right after what is already packed extends the packed prefix by it and leaves the rest zero |
| Nfs4Acl.PackHeader | nfs4_acl.go:410-422 | the four header atoms of an entry are written in order type, flags, mask, who length, after what is already packed |
| Nfs4Acl.PackAce | nfs4_acl.go:409-426 | one iteration of the packing loop appends exactly the entry's packed bytes and moves the cursor by its packed size |
| Nfs4Acl.WithWriteEffect | nfs4_acl.go:447-451 | after SetWrite bit 1 (0x2) of every mask is set, every other mask bit is unchanged, and the type, flags, who and who-type of every entry are unchanged |
| Nfs4Acl.WithoutWriteEffect | nfs4_acl.go:453-457 | after ClearWrite bit 1 (0x2) of every mask is clear, every other mask bit is unchanged, and the type, flags, who and who-type of every entry are unchanged |
| Nfs4Acl.WriteBitLaws | nfs4_acl.go:447-457 | SetWrite twice is SetWrite; ClearWrite twice is ClearWrite; each undoes the other's effect on the write bit |
| Nfs4Acl.WriteBitKeepsShape | nfs4_acl.go:447-457 | neither operation changes the packed size, and both keep a list encodable |
| Nfs4Acl.SizesOfSameWho | nfs4_acl.go:374-391 | lists whose who strings have the same lengths take the same packed size |
| Nfs4Ace.AceGetWhoType | nfs4_ace.go:9-20 | OWNER, GROUP and EVERYONE each if and only if the who string equals that well-known string exactly |
| Nfs4Ace.AceGetWhoTypeAgrees | nfs4_ace.go:9-20 | the nfs4_ace.go who-type agrees with the nfs4_acl.go one on every string |
| Nfs4Ace.AceWhoStringAtomLength | nfs4_ace.go:22-35 | a multiple of 4, at least the who length and less than 4 above it, and equal to it for multiples of 4 |
| Nfs4Ace.AceWhoStringAtomLengthAgrees | nfs4_ace.go:22-35 | the nfs4_ace.go padding agrees with the nfs4_acl.go one and is the least multiple of 4 that holds the string |
| Nfs4Ace.NFS4ACE.constructor | nfs4_ace.go:48-56 | the new object holds the given fields, with the who-type derived from who |
| Nfs4Ace.NFS4ACE.ApplyAccessMask | nfs4_ace.go:193-195 | the mask becomes the old mask OR accessMask; nothing else changes |
| Nfs4Ace.NFS4ACE.RemoveAccessMask | nfs4_ace.go:202-204 | the mask becomes the old mask AND NOT accessMask; nothing else changes |
| Nfs4Ace.NFS4ACE.SetAccessMask | nfs4_ace.go:207-209 | the mask is replaced; nothing else changes |
| Nfs4Ace.NFS4ACE.ApplyFlags | nfs4_ace.go:214-216 | the flags become the old flags OR the argument; nothing else changes |
| Nfs4Ace.NFS4ACE.RemoveFlags | nfs4_ace.go:220-222 | the flags become the old flags AND NOT the argument; nothing else changes |
| Nfs4Ace.NFS4ACE.SetFlags | nfs4_ace.go:225-227 | the flags are replaced; nothing else changes |
| Nfs4Ace.NFS4ACE.PrintAce | nfs4_ace.go:61-183 | the line is the same `TYPE:FLAGS:WHO:MASK` text as Nfs4_print_ace writes for the object's fields |
| Nfs4Ace.MutatorEffects | nfs4_ace.go:188-227 | applying sets every given bit and keeps every other bit; removing clears exactly the given bits; a well-formed entry stays well-formed |
| Nfs4Ace.MutatorExamples | nfs4_ace.go:188-204 | the methods turn a mask of 0x35 into 0x37 by applying 0x03, and into 0x34 by removing 0x03 |

## Left out

- Printing to standard output: in `Nfs4_print_ace` (nfs4_acl.go:370), `PrintACE` (nfs4_ace.go:184) and `Nfs4_print_acl`. The renderers return the text they would print, and the `error` they return is always nil.
- The debug line "no execute perms!" (nfs4_acl.go:343-344): it only prints.
- `unsafe.Sizeof(uint32(0))`: the atom size is the constant 4.
- Nfs4Acl.XattrLoad: a Go index past the end of the buffer panics. The slice at nfs4_acl.go:213 panics when the declared who length runs past the buffer. The model returns the explicit error `WhoOutOfRange` in its place. It also does not model Go's slicing up to a slice's capacity rather than its length: the model assumes cap(value) == len(value), and the code here has no caller that guarantees it. When cap(value) > len(value), `value[cur_atom:(who_len + cur_atom)]` (nfs4_acl.go:213) can read bytes past len(value) without a panic, where the model returns `WhoOutOfRange`.
- Nfs4Acl.Acl: the Go ACL holds a list of pointers to entries, and `SetWrite` and `ClearWrite` write through them. The model holds entries as values and updates the list in place. Aliasing of an entry between two ACLs is not modelled: no ACL built by this code shares an entry.
- Nfs4Acl.XattrLoad: Go appends each entry to `new_acl.ace_list` as it goes. The model builds the list in `LoadAces` and stores it in the fresh ACL at the end. Nothing can observe the difference.
- Nfs4Acl.XattrLoad: the casts `int(...)` of num_aces (nfs4_acl.go:175) and who_len (nfs4_acl.go:209) are modelled for a 64-bit `int`, where every uint32 stays non-negative. On a platform with a 32-bit `int`, a count of 2^31 or more turns negative and the loop is skipped, and a who length of 2^31 or more turns negative before the slice.
- Nfs4Acl.Acl.XAttrSize: does not model overflow of Go's `int` for sizes near the platform's limit. Sizes are unbounded.
- Nfs4Acl.Acl.PackXAttr: `uint32(len(...))` truncates counts and who lengths of 2^32 or more; the model writes the low four bytes in the same way. The round-trip lemmas require `Encodable`: fewer than 2^32 entries and who strings shorter than 2^32 bytes.
- The entry point libnfs4acl-go.go and the command-line tools nfs4_getfacl-go and nfs4_setfacl-go are not part of this model: they do file and extended-attribute I/O around this core.
- Who strings are byte strings: Go's conversion between `[]byte` and `string` neither validates nor transforms the bytes.

## Findings

| source | as written | input that shows it | evidently intended | confidence | as-written member | corrected member |
|---|---|---|---|---|---|---|
| nfs4_acl.go:191 | `if (cur_atom + (atom_size * 4)) >= max_atom` rejects an entry header that ends exactly at the end of the buffer | the 20-byte value `PackXAttr` writes for one entry with an empty who string: count 1, then type, flags, mask and who_len 0 | `>`: a header needs exactly 16 bytes, so every value `PackXAttr` writes loads back | not executed | Codec.EmptyWhoEntryRejected | Codec.RoundTripCorrected |

`Codec.RoundTrip` states the as-written behaviour in general: the round
trip fails exactly when the last entry's who string is empty. The corrected
test is `Codec.HeaderRule.Corrected`, and `Codec.DecodeWith` takes the rule
as a parameter. The decoder methods in `Nfs4Acl` keep the code as written.
