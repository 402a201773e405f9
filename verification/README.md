# SakuruBoot in Dafny

A verification project for the parts of the SakuruBoot boot loader that turn bytes on a disk into
files and settings: the ciphers and hashes, the decrypted view of an encrypted volume, the ext4 and
FAT32 readers, the memory fill of Argon2, the key-material codecs and the configuration parser.

Each loop of the source that works step by step is a method (on arrays and objects where the source
works on them), proved equal to a function of its inputs; what the source promises is then proved
about that function as a lemma. What the functions themselves compute is tied to definitions that do not
mention them: the text of a standard in its own terms, or a writer whose output is read back. Compression
functions, the keyed hash, the block mixer of Argon2 and the disk are parameters.

| file | what it is about |
|---|---|
| `Bytes.dfy` | bytes, exclusive or, little-endian and big-endian numbers, division lemmas |
| `AesTables.dfy`, `AesField.dfy`, `Aes.dfy` | AES: S-boxes, the field of 256 elements, both directions of the block cipher, key expansion |
| `AesStandard.dfy` | FIPS 197 byte by byte, and the proof that the code computes it |
| `Cipher.dfy` | XTS and CBC sector modes, the tweak doubling |
| `SectorStandard.dfy` | IEEE 1619 and the initialisation vectors, from the bytes of the key on |
| `LuksVol.dfy` | 512-byte reads over encrypted payload sectors |
| `Ext4Io.dfy`, `Ext4.dfy`, `Ext4Vol.dfy` | ext4: byte ranges, the volume as a value, and the code that reads it |
| `Ext4Layout.dfy`, `Ext4Image.dfy`, `RoundTrip.dfy` | writers of its lists, volumes that hold files and directories written so, and a whole encrypted image there and back |
| `Argon2.dfy` | the schedule of the memory fill, its reference windows, lane order |
| `Argon2Standard.dfy` | one step as RFC 9106 words it, and the order of the steps |
| `Sha.dfy`, `Blake2b.dfy` | streaming hashes against fold-over-blocks definitions |
| `KeyStretch.dfy` | the variable-length hash of Argon2, PBKDF2 |
| `AntiForensic.dfy`, `Base64.dfy` | the two anti-forensic merges, the base64 decoder |
| `HashStandard.dfy` | SHA, BLAKE2b, H', PBKDF2 and the merge by their sequences of intermediate values |
| `Fat.dfy` | FAT32 chains: the file cursor and the directory walk |
| `FatImage.dfy` | FAT32 volumes written sector by sector, mounted and read back |
| `Config.dfy`, `ConfigParser.dfy` | the configuration file: parser, printer, and the code |
| `ConfigText.dfy` | configurations as people write them, and what each setting means |

The result that spans most files is `Ext4Vol.ReadFileFromLuks`: when the payload of an encrypted volume
is the encryption of an ext4 image, loading a file by path gives the content that the file has in the
plaintext, and fails exactly when there is no such file. It rests on AES decryption undoing encryption,
on XTS and CBC, on the slicing of sectors, on extent lookup and on the directory walk. `RoundTrip.FileComesBack`
closes the circle: any content under any name, laid into an ext4 image of any geometry (block size, groups,
narrow or wide descriptors) and encrypted into a device, is what loading it by its path gives back.
`FatImage.FileReadBack` does the same for FAT32, from the boot sector on.

Where the source does not do what is said or expected of it, the model follows the source, and the exact
condition is proved:

- `Aes.RoundsAreStandard`: 192-bit keys get 14 rounds instead of 12.
- `Cipher.CbcOverlaidFails`, `Cipher.InPlaceExactly`: CBC decryption in place goes wrong from two blocks on.
- `Bytes.StepTestExact`, `Bytes.StepTestFromZero`: the 32-bit tests of the block loops wrap when the last place the
  loop comes to and one step reach 2^32; from 0 on, when the length and one step do.
- `LuksVol.CopyOffsetExact`: the copy index wraps for requests above 4 GiB.
- `Argon2.ShapeFits`: from 2^29 lanes on the memory does not get its minimum of eight blocks a lane.
- `KeyStretch.LoopEndsExactly`: PBKDF2 never ends for a digest of length 0.
- `Fat.LimitEnoughExactly`: with one sector per cluster, the visit limit wraps in volumes of 2^32 - 2 or 2^32 - 1 sectors.
- `Fat.WalkStopsExactly`: in one of 2^32 - 3 sectors the directory walk runs round a circle for ever.
- `Ext4.EndWraps`: extents that reach block 2^32 are not found.
- `Config.SurplusIgnoredExactly`, `Config.MergeSurplus`: sections that the table has no room for.

## Model

| member | source | states |
|---|---|---|
| AesTables.RSBoxUndoesSBox | crypto/aes.c:11-46 | the inverse table undoes the S-box on every byte |
| AesTables.SBoxUndoesRSBox | crypto/aes.c:11-46 | and the S-box undoes the inverse table |
| AesField.SBoxIsAffineInverse | crypto/aes.c:11-28 | the table is the affine map of the multiplicative inverse, as section 5.1.1 of FIPS 197 defines it |
| AesField.GMulLoop | crypto/aes.c:55-59 | the shift-and-add loop is the product in the field |
| AesField.XtimeLinear | crypto/aes.c:54 | doubling is linear over exclusive or |
| AesField.UnmixIsMixThrice | crypto/aes.c:107-115 | the inverse column byte is the forward one applied three times |
| AesField.UnmixUndoesMix | crypto/aes.c:107-148 | the inverse column transformation undoes the forward one on any four bytes |
| AesField.MixUndoesUnmix | crypto/aes.c:107-148 | and the other way round |
| Aes.SubBytesInverse | crypto/aes.c:100-133 | the two substitutions of a state are mutually inverse |
| Aes.ShiftRowsInverse | crypto/aes.c:101-139 | the two row turns are mutually inverse |
| Aes.MixColumnsInverse | crypto/aes.c:107-148 | the two column transformations of a state are mutually inverse |
| Aes.AddRk | crypto/aes.c:94-99 | in place, the state is combined with the four words of a round key |
| Aes.SubBytesInPlace | crypto/aes.c:100 | in place, the substitution of every byte |
| Aes.InvSubBytesInPlace | crypto/aes.c:133 | in place, its inverse |
| Aes.ShiftRowsInPlace | crypto/aes.c:101-106 | the chains of assignments turn row r left by r places |
| Aes.InvShiftRowsInPlace | crypto/aes.c:134-139 | and right by r places |
| Aes.MixColumnsInPlace | crypto/aes.c:107-115 | in place, the column transformation |
| Aes.InvMixColumnsInPlace | crypto/aes.c:140-148 | in place, with field products computed by the loop, its inverse |
| Aes.EncryptBlock | crypto/aes.c:117-128 | the output is the encryption of the input block, also when they are the same buffer |
| Aes.DecryptBlock | crypto/aes.c:150-161 | the same for decryption |
| Aes.DecryptRetraces | crypto/aes.c:150-161 | each decryption state of a ciphertext is the encryption state it came from |
| Aes.DecryptUndoesEncrypt | crypto/aes.c:117-161 | decryption undoes encryption for every round-key array and every round count |
| Aes.EncryptUndoesDecrypt | crypto/aes.c:117-161 | encryption undoes decryption: both are permutations of the blocks |
| Aes.InitEnc | crypto/aes.c:73-84 | the expanded key is the recursive key schedule, which AesStandard.ScheduleIsStandard identifies, and every round constant used exists |
| Aes.RoundsAreStandard | crypto/aes.c:73-76 | the number of rounds is the standard's exactly for 128-bit and 256-bit keys |
| AesStandard.ConstantsArePowers | crypto/aes.c:47-49 | the constant of round n is x^(n-1) in the first byte of a word, zero in the others |
| AesStandard.ScheduleIsStandard | crypto/aes.c:61-84 | read as bytes, the schedule obeys the recurrences of section 5.2 of FIPS 197: key bytes first, then each byte from the one nk words before and the one before it, rotated, substituted and with the constant every nk words |
| AesStandard.OneExpansion | crypto/aes.c:73-84 | a key has no other expansion |
| AesStandard.EncryptIsStandard | crypto/aes.c:73-161 | for every key and block, encryption is the cipher of section 5.1 of FIPS 197 under any bytes that are an expansion of the key: rows shifted, columns multiplied by the matrix 2 3 1 1, round keys added; and decryption undoes it |
| Bytes.StepTestExact | crypto/sha.c:59 | from any start, the 32-bit test `i + step <= len` is right at every place the loop comes to exactly when the last such place and one step are together below 2^32 |
| Bytes.StepTestFromZero | crypto/cipher.c:50 | from 0 on, for steps that divide 2^32, that is exactly when len + step is below 2^32; crypto/cipher.c:101 has the same test |
| Bytes.CounterCarries | crypto/sha.c:213-214 | two counter words carried by hand count modulo 2^128, whichever summand the low word is compared with |
| Cipher.XtsInit | crypto/cipher.c:34-39 | the first half of the key is for the data, the second for the tweak |
| Cipher.CbcInit | crypto/cipher.c:63-74 | the data key, and in one mode its hash as second key |
| Cipher.MulXIsTimesX | crypto/cipher.c:21-29 | doubling is multiplication by x modulo x^128+x^7+x^2+x+1, coefficient by coefficient (section 5.2 of IEEE 1619) |
| Cipher.MulXBijective | crypto/cipher.c:21-29 | doubling is a bijection of the tweaks |
| Cipher.MulXKeepsNonzero | crypto/cipher.c:21-29 | a nonzero tweak never becomes zero |
| Cipher.MulXInPlace | crypto/cipher.c:21-29 | the carry loop doubles the tweak in place |
| Cipher.XtsBlockwise | crypto/cipher.c:50-57 | block j of a sector is enciphered on its own under the first tweak times x^j |
| Cipher.XtsInverse | crypto/cipher.c:41-58 | XTS with the flag reversed undoes XTS, for every whole number of blocks |
| Cipher.FirstTweaksDiffer | crypto/cipher.c:44-48 | different sectors start from different tweaks |
| Cipher.XtsCrypt | crypto/cipher.c:41-58 | the loop writes the XTS form of the sector, which SectorStandard.XtsIsMasked identifies, also in place, and nothing beyond its whole blocks, for every length for which its 32-bit test is right |
| Cipher.CbcInverse | crypto/cipher.c:96-107 | CBC decryption undoes CBC encryption |
| Cipher.MakeCbcIv | crypto/cipher.c:76-94 | the initialisation vector of each mode |
| Cipher.CbcDecryptSector | crypto/cipher.c:96-107 | the loop decrypts the sector when the buffers differ, and leaves the overlaid form when they are one, for every length for which its 32-bit test is right |
| Cipher.CbcOverlaidFails | crypto/cipher.c:104-105 | in place, decryption is right exactly when every block but the last equals its own ciphertext |
| Cipher.WrongInPlace | crypto/cipher.c:101-106 | for every key and plaintext of two blocks or more, of any two vectors at least one makes decryption in place go wrong |
| Cipher.InPlaceExactly | crypto/cipher.c:101-106 | in place it is right for all vectors and plaintexts of a length exactly below two blocks; with two buffers always |
| SectorStandard.FirstTweakIs | crypto/cipher.c:44-48 | a block is the first tweak exactly when decrypting it under the tweak key gives the sector number, little-endian |
| SectorStandard.XtsIsMasked | crypto/cipher.c:41-58 | with tweaks that begin so and are each x times the one before, block j is enciphered or deciphered under the data key with the j-th tweak on both sides |
| SectorStandard.XtsIsStandard | crypto/cipher.c:34-58 | from the bytes of the key: XTS is the cipher of FIPS 197 under the first half, masked with the sector number enciphered under the second half times x^j (section 5.3 of IEEE 1619) |
| SectorStandard.XtsFromKey | crypto/cipher.c:34-58 | initialised with a key, the code turns what the standard makes of a plaintext back into the plaintext |
| SectorStandard.CbcIvIs | crypto/cipher.c:76-94 | the vectors of modes 2, 3 and 4 are the low 32 bits of the sector number, all of it, and all of it encrypted under the second key; zero for other modes; and no other blocks are |
| SectorStandard.CbcBlockwise | crypto/cipher.c:101-106 | block j of a CBC decryption is its own decryption combined with the ciphertext block before, or the vector |
| LuksVol.LuksVolume.constructor | luks/luks_vol.c:27-51 | a sector size below 512 becomes 512 |
| LuksVol.LuksVolume.ReadPayload | luks/luks_vol.c:59-78 | succeeds exactly if the payload sector can be read, and then holds its decryption |
| LuksVol.LuksVolume.Read | luks/luks_vol.c:53-91 | succeeds exactly if every payload sector touched can be read; the buffer then holds the logical sectors, and nothing beyond the request changes |
| LuksVol.View.AdjacentReads | luks/luks_vol.c:57-89 | two adjacent reads give what one larger read gives |
| LuksVol.View.RunInside | luks/luks_vol.c:80-85 | logical sectors inside a payload sector are a slice of it |
| LuksVol.SectorCipher.SectorInverse | luks/luks_vol.c:71-78 | in either mode, decrypting a payload sector undoes encrypting it |
| LuksVol.SectorCipher.ModeChooses | luks/luks_vol.c:71-78 | mode 1 is XTS and every other CBC |
| LuksVol.View.LogicalIsPlaintext | luks/luks_vol.c:53-91 | if the device holds the encryption of a plaintext, every run of logical sectors is the slice of it |
| LuksVol.CopyOffsetExact | luks/luks_vol.c:84-85 | the 32-bit copy index is exact if and only if the request is at most 4 GiB |
| Ext4Io.SectorsOfPlaintext | uefi/ext4.c:114-135 | a sector read of an encrypted volume succeeds exactly inside the plaintext, and gives it |
| Ext4Io.EveryPlaintextEncrypts | luks/luks_vol.c:57-78 | for every plaintext of whole payload sectors there is a device whose payload is its encryption, in either mode, behind any header |
| Ext4Io.ByteSource.ReadBytes | uefi/ext4.c:113-158 | by any of the three ways, a read succeeds exactly inside the image and gives the bytes there |
| Ext4Io.ByteSource.ReadThroughLuks | uefi/ext4.c:114-135 | the same through 512-byte decrypted sectors |
| Ext4Io.ByteSource.ReadBlocks | uefi/ext4.c:140-157 | the same through whole device blocks |
| Ext4Io.SpanInside | uefi/ext4.c:141-144 | the blocks around a range lie inside the volume exactly when the range does |
| Ext4.EndWraps | uefi/ext4.c:338 | the 32-bit end of an extent matters exactly for extents that reach block 2^32 |
| Ext4.LeafScanFinds | uefi/ext4.c:334-344 | in a sorted leaf the scan gives the place in the one extent that covers the block, 0 if none |
| Ext4.KeysBelow | uefi/ext4.c:316-321 | the index search stops between the last key not above the block and the first above it |
| Ext4.Fs.LookupIsFlat | uefi/ext4.c:307-345 | in a well-formed tree of depth 0 or 1, lookup agrees with the flat map of all extents on every block |
| Ext4.Fs.FileByteIsFlat | uefi/ext4.c:352-371 | for every extent of the flat map: a byte it covers can be read exactly when its block can or is block 0, and is then the byte there, zero for block 0; a byte no extent covers is zero |
| Ext4.Fs.ContentIsFlat | uefi/ext4.c:497-506 | the whole content of a loadable file with a well-formed tree is, byte by byte, that of the flat map, extents at block 0 included |
| Ext4.FindIsFirst | uefi/ext4.c:399-416 | the result of a directory search is the inode of the first live record of that name, 0 only if there is none |
| Ext4.Fs.WalkOn | uefi/ext4.c:433-442 | looking up one path and then another from there is looking up both as one |
| Ext4.ComponentsOfSpelled | uefi/ext4.c:430-437 | however many slashes stand between, before and after the names, the components are the names |
| Ext4Layout.LeafReadBack | uefi/ext4.c:48-57 | a leaf written field by field from a sorted list of extents is well-formed and reads back as the list, whatever follows it |
| Ext4Layout.WrittenTreeLookup | uefi/ext4.c:333-344 | lookup in a tree of depth 0 written from a list of extents gives the place in the list, 0 in holes |
| Ext4Layout.WrittenIndexLookup | uefi/ext4.c:307-345 | an index written over leaves in blocks is a well-formed tree of depth 1, and lookup gives the place in whichever group covers the block, 0 in holes |
| Ext4Layout.SomeVolumeHolds | uefi/ext4.c:325-329 | there is a volume that holds the leaves of any groups of extents that fit into blocks |
| Ext4Layout.RecordsReadBack | uefi/ext4.c:65-69 | a directory block written from records, with any padding between them, reads back as the records |
| Ext4Image.HeldFileLoads | uefi/ext4.c:484-506 | a file whose inode, extents and blocks are written in a volume can be loaded, and its content is what was written |
| Ext4Image.HeldDirLookup | uefi/ext4.c:378-419 | looking a name up in a directory whose inode, extents and record blocks are written gives the first live record of that name among those written |
| Ext4Image.HeldFileFound | uefi/ext4.c:426-515 | a file written under any path of written directories is found by every spelling of the path, can be loaded, and has its content |
| Ext4Image.OneContent | uefi/ext4.c:497-506 | a loadable file has only one content |
| Ext4Image.HeldSizeLimits | uefi/ext4.c:487-490 | empty files and files above 128 MiB are not loaded |
| Ext4Image.DirectBlocksRead | uefi/ext4.c:352-371 | without extents, logical blocks 0 to 11 are where the inode's numbers say, and there are no others |
| Ext4Image.LimitIsPart | uefi/ext4.c:389-397 | the used part of a block is as long as the part of a content that belongs to it |
| Ext4Vol.Ext4Volume.constructor | uefi/ext4.c:207-223 | the geometry of the volume from its superblock |
| Ext4Vol.Ext4Volume.InodeRead | uefi/ext4.c:278-295 | reads the inode where the group descriptor puts it, in 64-bit arithmetic, and fails exactly for inode 0 or outside the image |
| Ext4Vol.Ext4Volume.ExtentLookup | uefi/ext4.c:307-345 | the loops compute the lookup, whatever the scratch buffer held |
| Ext4Vol.Ext4Volume.ReadLblock | uefi/ext4.c:352-371 | a logical block through extents or direct blocks, zeros in holes |
| Ext4Vol.ScanBlock | uefi/ext4.c:399-416 | the scan of a directory block finds the first live record of the name in it |
| Ext4Vol.LimitIs | uefi/ext4.c:389-397 | the used part of a directory block is what remains of the directory, at most a block |
| Ext4Vol.Ext4Volume.DirLookup | uefi/ext4.c:378-419 | the inode of the first live record of the name over the whole directory |
| Ext4Vol.Ext4Volume.PathLookup | uefi/ext4.c:426-443 | the lookup of the components one after another from the root, whatever the buffers held |
| Ext4Vol.Ext4Volume.FillFile | uefi/ext4.c:497-506 | every byte below the size is in its place, and it fails exactly if a block cannot be read |
| Ext4Vol.Ext4Volume.ReadFile | uefi/ext4.c:471-515 | loads exactly the files that exist, are not empty, not above 128 MiB and readable, with a zero byte after the content |
| Ext4Vol.MountLuks | uefi/ext4.c:236-271 | mounting an encrypted volume gives the file system of the plaintext, exactly if it has the magic number |
| Ext4Vol.ReadFileFromLuks | uefi/ext4.c:471-515 | the whole stack: the loaded bytes are the file's content in the plaintext, which for a well-formed tree is that of its flat map |
| RoundTrip.BlockSizes | uefi/ext4.c:259 | the block size is 1024 doubled as often as the superblock says, up to 6 times |
| RoundTrip.MountedIs | uefi/ext4.c:207-223 | of a superblock written field by field, mounting finds the geometry: every block size, first data block, inode size and its default, narrow and wide descriptors |
| RoundTrip.InodeFound | uefi/ext4.c:278-295 | an inode written into the table of any group, its block number up to 64 bits, is the one that its number leads to |
| RoundTrip.LaidFileFound | uefi/ext4.c:207-515 | in every image of any geometry that has the parts of the file system in their places, the path leads to the file, which can be loaded and has its content |
| RoundTrip.LoadLaid | uefi/ext4.c:471-515 | loading it from a volume that holds the encryption of such an image gives the content, its length and a zero byte after it |
| RoundTrip.FileComesBack | uefi/ext4.c:236-515 | there and back through the whole stack: the image is encrypted in either mode, behind any header, into a device, and the code gives the content back |
| RoundTrip.ImageLaid | uefi/ext4.c:207-223 | every geometry whose parts do not overlap can be written |
| RoundTrip.SomeImage | uefi/ext4.c:207-223 | for every block size, with narrow and with wide descriptors, and every name and content there is such an image |
| Argon2.WindowExact | crypto/argon2.c:115-137 | the window of section 3.4.2 of RFC 9106 is exactly what the offsets below the reference area reach |
| Argon2.IndexAlphaInWindow | crypto/argon2.c:115-137 | for every random word the index lies in the window: never the block being written nor the one before it, and only finished blocks in pass 0 |
| Argon2.OtherLanesOutside | crypto/argon2.c:123-126 | no lane reads a block that another lane writes in the same slice |
| Argon2.StepAlone | crypto/argon2.c:207-254 | a new block is the same whatever the other lanes have done in this slice |
| Argon2.ParallelIsSequential | crypto/argon2.c:203-256 | every interleaving of the lanes, block by block, gives what the sequential loop gives |
| Argon2.ParallelRunIsSequential | crypto/argon2.c:201-258 | over whole runs: whatever complete interleaving each slice of each pass has, the memory ends as the sequential loops leave it |
| Argon2.SomeSchedules | crypto/argon2.c:203-206 | there are such interleavings of every slice and pass |
| Argon2.LaneOrderIrrelevant | crypto/argon2.c:203-256 | so does every order of whole lanes |
| Argon2.OldContentsIrrelevant | crypto/argon2.c:158-246 | the result depends only on the first two blocks of each lane: no uninitialised block is ever mixed in |
| Argon2.ShapeFits | crypto/argon2.c:149-155 | segments have at least two blocks and the memory is the largest multiple that fits, exactly when 8 * parallelism does not wrap |
| Argon2.FillBlock | crypto/argon2.c:207-254 | one turn of the innermost loop is the step, which Argon2Standard.StepIsStandard identifies |
| Argon2.Fill | crypto/argon2.c:199-258 | the four nested loops compute the passes, which Argon2Standard.PassesAreCounted identifies |
| Argon2.PlaceFirstBlocks | crypto/argon2.c:191-197 | the first two blocks of each lane |
| Argon2.XorLastBlocks | crypto/argon2.c:260-268 | the exclusive or of the last blocks of all lanes |
| Argon2.Run | crypto/argon2.c:191-268 | from the first blocks to the final block, whatever the memory held |
| Argon2Standard.AreaIsWindow | crypto/argon2.c:115-126 | the reference area is the number of columns in the window |
| Argon2Standard.IndexIsStandard | crypto/argon2.c:128-136 | with x the high word of the square of the random word and y the high word of x times the size of the window, the index is the column of the window after which exactly y others of it were made (section 3.4.2 of RFC 9106) |
| Argon2Standard.StepIsStandard | crypto/argon2.c:207-254 | one step in flat memory: the block is mixed from the one before it in the lane and the one the random word selects, with the word, its lane and index given by inequalities, and combined with the old block in later passes |
| Argon2Standard.StepDraws | crypto/argon2.c:207-254 | every step draws such numbers |
| Argon2Standard.SegmentMakesAll | crypto/argon2.c:205-207 | a segment makes every block but the first two of a lane in the first pass |
| Argon2Standard.PassesAreCounted | crypto/argon2.c:201-258 | the nested loops are one count through all places, the index running fastest, then lane, slice and pass |
| Argon2Standard.BlocksAskedIs | crypto/argon2.c:150-151 | at least eight blocks a lane, otherwise as many as asked for |
| Argon2Standard.LastBlocksAreEnds | crypto/argon2.c:260-268 | what is combined at the end are the blocks just before each multiple of the lane length |
| Sha.ZeroCountLeast | crypto/sha.c:67 | the number of padding zeros is the least that fills the last block (section 5.1 of FIPS 180-4) |
| Sha.PaddingInjective | crypto/sha.c:63-69 | different messages are never padded to the same string |
| Sha.FoldOneMore | crypto/sha.c:57-59 | compressing one more block extends the fold |
| Sha.BitsAreEightfold | crypto/sha.c:228 | the shifted words are eight times the count, modulo 2^128 |
| Sha.ShaStream.Update | crypto/sha.c:49-61 | absorbing appends to what was absorbed, for all three algorithms and every length for which, after what the buffer takes first, the 32-bit loop test is right |
| Sha.ShaStream.FillBuffer | crypto/sha.c:52-58 | a partly filled buffer is completed first, and compressed when full |
| Sha.ShaStream.CountBytes | crypto/sha.c:213-214 | counter words that stand for n bytes, modulo 2^64 or 2^128, stand for n + len afterwards |
| Sha.ShaStream.FillToLength | crypto/sha.c:226-230 | the padding loop ends, having added the marker and the least number of zeros |
| Sha.ShaStream.Final | crypto/sha.c:63-71 | the fold of the compression over the padded concatenation of everything absorbed |
| Sha.HashPieces | crypto/sha.c:130-149 | any number of updates with pieces of such lengths gives the digest of their concatenation |
| HashStandard.ShaIsStandard | crypto/sha.c:63-71 | the digest is that of the last chain value over the message, a one bit, the least number of zeros and the length in bits, for every sequence of chain values from the initial one (sections 5 and 6 of FIPS 180-4) |
| Blake2b.LastBlockNotEmpty | crypto/blake2b.c:76-80 | the last block holds 1 to 128 bytes (section 3.3 of RFC 7693) |
| Blake2b.CounterAdvances | crypto/blake2b.c:77 | the two counter words count the bytes absorbed modulo 2^128 |
| Blake2b.EarlierGrows | crypto/blake2b.c:76-80 | the chain over compressed blocks does not depend on later input |
| Blake2b.Blake2bStream.constructor | crypto/blake2b.c:60-71 | the key, padded to a block, counts as input already absorbed |
| Blake2b.Blake2bStream.Update | crypto/blake2b.c:73-83 | absorbing appends, and a full buffer waits until more input follows |
| Blake2b.Blake2bStream.Flush | crypto/blake2b.c:76-80 | each full block is compressed once, with the count of the bytes up to its end |
| Blake2b.Blake2bStream.Final | crypto/blake2b.c:85-92 | the last block, padded with zeros, is compressed once with the final flag and the total count |
| Blake2b.Hash | crypto/blake2b.c:94-101 | the digest of section 3.3 of RFC 7693, keyed or not |
| Blake2b.HashPieces | crypto/blake2b.c:73-92 | the same for every way of cutting the message, empty and exact-multiple messages included |
| HashStandard.IvAreRoots | crypto/blake2b.c:4-9 | the initial words are the fractional parts of the square roots of the first eight primes |
| HashStandard.ParameterIs | crypto/blake2b.c:63 | the output length is in the lowest byte of the parameter word, the key length in the next, then 1 and 1 |
| HashStandard.Blake2bIsStandard | crypto/blake2b.c:60-101 | byte by byte, the digest is the little-endian beginning of the last chain value over the key block and the message, for every sequence of chain values from those words (section 3.3 of RFC 7693) |
| KeyStretch.LastHash | crypto/argon2.c:53-62 | the last hash of the long form gives 33 to 64 bytes |
| KeyStretch.HPrimeLength | crypto/argon2.c:32-64 | the variable-length hash has the length asked for |
| KeyStretch.HPrimeInto | crypto/argon2.c:32-64 | the code writes V1 ... Vr, V(r+1) of section 3.3 of RFC 9106, every place below the output length once and in order, and nothing beyond |
| KeyStretch.DeriveBlock | crypto/pbkdf2.c:22-33 | a block is the exclusive or of its whole chain of keyed hashes (section 5.2 of RFC 8018) |
| KeyStretch.Pbkdf2 | crypto/pbkdf2.c:9-39 | the code writes exactly the first dklen bytes of T1, T2, ... |
| KeyStretch.ShorterKeyIsPrefix | crypto/pbkdf2.c:21-38 | a shorter key is a prefix of a longer one |
| KeyStretch.LoopEndsExactly | crypto/pbkdf2.c:21-37 | the loop comes to an end exactly when the digest is not empty |
| HashStandard.BlockIsStandard | crypto/pbkdf2.c:22-33 | a block of the key combines a chain that begins with the hash of the salt and the block number, big-endian, in four bytes |
| HashStandard.KeyByteIs | crypto/pbkdf2.c:21-38 | byte j of the key is a byte of block j / length + 1 |
| HashStandard.HPrimeIsStandard | crypto/argon2.c:32-64 | H' by its sequence V1, V2, ..., from the length, little-endian in four bytes, and the input |
| AntiForensic.MergeUndoesSplit | luks/luks1.c:49-58 | merging the split of a key gives the key, for every digest, every number of stripes and all random stripes |
| AntiForensic.LastStripeDetermined | luks/luks1.c:49-58 | no other last stripe does: with the others fixed, merging is a bijection |
| AntiForensic.AfHashSector | luks/luks1.c:37-47 | the running value is hashed with the big-endian stripe number |
| AntiForensic.AfMerge | luks/luks1.c:49-58 | the first merge loop computes the merge |
| AntiForensic.Af2Merge | luks/luks2.c:172-180 | the second, with its own loops, computes the same function |
| HashStandard.MergeIsChain | luks/luks1.c:37-58 | the merge by its running values: each stripe is added and the sum hashed with the stripe number, big-endian in four bytes, after it |
| Base64.SymbolValue | luks/luks2.c:62-69 | the value of a symbol of the alphabet is its place |
| Base64.PushKeeps | luks/luks2.c:74-75 | the bits taken out do not depend on what has been shifted out above them |
| Base64.DecodeUndoesEncode | luks/luks2.c:70-78 | the bytes packed from the encoded values are the bytes encoded (section 4 of RFC 4648) |
| Base64.DecodesAnyLayout | luks/luks2.c:73 | with any characters outside the alphabet in between, decoding gives the bytes back |
| Base64.DecodesPadded | luks/luks2.c:70-78 | decoding undoes padded encoding |
| Base64.Decode | luks/luks2.c:70-78 | the loop with its 32-bit accumulator writes the decoded bytes and returns their number |
| Fat.Volume.ContentTail | bios/stage2/fat.c:342-343 | from a cluster boundary on, a file is the chain from there |
| Fat.Volume.ContentComplete | bios/stage2/fat.c:330-344 | the chain gives every byte of the file exactly if it has a cluster for each |
| Fat.Volume.ClusterHere | bios/stage2/fat.c:331-337 | the bytes at an offset are those of link offset / size of the chain |
| Fat.FatFile.constructor | bios/stage2/fat.c:303-308 | an opened file is at its first cluster and offset 0 |
| Fat.FatFile.Read | bios/stage2/fat.c:318-346 | a read returns the next slice of the chain's bytes cut to the size, and leaves the cursor at the link for the new offset; FatImage.ChainHolds says which bytes of the disk they are |
| Fat.FatFile.ReadPieces | bios/stage2/fat.c:318-346 | any sequence of reads returns consecutive slices |
| Fat.ShortOnlyAtEnd | bios/stage2/fat.c:318-346 | with a complete chain, a read is short only at the end of the file |
| Fat.FindInDir | bios/stage2/fat.c:185-243 | the walk ends on every table, cyclic ones too, after some number of turns of the loop with the bounded walk's result |
| Fat.CounterPasses | bios/stage2/fat.c:189 | the 32-bit counter passes the limit exactly when the limit is not 2^32 - 1; otherwise it says after how many clusters |
| Fat.WalkStopsExactly | bios/stage2/fat.c:186-189 | over all tables, searches and first clusters of a volume of given dimensions, the loop comes to an end exactly when `total / cluster + 3` is not 2^32; otherwise it runs for ever on a cluster that follows itself |
| Fat.SoundChainWithinLimit | bios/stage2/fat.c:186 | a chain of distinct clusters is never longer than the volume has clusters, so not longer than a limit that does not wrap |
| Fat.LimitEnoughExactly | bios/stage2/fat.c:186 | the limit is enough for every sound chain of a volume of given dimensions exactly when its sum is below 2^32 |
| Fat.WrappedLimitCutsShort | bios/stage2/fat.c:186-189 | a sound directory of two clusters in which the wrapped limit misses an entry |
| Fat.LimitNeverCutsSoundChain | bios/stage2/fat.c:186-189 | on a sound directory a limit that does not wrap changes nothing |
| FatImage.FatInit | bios/stage2/fat.c:250-270 | mounts the volume that the fields of the boot sector describe, if sectors have 512 bytes and there is a table |
| FatImage.WrittenMounts | bios/stage2/fat.c:250-270 | of a boot sector written field by field, mounting finds the layout, behind any number of sectors and with any number of tables |
| FatImage.EntryReads | bios/stage2/fat.c:126-135 | the next cluster is the entry written in the table, whatever sector it is in, without its top four bits |
| FatImage.ClusterReads | bios/stage2/fat.c:122-140 | cluster 2 is read from the beginning of the data area, and each further one from where the one before ends |
| FatImage.ChainHolds | bios/stage2/fat.c:318-346 | whatever clusters a file lies in, in whatever order, the chain from its first has its content |
| FatImage.FileReadBack | bios/stage2/fat.c:250-346 | the code mounts a written volume and reads a file of it back, whole and in pieces |
| FatImage.SearchFinds | bios/stage2/fat.c:185-243 | a search looks through the clusters of a directory in the order of its chain, each with the state the one before left |
| FatImage.SomeFileFits | bios/stage2/fat.c:126-140 | any content can be written into any distinct clusters that are enough for it, in any order |
| Config.ParseKeeps | common/config.c:219-302 | any text leaves at most 16 entries, strings inside their fields, theme at most 7, accent at most 15 |
| Config.ParseInRange | common/config.c:205-313 | a full parse of any text also leaves the default index in range |
| Config.MergeOnlyAppends | common/config.c:318-320 | merging any text into a valid configuration keeps all earlier entries, the timeout, the colours and a default in range, and only appends |
| Config.LineSplits | common/config.c:54-81 | a line "key = value" splits into that key and value |
| Config.DecimalRead | common/config.c:272-279 | a printed decimal number is read back |
| Config.TypeRead | common/config.c:194-200 | a printed type is read back |
| Config.ColorRead | common/config.c:326-346 | a printed colour is read back |
| Config.EntryParsed | common/config.c:231-300 | the text of an entry appends it, or, when the table is full, overwrites all of the last entry but its name |
| Config.ParseUndoesPrint | common/config.c:205-313 | parsing undoes printing: every setting and every field of 1 to 16 entries comes back |
| Config.PrintedParsed | common/config.c:205-313 | what a full parse makes of a printed configuration of any number of entries |
| Config.PrintedMerged | common/config.c:205-320 | what a merge into any table makes of it |
| Config.MergeAppendsPrinted | common/config.c:318-320 | merging a printed configuration appends exactly its entries, if they all fit |
| Config.SurplusOverwrites | common/config.c:235-250 | of any number of sections beyond the sixteenth, the last overwrites all of the sixteenth entry but its name |
| Config.SurplusIgnoredExactly | common/config.c:235-250 | the surplus has no effect exactly when there is none or the last of it says what the sixteenth entry says |
| Config.MergeSurplus | common/config.c:235-250 | an overflowing merge into a full table changes nothing; otherwise it overwrites the last new entry, and the same condition is exact |
| ConfigText.ColorIs | common/config.c:326-346 | which words name which colour, and that no others do |
| ConfigText.TypeIs | common/config.c:194-200 | which words name which type |
| ConfigText.ColorsSet | common/config.c:281-287 | accents can be any colour, themes one of the first eight, and words that name none change nothing |
| ConfigText.NumbersSet | common/config.c:271-300 | numbers are read up to the first character that is no digit, modulo 2^32 for time and default; no attempts are three |
| ConfigText.EncryptedSet | common/config.c:295 | an entry is encrypted exactly if the word begins with 1, y or t |
| ConfigText.OtherKeysIgnored | common/config.c:266-301 | keys that are not known change nothing |
| ConfigText.DefaultsAre | common/config.c:208-242 | what holds when nothing is said, in the whole and in an entry |
| ConfigText.DefaultBeyond | common/config.c:304-306 | a default beyond the last entry is taken for the first |
| ConfigText.TruncatedIs | common/config.c:47-51 | what does not fit into a field is cut off at its end, and all that fits is kept |
| ConfigText.LineLengthIs | common/config.c:258-262 | a line is read up to its end or its 511th character |
| ConfigText.TextParsed | common/config.c:219-302 | however it is laid out, with comments, blank lines, indentation, other sections and any spacing, parsing a configuration has the effects of its items one after another |
| ConfigParser.ParseKv | common/config.c:54-81 | the loops split a line as the parser over text does, truncation and trimming included |
| ConfigParser.ParseU32 | common/config.c:272-274 | the digit loop reads the leading number modulo 2^32 |
| ConfigParser.StrCopy | common/config.c:47-51 | copies what fits with its terminator |
| ConfigParser.BootConfig.ParseSection | common/config.c:231-255 | a section header opens an entry if there is room, and is skipped to its bracket |
| ConfigParser.BootConfig.ParseItem | common/config.c:224-301 | one comment, section or line, of at most 511 characters |
| ConfigParser.BootConfig.DoParse | common/config.c:205-309 | the loop fills the configuration as the parser over text says, and succeeds exactly if there is an entry |
| ConfigParser.BootConfig.ConfigParse | common/config.c:311-313 | a full parse: the result is in range and depends on the text alone |
| ConfigParser.BootConfig.ConfigParseMerge | common/config.c:318-320 | a merge changes nothing but the list of entries, which it extends |

## Left out

- The compression functions of SHA-1, SHA-256, SHA-512 and BLAKE2b, HMAC, and the block mixing of Argon2 are function parameters; every result holds for all of them.
- The layout of the first hash and the choice of the reference lane in Argon2 differ from RFC 9106; the model follows the code, with the random words of the data-independent mode as a parameter.
- `luks_vol_open` passes twice the key length to `xts_init`; volumes are modelled over any initialised key schedules, which Cipher.XtsInit and Cipher.CbcInit make from a key.
- AntiForensic.Diffused: the code hashes the stripe number after the data, as its comment says; the LUKS on-disk format has it before, piece by piece of the digest's size. The model follows the code.
- Unlocking (key slots, JSON search, key sizing) in luks/luks1.c and luks/luks2.c, apart from the merges and base64.
- Firmware services, allocation failure, port I/O, the menu, the passphrase prompt, kernel hand-off.
- Key schedules are values, and hashed input is a sequence: the model does not capture a context or input buffer being changed during a call.
- LuksVol.LuksVolume.constructor: payload sectors are multiples of 512 of at most 4096 bytes, the sizes the volume format has; for others the decryption buffer would be too small.
- LuksVol.LuksVolume.Read: requires at most 4 GiB at a time; CopyOffsetExact says what happens beyond.
- Sha.ShaStream.Update: requires a call for which the 32-bit loop test is right, which depends on the length and on how full the buffer is; by Bytes.StepTestExact the loop of the code wraps and goes round again in exactly the others. Sha.HashPieces takes pieces for which it is right however full the buffer is.
- KeyStretch.Pbkdf2: requires a digest of 1 to 64 bytes and a salt of at most 508, the sizes of the buffers; LoopEndsExactly is about a digest of length 0.
- Ext4Io.ByteSource.ReadBytes: reads at least one byte, as all callers do; a range whose end would pass 2^64, where the code's sum wraps, is taken as outside the image. Products of block numbers and block sizes do wrap in the model.
- Ext4Vol.Ext4Volume.ExtentLookup: requires headers that claim no more entries than their node has room for; with others the code reads past the node.
- Ext4.Fs.LookupIsFlat: trees of depth 0 or 1, as the file says of itself; uninitialised extents are read like others.
- Ext4Vol.Ext4Volume.DirLookup: requires names of at most 255 bytes and records whose names lie inside their block; the block size plus the directory size fits 32 bits.
- Ext4Vol.Ext4Volume.PathLookup: the two halves of the block buffer are two arrays.
- Ext4Vol.MountLuks: block sizes up to 64 KiB and groups that hold at least one inode; `ext4_mount` of an unencrypted device, `ext4_stat` and `ext4_readdir` repeat the same loops.
- Fat.FindInDir: what is looked for in a cluster (8.3 and long names) is a parameter; requires a limit below 2^32 - 1, since WalkStopsExactly says that the walk need not end under a larger one. Volumes have 1 to 64 sectors per cluster, here and in the lemmas about the limit: for 0 the code takes a limit of its own, 0x100000 (bios/stage2/fat.c:186), and 128, which `fat_init` accepts, would be more than its static buffer of 64 sectors (bios/stage2/fat.c:180) holds. The second walk, in `fat_readdir`, has the same shape.
- Fat.FatFile.Read: reads of the disk succeed, and clusters have 1 to 64 sectors, the size of the code's buffer; the pool of handles is not modelled.
- Cipher.XtsCrypt: requires a length for which the 32-bit loop test is right, below 2^32 - 16; from there on the loop does not end. All callers pass at most 4096.
- Cipher.CbcDecryptSector: the same.
- Argon2.ShapeFits: requires a number of lanes for which the code does not divide by zero; Argon2.Run requires that the memory is smaller than 4 GiB, since its size in bytes is a 32-bit number.
- AntiForensic.AfMerge: requires at least one stripe and keys of at most 64 bytes, the size of the scratch buffer.
- ConfigParser.BootConfig.DoParse: strings are values shorter than their fields, so what stays behind the terminator is not modelled; the text is what comes before the first NUL.
- ConfigParser.ParseInt: the number of attempts is unbounded, where the code's signed overflow has no defined result.
- Kernel discovery helpers in common/config.c (lines 83-191), which only compare and copy names.
