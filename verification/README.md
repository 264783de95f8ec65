# A verified model of the L4T flashing tools

The scripts in `bootloader/` of the Jetson Linux flashing kit drive external programs, but they also carry several
self-contained algorithms over bytes, trees and numbers. This project models those algorithms in Dafny and proves what
they are for. Check everything with `dafny verify dfyconfig.toml`.

Algorithms that change state step by step are classes and methods with loops (the token-driven DTB parser with its
linked node objects, the DTB header, the BUP writer and inspector on a seekable file, FSKP sealing on a directory of
files, the block-wise encryption on the key object, the QSPI device, the DTS scanners, the request writer). Each is
proved against a specification function, and the theorems are about those functions. The arithmetic of Ed25519 and
CRC-32 is expressions and recursion in the model as well.

## Reading guide

- **Device tree blobs** (`dtbcheck.py`). `DtbTree` is the recursive flattening of the Devicetree Specification v0.4
  (section 5.4.2) and a parser on values; `DtbTreeSound` shows that it accepts exactly the flattenings of legal
  forests. `DtbTokens` is the scanner, and says which bytes a list of tokens is scanned from. `DtbLayout` and
  `DtbSimulation` relate numbered, linked nodes to the tree read so far; `DtbParser` is the loop on `FdtNode` objects;
  `DtbTheorems` puts these together. `DtbSerializer` writes a tree, with NOPs at chosen places, as structure and
  strings blocks, `DtbImage` as a whole blob, and both are read back. `DtbNames` has which written trees are accepted,
  and spells out the names; `DtbBytes` spells out header, trailer and a small blob; `Utf8` what a code point is.
  `Crc32` is the CRC of section 8 of RFC 1952 bit by bit, with what it detects; `CrcRemainder` shows that it is the
  remainder of a polynomial division, `CrcValues` has its check value and residue. `DtbSign` is the header, the signer
  and the verifier; `DtbSignTheorems` has completeness, the exact form of accepted images, and detection of changes.
- **Ed25519** (`ed25519.py`, sections 5.1.1 to 5.1.7 of RFC 8032). `ModularArithmetic` proves Fermat's little theorem
  and that 2 is not a square modulo a prime that leaves 5 modulo 8; `EdwardsCurve` has exponentiation, inversion and
  the square root; `EdwardsLaw` the addition law, with its completeness; `EdwardsGroup` double-and-add; `BitCodec` the
  bit lists; `EdwardsReduction` points that are not reduced; `Ed25519` codecs, keys, signing and verification;
  `Ed25519Witness` a small scheme that meets every hypothesis.
- **BUP blobs** (`BUP_generator.py`): `BlobFile`, `BupFormat`, `BupWriter`, `BupInspector`, `BupCheck`, `BupExtract`,
  and `BupBytes`, the layout byte by byte.
- **Sealing**: `Fskp` (`tegraflash_impl_t234.py`), `Metablob` and `MetablobTheorems` (`tegrasign_v3_hsm.py`).
- **Flash time** (`tegraflash_internal.py`): `DtsTrim` scans, chooses and writes, `DtsTrimDocument` says what that does
  to a structured source, `DtsBraces` looks at the braces of the text, `DtsPhandles` says which lines count,
  `DtsStraps` treats the line of strap handles, and `DtsTrimRun` is the whole run. `FlashIndex` reads the flash index,
  `Qspi` updates one QSPI device, `FlashRun` flashes all devices.
- **Requests** (`tegrasign_v3_internal.py`, `tegrasign_v3_util.py`): `Framing`.
- `Bytes`, `Strings` and `Sequences` are shared helpers.

## Conventions and assumptions

- An exception, a failed assertion and an exit are one outcome, written `None` or `ok == false`; their kinds and
  messages are not told apart.
- Python integers are unbounded, so `int` is right; a value that goes into a 32-bit field is checked where
  `struct.pack` checks it. Native byte order (`=`) is taken as little-endian.
- Ed25519 is generic in the prime q with q mod 8 = 5. `ValidScheme` collects the hypotheses: q is a prime below 2^255,
  d is not a square, the base point is on the curve and has order l, and the law is associative on the curve. Nothing
  else is assumed; in particular the denominators of the law are proved not to vanish. `/` is floor division.
- The hash, AES-GCM, HMAC and SHA-512 are arbitrary functions. `ValidCrypto` and `ValidHsm` say only that sizes are
  right and that decryption undoes encryption; both are shown to be satisfiable. The sealing tools get a length that is
  cut to whole AES blocks, and what they do with a longer buffer is not visible, so the sealing theorem is for payloads
  of whole blocks.
- FSKP sealing calls tegrasign, which catches every exception and returns 1 (bootloader/tegrasign_v3.py:387, 606-610;
  bootloader/tegrasign_v3_util.py:579-585), and the caller ignores what it returns
  (bootloader/tegraflash_impl_t234.py:3230-3237): an input that is missing or too short means that nothing is written.
- The property rules that dtbcheck.py applies between parsing and signing are a parameter, a predicate on the bytes.
- tegradevflash reads, erases and writes one partition of a device, which is found by its device and instance number;
  an unknown device or partition, or an image that is too long, is an error. Comparing partition tables, flashing one
  whole device and flashing everything are parameters (`Tool`); flashing one device touches no other.
- `re.sub` is a parameter; for a pattern of letters and digits it replaces every occurrence from the left (`ValidSub`,
  which can be met).
- The external program behind a key-derivation request is assumed to find the payload through the size words, replace
  it in place by as many bytes, and leave a result file if it succeeds.

## What the code does that one might not expect

- Names are matched with `$`, which also accepts a final newline; the very first node's name is not checked; the parser
  moves on by the number of code points of a node name, not of bytes. So a legal tree is read back exactly if its root
  name is UTF-8 and takes as many words in code points as in bytes, as every ASCII name does (`WrittenTreeExactly`,
  `AsciiIsAligned`); a name of two accented letters is one for which it fails (`AccentedRootIsRejected`).
- The phandle index is kept in the first top-level node only, so a lookup from a second top-level node fails
  (`LookupNeedsFirstTree`); with one top-level node it is exact (`LookupIsExact`).
- The verifier ignores totalsize and the padding except for the checksum (`VerifiedExactly`).
- `decodepoint` can return coordinates that are not reduced (`ReducedExactly` says when, `UnreducedPoint` is one);
  encoding still gives the bytes back (`DecodedPointEncodes`), and as a key such a point counts as the reduced one
  (`AcceptedExactly`).
- An entry of a BUP table with an op mode above 2 cannot be extracted (`ExtractsExactly`), and entries with the same
  file name overwrite each other (`LastRowWins`).
- If the extension of an FSKP image is `.signed`, sealing raises; if it is `.hash`, the HMAC overwrites the image and
  the result is not sealed. For every other extension it is. A tool that gives up tells nobody, so an image that does
  not fit is noticed only if no encrypted file of an earlier run is there (`OemSignFskp`).
- When the length of a buffer is a multiple of the block size, its last block is not encrypted
  (`LastBlockIsEncrypted`); an empty buffer raises; a first vector that is not 12 bytes long is not the one recorded
  (`BlobKeepsSize`).
- The trimmer's caller compares line positions with the text "-1"; the guard never holds, and a source without tables
  raises (`Trim`). A block without an entry ends the writing loop; the exception is caught, the outcome is compared
  with "-1" as well, and the partly written source is compiled (`RemoveUnused`, `Trim`). The line after a dropped table
  goes too, even if it is the first line of the next table (`ChosenBlockSurvives`).
- The trimmer's scanner counts the braces of one kind on a line once. Intervals and trimmed source are balanced brace
  by brace if no line has two of a kind (`FoundAreBalanced`, `TrimKeepsBalance`); in general the difference is what the
  scanner misses (`FoundBalance`, `TrimmedBalance`), and it need not be zero (`TrimBreaksBalance`).
- The handles on the strap line are replaced one after the other wherever they occur, so one that is in front of
  another, like `0xa` in `0xab`, spoils it (`SelectedIsSpoilt`). Exactly when none does is `StrapLineExactly`.
- If the lines of one device do not stand together in the flash index, each run of them counts as a device of its own,
  and the device is handled several times (`RepeatedDevice`, `HandledTwice`). With all lines together, and only then,
  every device has one group (`DistinctExactly`).
- A sparse update that fails on an image that is too long leaves its partition erased (`FailureLeaves`).

## Model

| member | source | states |
|---|---|---|
| DtbTokens.Align | bootloader/dtbcheck.py:44-45 | the smallest multiple of b that is not below n: at least n, less than n + b, divisible by b |
| DtbTokens.ScanToken | bootloader/dtbcheck.py:200-237 | a token that is read moves the offset on by at least 4 and keeps it a multiple of 4, so the loop ends |
| DtbTokens.ScannedExactly | bootloader/dtbcheck.py:199-254 | the scanner yields a list of tokens exactly if these are laid out at the offset: tags and operands in the structure block with any padding bytes, every property name NUL-terminated in the strings block, and the end token behind them |
| Utf8.CodePointsExactly | bootloader/dtbcheck.py:172-177 | a name decodes to n code points exactly if it is the UTF-8 encoding of n scalar values |
| Bytes.BigEndian | bootloader/dtbcheck.py:187-200 | a word of the blob is the little-endian number of its four bytes in reverse |
| BitCodec.ByteOfNumber | bootloader/BUP_generator.py:241-243 | byte i of a little-endian number is its digit of 256^i |
| DtbTree.RunIgnoresNops | bootloader/dtbcheck.py:248-249 | NOP tokens change neither acceptance nor the tree |
| DtbTreeSound.AcceptedIsFlattening | bootloader/dtbcheck.py:199-256 | an accepted token list, without its NOPs, is the flattening of the forest built, and that forest is legal (valid and distinct names, distinct 4-byte phandles) |
| DtbTreeSound.FlatteningIsAccepted | bootloader/dtbcheck.py:199-256 | the flattening of every legal forest is accepted, with NOPs anywhere, and gives back exactly that forest |
| DtbSimulation.AdvanceSimulates | bootloader/dtbcheck.py:202-249 | one iteration on linked nodes succeeds exactly when the parser on values does, and the nodes stay the layout of the tree read so far |
| DtbParser.FdtNode.constructor | bootloader/dtbcheck.py:118-129 | a fresh node with the given name and parent, no children or properties, whose depth is the length of its parent chain |
| DtbParser.FdtNode.GetByPhandle | bootloader/dtbcheck.py:141-150 | the walk to the topmost ancestor and the index lookup there return the node that the parser state's lookup names, or null |
| DtbParser.ParseStringAt | bootloader/dtbcheck.py:172-177 | the bytes up to the NUL if there is one and they decode |
| DtbParser.ReadToken | bootloader/dtbcheck.py:200-237 | one token with its operands, and the offset behind it |
| DtbParser.Begin | bootloader/dtbcheck.py:203-217 | a node is refused for a bad or repeated name, and otherwise linked so that the objects mirror the grown state |
| DtbParser.AddProp | bootloader/dtbcheck.py:226-247 | a property is refused for a bad or repeated name, or a bad or repeated phandle, and otherwise entered into node and index |
| DtbParser.ParseDtStruct | bootloader/dtbcheck.py:179-256 | the loop ends on every byte string, succeeds exactly when the specification does, and leaves linked objects that mirror its final state |
| DtbTheorems.ParsingUndoesFlattening | bootloader/dtbcheck.py:179-256 | a structure block that holds the flattening of a legal tree, with NOPs between any tokens and any padding, is parsed into the layout of exactly that tree |
| DtbTheorems.AcceptedIsLayout | bootloader/dtbcheck.py:179-256 | nothing else is accepted: the bytes hold the flattening of a legal forest, and the nodes are the layout of that forest |
| DtbTheorems.LaidOutIsAccepted | bootloader/dtbcheck.py:179-256 | every block that holds the flattening of a legal forest is accepted, with the layout of that forest |
| DtbTheorems.AcceptedExactly | bootloader/dtbcheck.py:179-256 | both directions together |
| DtbSerializer.WrittenTreeExactly | bootloader/dtbcheck.py:179-256 | a legal tree with a NUL-free root name, written as structure and strings blocks with NOPs at any places and sizes below 2^32, is accepted exactly if the root name is UTF-8 and takes as many words in code points as in bytes, and then it is read back |
| DtbSerializer.AsciiIsAligned | bootloader/dtbcheck.py:203-208 | every ASCII name meets that condition |
| DtbSerializer.AccentedRootIsRejected | bootloader/dtbcheck.py:203-208 | a legal tree with a root name of two accented letters is rejected, wherever it is written |
| DtbImage.AccentedImageIsRejected | bootloader/dtbcheck.py:203-208 | in particular the whole blob of that name alone, which passes the header check |
| DtbImage.ImageIsParsed | bootloader/dtbcheck.py:64-83 | the whole blob written for a legal tree passes the header check, and is parsed exactly under that condition |
| DtbImage.ImageIsSigned | bootloader/dtbcheck.py:2189-2210 | such a blob, if it meets the rules and its signed size is allowed, is signed and verified, and the signed blob parses to the same tree |
| DtbNames.WrittenExactly | bootloader/dtbcheck.py:179-256 | a written tree with NUL-free names, legal or not, is accepted exactly if it is legal and its root name takes as many words in code points as in bytes, and then it is read back |
| DtbNames.PropertyNamesExactly | bootloader/dtbcheck.py:192-193 | the blob of a root with one property is parsed exactly if its name, cut before one final newline, is non-empty text of digits, letters and "#+,-.?_" |
| DtbNames.NodeNamesExactly | bootloader/dtbcheck.py:189-190 | that of a root with one child exactly if its name, cut likewise, is text of digits, letters and "+,-._" with at most one "@" that has text on both sides |
| DtbNames.PhandleExactly | bootloader/dtbcheck.py:243-247 | a property "phandle" is accepted exactly if it has four bytes |
| DtbNames.TwoPropertiesExactly | bootloader/dtbcheck.py:239-241 | two properties of one node are accepted exactly if their names are allowed and differ |
| DtbNames.TwoChildrenExactly | bootloader/dtbcheck.py:208-212 | two children of one node likewise |
| DtbNames.TwoPhandlesExactly | bootloader/dtbcheck.py:243-247 | two nodes with phandles are accepted exactly if names and phandles differ |
| DtbBytes.HeaderExactly | bootloader/dtbcheck.py:64-83 | the header check passes exactly for these words at these places of the file |
| DtbBytes.PropertyImage | bootloader/dtbcheck.py:180-256 | the blob of a root with one property, byte by byte |
| DtbBytes.PropertyBlobExactly | bootloader/dtbcheck.py:179-256 | that file is accepted exactly if the name is allowed |
| DtbTheorems.ReachableIsConsistent | bootloader/dtbcheck.py:195-256 | every reachable state has depth, parent links, children maps and phandle index in agreement |
| DtbTheorems.ParsedIsConsistent | bootloader/dtbcheck.py:195-256 | in particular the state in which a successful parse ends |
| DtbTheorems.LookupIsExact | bootloader/dtbcheck.py:141-150 | with one top-level node, a lookup from any node yields the one node with that phandle and fails exactly when there is none |
| DtbTheorems.LookupNeedsFirstTree | bootloader/dtbcheck.py:141-150 | in general a lookup succeeds exactly for nodes of the first top-level tree |
| Crc32.CrcStreams | bootloader/dtbcheck.py:1929-1933 | the checksum computed piece by piece is the checksum of the whole |
| Crc32.CrcBound | bootloader/dtbcheck.py:1933 | the checksum fits in 32 bits, so masking it changes nothing |
| Crc32.UpdateInjective | bootloader/dtbcheck.py:1969-1972 | different registers stay different over any common suffix |
| Crc32.UpdateAtOnce | bootloader/dtbcheck.py:1969-1972 | up to four bytes can enter the register at once |
| Crc32.CrcDetectsBurst | bootloader/dtbcheck.py:1969-1974 | any change within four consecutive bytes changes the checksum, whatever precedes and follows |
| CrcRemainder.CrcIsRemainder | bootloader/dtbcheck.py:1929-1933 | the checksum is the inverted remainder of the message polynomial, first 32 bits inverted, times x^32, modulo the generator |
| CrcRemainder.CrcExactly | bootloader/dtbcheck.py:1929-1933 | no other number below 2^32 has that property |
| CrcValues.CrcOfDigits | bootloader/dtbcheck.py:1929-1933 | the checksum of "123456789" is 0xCBF43926 |
| CrcValues.ResidueLaw | bootloader/dtbcheck.py:1968-1974 | every message followed by its own checksum, lowest byte first, has the checksum 0x2144DF1C |
| DtbSign.UnpackPacked | bootloader/dtbcheck.py:88-115 | packed header words unpack to themselves |
| DtbSign.PackUnpacked | bootloader/dtbcheck.py:88-115 | unpacked header words pack back to their bytes |
| DtbSign.FdtHeader.Pad | bootloader/dtbcheck.py:85-86 | totalsize grows by the size, nothing else changes |
| DtbSign.FdtHeader.Pack | bootloader/dtbcheck.py:88-98 | the ten words in order, or an error if one does not fit |
| DtbSign.ParseHeader | bootloader/dtbcheck.py:100-115 | a fresh header object with the ten words of the data |
| DtbSign.AlignedLength | bootloader/dtbcheck.py:1919-1920 | a multiple of 64 that leaves room for 20 to 83 bytes |
| DtbSign.Sign | bootloader/dtbcheck.py:1913-1941 | the signed image of the specification, with totalsize grown in the header object; None exactly when a word does not fit or the final check fails |
| DtbSign.VerifiedIsSealed | bootloader/dtbcheck.py:1957-1974 | a verified image ends with the checksum of everything before it |
| DtbSign.VerifiedForm | bootloader/dtbcheck.py:1943-1974 | a verified image is the unsigned one with some totalsize, a padding below 64 bytes, the metadata and the checksum |
| DtbSign.FormIsVerified | bootloader/dtbcheck.py:1943-1974 | every image of that form is verified |
| DtbBytes.VerifiedTrailer | bootloader/dtbcheck.py:1943-1974 | a verified image ends, byte by byte, with major revision, chip, checker version, "DTBC" and the inverted remainder of everything before |
| DtbBytes.SignedBytes | bootloader/dtbcheck.py:1913-1941 | the signed image is the file with the new size in its header, zeros up to the last 64-byte block, and that trailer |
| DtbSignTheorems.VerifiedExactly | bootloader/dtbcheck.py:1943-1974 | both directions together: verification accepts exactly the images of that form |
| DtbSignTheorems.SigningIsComplete | bootloader/dtbcheck.py:1913-1974 | for a DTB that passes the header check, signing succeeds exactly when the aligned length is at most 2^31, and its result is verified |
| DtbSignTheorems.SigningKeepsTheTree | bootloader/dtbcheck.py:1976-2210 | the signed image passes the header check and parses to the same tree as the unsigned one |
| DtbSignTheorems.TamperingIsDetected | bootloader/dtbcheck.py:1943-1974 | a verified image changed in up to four consecutive bytes, anywhere in it, is verified for no unsigned image and no chip |
| DtbSignTheorems.CheckAndSign | bootloader/dtbcheck.py:2189-2210 | header check, parse, rules, sign and verify in sequence write the signed image exactly when check, parse, rules and signing succeed: the final verification never fails |
| ModularArithmetic.Fermat | bootloader/ed25519.py:21-22 | a^(q-1) is 1 modulo a prime q that does not divide a |
| ModularArithmetic.TwoIsNonResidue | bootloader/ed25519.py:25 | 2^((q-1)/2) is -1 modulo a prime q with q mod 8 = 5 |
| EdwardsCurve.ExpModIsPower | bootloader/ed25519.py:15-19 | square-and-multiply computes b^e mod m for every e and every m above 1 |
| EdwardsCurve.InvIsInverse | bootloader/ed25519.py:21-22 | x times inv(x) is 1 modulo q for every x that the prime q does not divide |
| EdwardsCurve.RootOfMinusOneSquared | bootloader/ed25519.py:25 | the constant I squares to -1 modulo q |
| EdwardsCurve.SquareRootFindsRoot | bootloader/ed25519.py:27-32 | the root search finds a root whenever one exists |
| EdwardsLaw.DenominatorsAreNotZero | bootloader/ed25519.py:43-44 | for two points of the curve neither denominator of the law is divisible by q |
| EdwardsLaw.EdwardsStaysOnCurve | bootloader/ed25519.py:38-48 | the sum of two points of the curve is on the curve, with both coordinates reduced |
| EdwardsLaw.EdwardsExactly | bootloader/ed25519.py:38-48 | the sum of two points of the curve is the one pair of residues that solves x (1 + t) = x1 y2 + x2 y1 and y (1 - t) = y1 y2 + x1 x2 modulo q, for t = d x1 x2 y1 y2 |
| EdwardsGroup.EdwardsCommutes | bootloader/ed25519.py:38-48 | the law is commutative |
| EdwardsGroup.ScalarMultIsMultiple | bootloader/ed25519.py:50-57 | double-and-add is e-fold addition |
| EdwardsGroup.MultipleAdd | bootloader/ed25519.py:50-57 | (m + n) P is m P + n P |
| EdwardsGroup.MultipleOfMultiple | bootloader/ed25519.py:50-57 | n (m P) is (m n) P |
| EdwardsGroup.MultipleModOrder | bootloader/ed25519.py:87 | multiples of a point of order l depend on the multiplier modulo l only |
| BitCodec.BitSumOfBits | bootloader/ed25519.py:60-61 | summing the low n bits of y gives y mod 2^n |
| BitCodec.PackedBit | bootloader/ed25519.py:61-70 | every bit packed into a byte string is read back by bit() |
| BitCodec.PackOwnBits | bootloader/ed25519.py:66-70 | packing the bits of a byte string gives the byte string |
| BitCodec.SumOfBits | bootloader/ed25519.py:95-99 | reading n bits of a string that holds the bits of y gives y mod 2^n |
| BitCodec.BitsOfSum | bootloader/ed25519.py:78-80 | the integer read from a byte string has that string's bits and stays below 2^n |
| BitCodec.SumIsReadLE | bootloader/ed25519.py:79-80 | summing all bits of a byte string gives the little-endian number it holds |
| Ed25519.IntRoundTrip | bootloader/ed25519.py:59-61 | decodeint undoes encodeint for every integer below 2^256 |
| Ed25519.EncodedIntIsLE | bootloader/ed25519.py:59-61 | encodeint writes 32 bytes, lowest first |
| Ed25519.EncodedPointIsLE | bootloader/ed25519.py:63-67 | encodepoint writes y and, in the highest bit, the parity of x |
| Ed25519.XRecoverIsEvenRoot | bootloader/ed25519.py:27-32 | for a point of the curve, xrecover returns the even one of x and q - x |
| Ed25519.PointRoundTrip | bootloader/ed25519.py:63-104 | decodepoint undoes encodepoint for every reduced point of the curve |
| Ed25519.DecodedPointEncodes | bootloader/ed25519.py:63-104 | encodepoint undoes decodepoint for every 32 bytes that decode |
| Ed25519.SecretScalarIsClamped | bootloader/ed25519.py:72-74 | the secret scalar has the digest's bits 3 to 253, bit 254 set and no others: a multiple of 8 between 2^254 and 2^255 |
| Ed25519.HintIsLE | bootloader/ed25519.py:78-80 | Hint is the number with the 512 bits of the hash |
| Ed25519.PublicKeyIsMade | bootloader/ed25519.py:72-76 | the public key is the encoded multiple of B by the scalar with bits 3 to 253 of the hashed secret and bit 254 |
| Ed25519.SignatureIsMade | bootloader/ed25519.py:82-88 | R is r B for the hash r of the second half of the hashed secret and the message; S is r + k a modulo l for the hash k of R, key and message; both are encoded in that order |
| Ed25519.SignatureEquation | bootloader/ed25519.py:82-88 | ((r + h a) mod l) B is r B + h (a B) |
| Ed25519.SigningIsComplete | bootloader/ed25519.py:72-119 | checkvalid accepts what signature returns, for every message and secret, with the matching public key |
| EdwardsReduction.EdwardsOfReduced | bootloader/ed25519.py:38-48 | the law gives the same sum for reduced arguments, on all points |
| EdwardsReduction.ScalarMultOfReduced | bootloader/ed25519.py:50-57 | so does double-and-add |
| Ed25519.ReducedExactly | bootloader/ed25519.py:95-104 | a decoded point is reduced exactly if its y is below q and not both sign bit set and recovered x zero |
| Ed25519.UnreducedPoint | bootloader/ed25519.py:95-104 | the encoding of y = 1 with the sign bit set decodes to (q, 1) on every curve |
| Ed25519.AcceptedExactly | bootloader/ed25519.py:106-119 | for every key, checkvalid accepts exactly if both lengths are right, R and key decode, and S B = R + h A, with h hashed from the bytes as they came and h A the h-fold sum of the reduced key |
| Ed25519Witness.WitnessIsValid | bootloader/ed25519.py:8-36 | a concrete scheme over q = 5 meets every hypothesis of the signature theorems |
| BlobFile.File.Write | bootloader/BUP_generator.py:286-296 | writing at a position overwrites, or extends behind the end, and moves the position |
| BlobFile.File.Read | bootloader/BUP_generator.py:450-491 | up to n bytes from the position, which moves by what was read |
| BupWriter.UpdatePayload.FillHeader | bootloader/BUP_generator.py:268-284 | the header with zero sizes and the accessory; fails exactly when header size or count do not fit |
| BupWriter.UpdatePayload.FillEntry | bootloader/BUP_generator.py:293-296 | one placeholder for every entry |
| BupWriter.UpdatePayload.FillImage | bootloader/BUP_generator.py:298-313 | all images in order, their offsets and lengths recorded, and the blob size |
| BupWriter.UpdatePayload.UpdateBlobSize | bootloader/BUP_generator.py:286-291 | both size fields are overwritten; fails exactly when the size does not fit |
| BupWriter.UpdatePayload.UpdateEntry | bootloader/BUP_generator.py:367-380 | the placeholders are overwritten by the entry table; fails exactly when a version or op mode does not fit |
| BupWriter.PatchBlob | bootloader/BUP_generator.py:181-186 | the two patches turn the placeholder layout into the finished one and leave accessory and images alone |
| BupWriter.Generate | bootloader/BUP_generator.py:179-187 | the finished blob; fails exactly when something does not fit |
| BupInspector.InspectUpdatePayload.constructor | bootloader/BUP_generator.py:440-488 | header, accessory and rows as the specification reads them from the bytes, without changing the file |
| BupInspector.InspectUpdatePayload.GenerateEntryList | bootloader/BUP_generator.py:490-505 | row i is the unpacked entry i if the file holds all of it |
| BupInspector.StripPacked | bootloader/BUP_generator.py:555-560 | stripping a padded text field gives the stripped text |
| BupInspector.StripExactly | bootloader/BUP_generator.py:555-560 | exactly spaces, tabs, line ends and NULs at the ends of a text go |
| BupInspector.InspectUndoesGenerate | bootloader/BUP_generator.py:268-505 | the inspector reads back header, accessory and every entry within its limit, and offset and size select exactly the entry's image; it fails only for a short accessory with fewer than 8 bytes behind the header |
| BupBytes.HeaderBytes | bootloader/BUP_generator.py:268-291 | magic, version, sizes, count and type at their places, and the accessory behind the header |
| BupBytes.RowBytes | bootloader/BUP_generator.py:367-380 | every row of the table, byte by byte: name, place and size of the image, version, op mode, tnspec |
| BupBytes.FitsExactly | bootloader/BUP_generator.py:268-380 | the sizes and words for which generation succeeds |
| BupBytes.InspectedBytes | bootloader/BUP_generator.py:440-505 | what is read from any file, and exactly when reading fails or a row is not whole |
| BupCheck.AddOnce | bootloader/BUP_generator.py:580-589 | the deduplicating scan appends a value exactly when it is not there yet |
| BupCheck.RemovedKeepsOthers | bootloader/BUP_generator.py:610-615 | removing a matched entry loses no match for another tnspec |
| BupCheck.Collect | bootloader/BUP_generator.py:571-600 | all partitions with some tnspec, and all tnspecs, each exactly once |
| BupCheck.MissingSpecs | bootloader/BUP_generator.py:604-619 | exactly the tnspecs for which the partition has no entry, although matches are removed on the way |
| BupCheck.CheckEntryTable | bootloader/BUP_generator.py:566-623 | succeeds exactly when every partition with some tnspec has an entry for every tnspec of the table; reports exactly the missing pairs |
| BupBytes.GeneratedTable | bootloader/BUP_generator.py:566-623 | the table of a generated blob answers what the check asks (is there an entry for this partition and tnspec, has the partition some tnspec, is the tnspec used) by the stripped names and tnspecs that went in |
| BupExtract.ExtractBinaries | bootloader/BUP_generator.py:625-692 | the saved files of the specification, and exactly the wanted names that no row has |
| BupExtract.ExtractsExactly | bootloader/BUP_generator.py:637-660 | extraction goes through exactly if every row was readable and no selected one has an op mode above 2 |
| BupExtract.LastRowWins | bootloader/BUP_generator.py:655-670 | a file holds what its last selected row points at, and there are no files without a row |
| BupBytes.FileNameIs | bootloader/BUP_generator.py:632-656 | file names spelled out; none exactly for an op mode above 2 |
| BupBytes.FilesExactly | bootloader/BUP_generator.py:631-670 | there is a file exactly for the names of wanted rows, with the bytes of the last such row |
| BupExtract.ExtractUndoesGenerate | bootloader/BUP_generator.py:179-670 | extracting from a written blob gives back each image, unless a later selected entry has the same file name |
| Fskp.Workspace.Encrypt | bootloader/tegrasign_v3_internal.py:322-409 | tag file and spliced encrypted file; nothing at all if the input is missing or the region does not fit |
| Fskp.Workspace.Hmac | bootloader/tegrasign_v3_internal.py:322-421 | hash file, from the buffer and its length in whole blocks, and a copy; nothing at all if the input is missing or the region does not fit |
| Fskp.Workspace.Sha | bootloader/tegrasign_v3_internal.py:859-882 | digest file of the region; nothing at all if the input is missing or the region does not fit |
| Fskp.Workspace.OemEncFskp | bootloader/tegraflash_impl_t234.py:1588-1627 | for a sealable image, the encrypted image with its tag in place; fails for one that does not fit unless an old encrypted file is there |
| Fskp.Workspace.DigestPayload | bootloader/tegraflash_impl_t234.py:1645-1658 | the digest of the encrypted payload is patched into the encrypted file |
| Fskp.Workspace.DigestStage2 | bootloader/tegraflash_impl_t234.py:1660-1669 | HMAC and digest are both of the file before the copy; raises exactly for extension .signed |
| Fskp.Workspace.OemSignFskp | bootloader/tegraflash_impl_t234.py:1629-1701 | a sealable image is sealed exactly for extensions other than .signed and .hash: all four digests match their regions in the final file, the payload opens with the stored vector, data and tag, and nothing else has changed |
| Fskp.EncryptedOpens | bootloader/tegraflash_impl_t234.py:1600-1625 | the payload opens with what is stored beside it, and only payload and tag differ |
| Fskp.DigestsAgree | bootloader/tegraflash_impl_t234.py:1655-1699 | each later patch leaves alone what the earlier digests cover |
| Fskp.SealsImage | bootloader/tegraflash_impl_t234.py:1588-1701 | the four patches in order yield a sealed image |
| Fskp.SealedExactly | bootloader/tegraflash_impl_t234.py:1588-1701 | what sealed means, with every place spelled out |
| Fskp.SealableExactly | bootloader/tegraflash_impl_t234.py:1595-1616 | which images can be sealed |
| Metablob.SignKey.DoRandom | bootloader/tegrasign_v3_hsm.py:200-208 | the random strings one after the other; a negative count raises |
| Metablob.SignKey.EncryptBlock | bootloader/tegrasign_v3_hsm.py:758-780 | one iteration encrypts its block in place, writes its record and fetches the next vector |
| Metablob.SignKey.EncryptBuffer | bootloader/tegrasign_v3_hsm.py:730-784 | buffer and blob of the specification for every buffer and first vector; raises exactly for an empty buffer |
| MetablobTheorems.RecordMatchesBlock | bootloader/tegrasign_v3_hsm.py:767-775 | record i holds vector, tag and SHA-512 of encrypted block i, and block i of the buffer is that block |
| MetablobTheorems.CountCovers | bootloader/tegrasign_v3_hsm.py:744-745 | there are as many blocks as it takes to cover the buffer |
| MetablobTheorems.FirstVector | bootloader/tegrasign_v3_hsm.py:758-775 | the first block is encrypted and recorded under the vector given |
| MetablobTheorems.LaterVectors | bootloader/tegrasign_v3_hsm.py:749-780 | block i after it under random string i - 1, bytes 12 (i - 1) to 12 i of what was fetched; vector, tag and digest stand in bytes 92 (i + 1) on |
| MetablobTheorems.VectorsAreDistinct | bootloader/tegrasign_v3_hsm.py:749-780 | no recorded vector occurs twice if the 12-byte first one and the random strings are all different |
| MetablobTheorems.BlobKeepsSize | bootloader/tegrasign_v3_hsm.py:742-775 | the blob has 92 (n + 1) bytes exactly if the first vector has at most 12, and records it unchanged exactly if it has 12 |
| MetablobTheorems.LastBlockIsEncrypted | bootloader/tegrasign_v3_hsm.py:744-768 | the whole buffer is encrypted exactly if its length is not a multiple of the block size; otherwise the last block stays as it was |
| MetablobTheorems.OpenUndoesEncrypt | bootloader/tegrasign_v3_hsm.py:730-784 | decrypting block by block with the count and the records of the blob gives back the buffer |
| DtsTrim.SaveTablePos | bootloader/tegraflash_internal.py:3967-4004 | the positions the scanner's specification finds |
| DtsTrim.FoundAreOrdered | bootloader/tegraflash_internal.py:3967-4004 | whatever the text, positions that are returned are ordered and disjoint |
| DtsPhandles.StartsExactly | bootloader/tegraflash_internal.py:3983-3988 | for any text, the starts are exactly the lines with "external-memory-", in order |
| DtsTrim.FoundAreBlocks | bootloader/tegraflash_internal.py:3972-3997 | with the tables directly under the root, every interval is one block by the scanner's count, which takes the braces of one kind on a line for one |
| DtsBraces.FoundBalance | bootloader/tegraflash_internal.py:3972-3997 | the braces of such an interval balance up to exactly those the scanner misses in it |
| DtsBraces.FoundAreBalanced | bootloader/tegraflash_internal.py:3972-3997 | with the tables directly under the root and no line with two braces of one kind, every interval is one block balanced brace by brace |
| DtsTrim.UpdateValidEntries | bootloader/tegraflash_internal.py:3950-3964 | one truth value for every phandle line of every interval, in order: whether its handle is the one the ramcode selects; raises exactly if there is such a line and one of them has no value in brackets, or the ramcode is behind the list |
| DtsPhandles.LinesExactly | bootloader/tegraflash_internal.py:3957 | a line counts exactly if "phandle" stands at some place in it and "linux" at none; block names and braces likewise |
| DtsPhandles.OldLinesAreSkipped | bootloader/tegraflash_internal.py:3955-3962 | of a "linux,phandle" and a "phandle" line only the second makes a choice: whether its handle is the selected one |
| DtsPhandles.TableIsLegal | bootloader/tegraflash_internal.py:3955-3962 | a table with both lines is structured, with its one handle |
| DtsPhandles.OtherTableGoes | bootloader/tegraflash_internal.py:3928-3962 | of two such tables the one that is not selected goes |
| DtsTrim.RemoveUnused | bootloader/tegraflash_internal.py:3928-3946 | exactly the lines that no dropped block covers are written, up to the first line of a block without an entry that no dropped block covers; the outcome is false exactly if there is such a line |
| DtsTrim.ChosenBlockSurvives | bootloader/tegraflash_internal.py:3932-3943 | a chosen block survives whole exactly if no dropped block ends right before its first line |
| DtsTrimDocument.ScanFindsTables | bootloader/tegraflash_internal.py:3967-4004 | in a structured source the scanner finds exactly the tables |
| DtsTrimDocument.TrimSelects | bootloader/tegraflash_internal.py:3928-4004 | trimming such a source leaves exactly the source of the chosen tables: each dropped table goes with the blank line behind it |
| DtsTrimDocument.TrimKeepsLineBalance | bootloader/tegraflash_internal.py:3928-3946 | the trimmed source is structured again and as balanced as before by the scanner's count |
| DtsBraces.TrimmedBalance | bootloader/tegraflash_internal.py:3928-3946 | trimming changes the balance of the braces by exactly what the scanner misses in the dropped tables |
| DtsBraces.TrimKeepsBalance | bootloader/tegraflash_internal.py:3928-3946 | it keeps the balance of the braces if no line of a dropped table has two of one kind |
| DtsBraces.TrimBreaksBalance | bootloader/tegraflash_internal.py:3928-3946 | a balanced structured source whose trimmed text has a closing brace too many |
| DtsStraps.GetStrapHandles | bootloader/tegraflash_internal.py:4019-4040 | the strap line and its handles as the specification finds them; raises exactly if there is no strap node, no line behind it, or nothing in brackets on that line |
| DtsTrimRun.StrapNodeIsFound | bootloader/tegraflash_internal.py:4019-4028 | a strap node as it is printed is found, with its handles |
| DtsStraps.StrapLineIsRead | bootloader/tegraflash_internal.py:4021-4028 | the handles printed on a strap line are read back |
| DtsStraps.RewriteStraps | bootloader/tegraflash_internal.py:3921-3926 | the line after all handles but the selected one have been replaced in order; raises exactly for a ramcode behind the list or a pattern that raises |
| DtsStraps.LineIsRewritten | bootloader/tegraflash_internal.py:3921-3926 | the line is rewritten word by word, for all handles of letters and digits |
| DtsStraps.StrapLineExactly | bootloader/tegraflash_internal.py:3921-3926 | for printed handles, exactly the selected one is left if and only if no handle that goes is in front of one that stays or goes later |
| DtsStraps.SelectedIsSpoilt | bootloader/tegraflash_internal.py:3921-3926 | a strap line on which the selected handle does not survive |
| DtsTrimRun.StrapsAreTrimmed | bootloader/tegraflash_internal.py:3921-4040 | reading and rewriting together: the line behind the first strap node is left with the selected handle alone exactly under that condition |
| DtsTrimRun.Trim | bootloader/tegraflash_internal.py:4080-4108 | the steps in sequence leave, of every structured source, the source of the chosen tables with the strap line rewritten; for any text they compile what the writing loop leaves, whole or not, and raise exactly if no straps or positions are found, a choice or a replacement raises, or the ramcode is behind the list |
| FlashIndex.ParseIndex | bootloader/tegraflash_internal.py:4932-4954 | the groups are the maximal runs of lines of one device instance, concatenate back to all lines, and the QSPI devices are exactly the groups of device 3; every device has one group exactly if its lines stand together; fails exactly for a malformed line |
| FlashIndex.LineIsRead | bootloader/tegraflash_internal.py:4941-4943 | the columns of a line that is written for a partition are read back |
| FlashIndex.ReadLineIs | bootloader/tegraflash_internal.py:4942-4943 | a line that is read has comma-separated columns, of which the second is, stripped, device:instance:name |
| FlashIndex.LineLikeThatIsRead | bootloader/tegraflash_internal.py:4942-4943 | every such line is read |
| FlashIndex.StripExactly | bootloader/tegraflash_internal.py:4942 | exactly white space at the ends of a column goes |
| FlashIndex.SameKeyExactly | bootloader/tegraflash_internal.py:4944-4945 | two lines have the same key exactly if device and instance are the same |
| FlashIndex.GroupsAreDevices | bootloader/tegraflash_internal.py:4944-4951 | the lines of a group are all for its device and instance, the next group is for another |
| FlashIndex.DistinctExactly | bootloader/tegraflash_internal.py:4941-4952 | no two groups are about one device if and only if all lines about each device stand together |
| FlashIndex.RepeatedDevice | bootloader/tegraflash_internal.py:4941-4952 | an index of three lines with two groups for one device |
| Qspi.SparseUpdate | bootloader/tegraflash_internal.py:3038-3076 | the device ends as the specification says and no other device changes, whether or not it succeeds: the lines are carried out in order up to the first that fails |
| Qspi.SparseInstalls | bootloader/tegraflash_internal.py:3048-3076 | with distinct names, every listed partition starts with its image or is erased, and no other partition changes |
| Qspi.SparseLeaves | bootloader/tegraflash_internal.py:3048-3076 | spelled out: an image stands in front of its partition, a partition without one is all 0xFF, secondary_gpt stays |
| Qspi.SparseExactly | bootloader/tegraflash_internal.py:3060-3071 | a partition that starts with its image is left alone; any other becomes the image and 0xFF behind it |
| Qspi.SucceedsExactly | bootloader/tegraflash_internal.py:3048-3076 | an update succeeds exactly if every line can be carried out on the device as it was at the start |
| Qspi.FailureLeaves | bootloader/tegraflash_internal.py:3048-3076 | a failed update has carried out all lines before one, none behind it, and of that one at most the erase, exactly if its image is too long |
| Qspi.SparseErasesBeforeWriting | bootloader/tegraflash_internal.py:3064-3071 | every write comes right after an erase of the same partition, also when the update fails |
| Qspi.SparseRefinesFull | bootloader/tegraflash_internal.py:3038-3076 | the sparse update succeeds on the same inputs as erasing and writing everything, and leaves the same image bytes, erased partitions and untouched partitions |
| Qspi.SecondUpdateIsIdle | bootloader/tegraflash_internal.py:3060-3062 | a second update right after the first writes nothing and changes no byte |
| FlashRun.FlashPartitions | bootloader/tegraflash_internal.py:3025-3034 | for every index: nothing happens if a line is malformed; otherwise the groups are handled in order, up to the first that fails, each on its own device as it then is: sparsely exactly for a QSPI device with an unchanged partition table, and without a QSPI device everything is flashed at once |
| FlashRun.FlashedAtOnce | bootloader/tegraflash_internal.py:3027-3034 | everything is flashed at once exactly if no line is for a device 3 |
| FlashRun.DevicesApart | bootloader/tegraflash_internal.py:3027-3032 | every device ends as its own groups leave it, in order, whatever is done to the others; only the device of the failing group has a failure |
| FlashRun.HandledOnce | bootloader/tegraflash_internal.py:3027-3032 | if every device has one group, each device is handled for that group and for no other |
| FlashRun.HandledTwice | bootloader/tegraflash_internal.py:3027-3032 | the device with two groups is handled twice, the second time as the first left it |
| FlashRun.HandledInstalls | bootloader/tegraflash_internal.py:3025-3076 | if plain flashing installs what is listed, so does handling a device either way |
| FlashRun.IndexIsInstalled | bootloader/tegraflash_internal.py:3025-3076 | after a successful run on an index whose lines for each device stand together, every device holds everything that is listed for it, handled as its content at the start decides |
| Framing.Int2Bytes | bootloader/tegrasign_v3_util.py:668-678 | the low n bytes of the value, least significant first |
| Framing.CountIsCut | bootloader/tegrasign_v3_util.py:683-691 | the count as Python 3 divides is this number, or a half more for an odd number of digits, which int() takes away |
| Framing.ByteCountIsMinimal | bootloader/tegrasign_v3_util.py:683-691 | the smallest number of bytes, at least one, that holds the value |
| Framing.ReadsBack | bootloader/tegrasign_v3_util.py:668-691 | a value written in that many bytes reads back |
| Framing.KdfList.PopTo | bootloader/tegrasign_v3_internal.py:1179-1180 | the list is cut to its first n items |
| Framing.KdfList.WriteRequest | bootloader/tegrasign_v3_internal.py:1194-1219 | the request file is the frame of parameters, list items and result name |
| Framing.RequestBytes | bootloader/tegrasign_v3_internal.py:1191-1219 | size word i of the file is the length of field i, and its bytes are the parameter (none for a missing one), the item, or the result name with its NUL |
| Framing.UnframeFrame | bootloader/tegrasign_v3_internal.py:1191-1219 | slicing by the little-endian size words returns every field, for all lengths below 2^32 |
| Framing.FrameIsInjective | bootloader/tegrasign_v3_internal.py:1191-1219 | equal requests of as many fields have equal fields |
| Framing.SlotFromEnd | bootloader/tegrasign_v3_internal.py:1232-1235 | the slot counted back from the end is the payload's exactly if what is subtracted is the length of all data behind the payload |
| Framing.KdfList.DoKdf | bootloader/tegrasign_v3_internal.py:1185-1242 | tag and payload of the list are replaced by what the program returned for exactly these fields; nothing else changes |
| Framing.KdfList.DoKdfOem | bootloader/tegrasign_v3_internal.py:1403-1461 | the same with the flag behind the payload |

## Left out

- The constants of Ed25519 themselves: that 2^255 - 19 is prime, that d is not a square, that the law is associative and that l is the order of the base point are hypotheses (`ValidScheme`).
- The kinds and texts of errors, and all printing.
- `__parse_string` is modelled with Python 3's UTF-8 decoding; Python 2 would decode ASCII only.
- `FdtNode.path`, `FdtNode.__str__`, and what the BPMPDTB rules of dtbcheck.py are (range checks on single properties); the model takes any rules.
- Fskp.Workspace.OemSignFskp: file names are the input's stem with "_encrypt" suffixes and an extension, so collisions with files of other stems (the two key files) are not modelled.
- Payloads of an FSKP image that are not whole AES blocks: what the external tool does with them is not visible.
- The derivation chain of `do_kdf_oem_hsm` before the encryption, and the request files of the single ciphers.
- BUP entry lists are modelled from the parsed tuples on; splitting the command line, version parsing and BMP payloads are left out.
- File output in extraction is a map from names to contents; permissions and IO errors are left out.
- Handles with characters that mean something in a regular expression: what `re.sub` does with them is a parameter.
- FlashRun.FlashPartitions: the comparison of partition tables and the plain flashing of a device are parameters, because both happen in external programs.
- `swapbytes`, `check_len_off`, `concat_file_4k`, version formatting: short helpers.
- Command lines, XML edits, key lookup, `rollback_parser.py`, `nvptparser.py`, `dtbdump.py`, `fdtmerge.py`.
