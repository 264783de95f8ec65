/** What the metablob guarantees: record i describes encrypted block i, and the buffer can be decrypted from it,
    exactly when the last block is not full. */
module MetablobTheorems {
  import opened Bytes
  import opened Sequences
  import opened Metablob

  function FinalBuffer(h: Hsm, s: seq<byte>, blockSize: nat, first: seq<byte>, aad: seq<byte>): seq<byte>
    requires blockSize > 0
  {
    BufferAfter(h, s, blockSize, first, aad, BlockCount(|s|, blockSize))
  }

  function FinalBlob(h: Hsm, s: seq<byte>, blockSize: nat, first: seq<byte>, aad: seq<byte>): seq<byte>
    requires blockSize > 0
  {
    BlobAfter(h, s, blockSize, first, aad, BlockCount(|s|, blockSize))
  }

  // --- blocks and records -----------------------------------------------------------------------------

  /** Bytes lo to hi of a buffer, as Python slices them. */
  function BlockOf(buffer: seq<byte>, blockSize: nat, i: nat): seq<byte> {
    PySlice(buffer, i * blockSize, i * blockSize + blockSize)
  }

  function RecordIv(blob: seq<byte>, i: nat): seq<byte> {
    PySlice(blob, RECORD_SIZE * (i + 1), RECORD_SIZE * (i + 1) + IV_SIZE)
  }

  function RecordTag(blob: seq<byte>, i: nat): seq<byte> {
    PySlice(blob, RECORD_SIZE * (i + 1) + IV_SIZE, RECORD_SIZE * (i + 1) + IV_SIZE + TAG_SIZE)
  }

  function RecordDigest(blob: seq<byte>, i: nat): seq<byte> {
    PySlice(blob, RECORD_SIZE * (i + 1) + IV_SIZE + TAG_SIZE, RECORD_SIZE * (i + 1) + RECORD_SIZE)
  }

  lemma {:induction false} BlockInBlocks(h: Hsm, s: seq<byte>, blockSize: nat, first: seq<byte>, aad: seq<byte>,
      n: nat, i: nat)
    requires ValidHsm(h) && blockSize > 0 && i < n <= BlockCount(|s|, blockSize)
    ensures var all := EncryptedBlocks(h, s, blockSize, first, aad, n);
            var lo, hi := i * blockSize, i * blockSize + BlockLength(|s|, blockSize, i);
            hi <= |all| && all[lo..hi] == EncryptedBlock(h, s, blockSize, first, aad, i)
    decreases n
  {
    hide ValidHsm, BlockCount, BlockLength, EncryptedBlock, EncryptedLength;
    BlocksLength(h, s, blockSize, first, aad, n - 1);
    StartOfBlock(|s|, blockSize, n - 1);
    BlockSize(h, s, blockSize, first, aad, n - 1);
    var before := EncryptedBlocks(h, s, blockSize, first, aad, n - 1);
    var enc := EncryptedBlock(h, s, blockSize, first, aad, n - 1);
    if i < n - 1 {
      BlockInBlocks(h, s, blockSize, first, aad, n - 1, i);
      SliceOfFront(before, enc, i * blockSize, i * blockSize + BlockLength(|s|, blockSize, i));
    } else {
      BackOf(before, enc);
    }
  }

  lemma BackOf(a: seq<byte>, b: seq<byte>)
    ensures (a + b)[|a|..|a| + |b|] == b
  {}

  lemma {:induction false} RecordInRecords(h: Hsm, s: seq<byte>, blockSize: nat, first: seq<byte>, aad: seq<byte>,
      n: nat, i: nat)
    requires ValidHsm(h) && blockSize > 0 && i < n <= BlockCount(|s|, blockSize)
    ensures |Record(h, s, blockSize, first, aad, i)| == RECORD_SIZE
    ensures var all, lo, hi := Records(h, s, blockSize, first, aad, n), RECORD_SIZE * i, RECORD_SIZE * i + RECORD_SIZE;
            hi <= |all| && all[lo..hi] == Record(h, s, blockSize, first, aad, i)
    decreases n
  {
    hide BlockCount, Record;
    RecordsLength(h, s, blockSize, first, aad, n - 1);
    RecordsLength(h, s, blockSize, first, aad, n);
    var before, last := Records(h, s, blockSize, first, aad, n - 1), Record(h, s, blockSize, first, aad, n - 1);
    if i < n - 1 {
      RecordInRecords(h, s, blockSize, first, aad, n - 1, i);
      SliceOfFront(before, last, RECORD_SIZE * i, RECORD_SIZE * i + RECORD_SIZE);
    } else {
      BackOf(before, last);
    }
  }

  lemma RecordInBlob(h: Hsm, s: seq<byte>, blockSize: nat, first: seq<byte>, aad: seq<byte>, i: nat)
    requires ValidHsm(h) && blockSize > 0 && i < BlockCount(|s|, blockSize)
    ensures var blob, at := FinalBlob(h, s, blockSize, first, aad), RECORD_SIZE * (i + 1);
            at + RECORD_SIZE <= |blob| && blob[at..at + RECORD_SIZE] == Record(h, s, blockSize, first, aad, i)
  {
    hide BlockCount, Record, Slack, Records;
    var n := BlockCount(|s|, blockSize);
    RecordInRecords(h, s, blockSize, first, aad, n, i);
    RecordsLength(h, s, blockSize, first, aad, n);
    SliceOfMiddle(BlobHead(n), Records(h, s, blockSize, first, aad, n), Slack(n, first, n), RECORD_SIZE * i,
                  RECORD_SIZE);
  }

  lemma TagLength(h: Hsm, s: seq<byte>, iv: seq<byte>, aad: seq<byte>)
    requires ValidHsm(h)
    ensures |h.tag(s, iv, aad)| == TAG_SIZE && forall x :: |h.sha512(x)| == DIGEST_SIZE
  {}

  lemma PartsOfRecord(blob: seq<byte>, i: nat, iv: seq<byte>, tag: seq<byte>, digest: seq<byte>)
    requires |iv| == IV_SIZE && |tag| == TAG_SIZE && |digest| == DIGEST_SIZE
    requires var at := RECORD_SIZE * (i + 1);
             at + RECORD_SIZE <= |blob| && blob[at..at + RECORD_SIZE] == iv + tag + digest
    ensures RecordIv(blob, i) == iv && RecordTag(blob, i) == tag && RecordDigest(blob, i) == digest
  {
    var at := RECORD_SIZE * (i + 1);
    var r := blob[at..at + RECORD_SIZE];
    assert RecordIv(blob, i) == r[..12] && RecordTag(blob, i) == r[12..28] && RecordDigest(blob, i) == r[28..92];
    assert r[..12] == iv && r[12..28] == tag && r[28..92] == digest;
  }

  lemma BlockInBuffer(h: Hsm, s: seq<byte>, blockSize: nat, first: seq<byte>, aad: seq<byte>, i: nat)
    requires ValidHsm(h) && blockSize > 0 && i < BlockCount(|s|, blockSize)
    ensures var buffer := FinalBuffer(h, s, blockSize, first, aad);
            var lo, hi := i * blockSize, i * blockSize + BlockLength(|s|, blockSize, i);
            hi <= |buffer| && buffer[lo..hi] == EncryptedBlock(h, s, blockSize, first, aad, i)
  {
    hide BlockCount, BlockLength, EncryptedBlock, EncryptedBlocks, EncryptedLength;
    var n := BlockCount(|s|, blockSize);
    BlockInBlocks(h, s, blockSize, first, aad, n, i);
    SliceOfFront(EncryptedBlocks(h, s, blockSize, first, aad, n), s[EncryptedLength(|s|, blockSize, n)..],
            i * blockSize, i * blockSize + BlockLength(|s|, blockSize, i));
  }

  /** Record i of the finished blob holds the vector, the tag and the digest of encrypted block i, and block i of
      the finished buffer is that block. */
  lemma RecordMatchesBlock(h: Hsm, s: seq<byte>, blockSize: nat, first: seq<byte>, aad: seq<byte>, i: nat)
    requires ValidHsm(h) && blockSize > 0 && i < BlockCount(|s|, blockSize)
    ensures var buffer, blob := FinalBuffer(h, s, blockSize, first, aad), FinalBlob(h, s, blockSize, first, aad);
            var lo, hi := i * blockSize, i * blockSize + BlockLength(|s|, blockSize, i);
            var iv := IvOf(h, first, i);
            && hi <= |buffer| && buffer[lo..hi] == h.encrypt(BlockAt(s, blockSize, i), iv, aad)
            && RecordIv(blob, i) == Stored(iv)
            && RecordTag(blob, i) == h.tag(BlockAt(s, blockSize, i), iv, aad)
            && RecordDigest(blob, i) == h.sha512(buffer[lo..hi])
  {
    hide ValidHsm, BlockCount, BlockLength, FinalBlob, FinalBuffer, BlockAt, Stored, IvOf;
    hide RecordIv, RecordTag, RecordDigest;
    BlockInBuffer(h, s, blockSize, first, aad, i);
    PartsInBlob(h, s, blockSize, first, aad, i);
  }

  lemma PartsInBlob(h: Hsm, s: seq<byte>, blockSize: nat, first: seq<byte>, aad: seq<byte>, i: nat)
    requires ValidHsm(h) && blockSize > 0 && i < BlockCount(|s|, blockSize)
    ensures var blob, iv := FinalBlob(h, s, blockSize, first, aad), IvOf(h, first, i);
            && RecordIv(blob, i) == Stored(iv)
            && RecordTag(blob, i) == h.tag(BlockAt(s, blockSize, i), iv, aad)
            && RecordDigest(blob, i) == h.sha512(EncryptedBlock(h, s, blockSize, first, aad, i))
  {
    TagLength(h, BlockAt(s, blockSize, i), IvOf(h, first, i), aad);
    hide ValidHsm, BlockCount, FinalBlob, BlockAt, Stored, RecordIv, RecordTag, RecordDigest, IvOf, EncryptedBlock;
    RecordInBlob(h, s, blockSize, first, aad, i);
    PartsOfRecord(FinalBlob(h, s, blockSize, first, aad), i, Stored(IvOf(h, first, i)),
                  h.tag(BlockAt(s, blockSize, i), IvOf(h, first, i), aad),
                  h.sha512(EncryptedBlock(h, s, blockSize, first, aad, i)));
  }

  /** There are as many blocks as it takes to cover the buffer. */
  lemma CountCovers(s: seq<byte>, blockSize: nat)
    requires blockSize > 0 && s != []
    ensures var n := BlockCount(|s|, blockSize); n > 0 && (n - 1) * blockSize < |s| <= n * blockSize
  {
    var q, r := |s| / blockSize, |s| % blockSize;
    QuotientAndRest(|s|, blockSize);
    if r != 0 { TimesNext(q, blockSize); } else { TimesNext(q - 1, blockSize); }
  }

  /** The first block is encrypted under the vector that was given. */
  lemma FirstVector(h: Hsm, s: seq<byte>, blockSize: nat, first: seq<byte>, aad: seq<byte>)
    requires ValidHsm(h) && blockSize > 0 && s != []
    ensures var buffer, blob := FinalBuffer(h, s, blockSize, first, aad), FinalBlob(h, s, blockSize, first, aad);
            var hi := if BlockCount(|s|, blockSize) == 1 then |s| % blockSize else blockSize;
            && hi <= |s| == |buffer| && buffer[..hi] == h.encrypt(s[..hi], first, aad)
            && (|first| == 12 ==> PySlice(blob, 92, 104) == first)
            && PySlice(blob, 104, 120) == h.tag(s[..hi], first, aad)
            && PySlice(blob, 120, 184) == h.sha512(buffer[..hi])
  {
    CountIsPositive(s, blockSize);
    FinalLength(h, s, blockSize, first, aad);
    BlockBounds(|s|, blockSize, 0);
    hide ValidHsm, BlockCount, FinalBlob, FinalBuffer, RecordIv, RecordTag, RecordDigest, PySlice;
    PartsAreAt(FinalBlob(h, s, blockSize, first, aad), 0);
    RecordMatchesBlock(h, s, blockSize, first, aad, 0);
    var hi := BlockLength(|s|, blockSize, 0);
    var buffer := FinalBuffer(h, s, blockSize, first, aad);
    assert s[0..hi] == s[..hi] && buffer[0..hi] == buffer[..hi];
  }

  /** Every later block is encrypted, and recorded, under a random string of its own: block i under number i - 1. */
  lemma LaterVectors(h: Hsm, s: seq<byte>, blockSize: nat, first: seq<byte>, aad: seq<byte>, i: nat)
    requires ValidHsm(h) && blockSize > 0 && 0 < i < BlockCount(|s|, blockSize)
    ensures var buffer, blob := FinalBuffer(h, s, blockSize, first, aad), FinalBlob(h, s, blockSize, first, aad);
            var n := BlockCount(|s|, blockSize);
            var lo, random := i * blockSize, RandomStrings(h, 12, n - 1);
            var hi := lo + if i + 1 == n then |s| % blockSize else blockSize;
            && 12 * i <= |random| && random[12 * (i - 1)..12 * i] == h.random(i - 1, 12)
            && hi <= |s| == |buffer| && buffer[lo..hi] == h.encrypt(s[lo..hi], h.random(i - 1, 12), aad)
            && PySlice(blob, 92 * i + 92, 92 * i + 104) == h.random(i - 1, 12)
            && PySlice(blob, 92 * i + 104, 92 * i + 120) == h.tag(s[lo..hi], h.random(i - 1, 12), aad)
            && PySlice(blob, 92 * i + 120, 92 * i + 184) == h.sha512(buffer[lo..hi])
  {
    hide ValidHsm, BlockCount, FinalBlob, FinalBuffer, RecordIv, RecordTag, RecordDigest, RandomStrings, BlockLength;
    hide BlockAt, PySlice;
    PartsAreAt(FinalBlob(h, s, blockSize, first, aad), i);
    RandomSlice(h, BlockCount(|s|, blockSize), i);
    SliceOfBlockAt(s, blockSize, i);
    FinalLength(h, s, blockSize, first, aad);
    RecordMatchesBlock(h, s, blockSize, first, aad, i);
  }

  /** Where the parts of record i are. */
  lemma PartsAreAt(blob: seq<byte>, i: nat)
    ensures RecordIv(blob, i) == PySlice(blob, 92 * i + 92, 92 * i + 104)
    ensures RecordTag(blob, i) == PySlice(blob, 92 * i + 104, 92 * i + 120)
    ensures RecordDigest(blob, i) == PySlice(blob, 92 * i + 120, 92 * i + 184)
  {}

  lemma RandomSlice(h: Hsm, n: nat, i: nat)
    requires ValidHsm(h) && 0 < i < n
    ensures var random := RandomStrings(h, 12, n - 1);
            && 12 * i <= |random| && random[12 * (i - 1)..12 * i] == h.random(i - 1, 12)
            && |h.random(i - 1, 12)| == 12
  {
    RandomStringAt(h, 12, n - 1, i - 1);
    RandomSize(h, i - 1, 12);
  }

  lemma SliceOfBlockAt(s: seq<byte>, blockSize: nat, i: nat)
    requires blockSize > 0 && i < BlockCount(|s|, blockSize)
    ensures s != []
    ensures var lo := i * blockSize;
            var hi := lo + if i + 1 == BlockCount(|s|, blockSize) then |s| % blockSize else blockSize;
            hi <= |s| && BlockAt(s, blockSize, i) == s[lo..hi] && hi == lo + BlockLength(|s|, blockSize, i)
  {
    NotEmpty(s, blockSize, i);
    BlockBounds(|s|, blockSize, i);
    hide BlockCount;
  }

  /** If the given vector and the random strings are all different, no vector is used twice. */
  lemma VectorsAreDistinct(h: Hsm, s: seq<byte>, blockSize: nat, first: seq<byte>, aad: seq<byte>, i: nat, j: nat)
    requires ValidHsm(h) && blockSize > 0 && |first| == 12 && i < j < BlockCount(|s|, blockSize)
    requires forall k: nat :: k + 1 < BlockCount(|s|, blockSize) ==> h.random(k, 12) != first
    requires forall k: nat, l: nat :: k < l && l + 1 < BlockCount(|s|, blockSize) ==> h.random(k, 12) != h.random(l, 12)
    ensures var blob := FinalBlob(h, s, blockSize, first, aad);
            PySlice(blob, 92 * i + 92, 92 * i + 104) != PySlice(blob, 92 * j + 92, 92 * j + 104)
  {
    hide BlockCount, FinalBlob, FinalBuffer, RandomStrings, PySlice;
    NotEmpty(s, blockSize, j);
    LaterVectors(h, s, blockSize, first, aad, j);
    if i > 0 { LaterVectors(h, s, blockSize, first, aad, i); } else { FirstVector(h, s, blockSize, first, aad); }
  }

  lemma NotEmpty(s: seq<byte>, blockSize: nat, i: nat)
    requires blockSize > 0 && i < BlockCount(|s|, blockSize)
    ensures s != []
  {
    if s == [] { QuotientAndRest(0, blockSize); }
  }

  /** The blob keeps its size unless the first vector is too long, and the record holds it unchanged exactly if it
      has twelve bytes. */
  lemma BlobKeepsSize(h: Hsm, s: seq<byte>, blockSize: nat, first: seq<byte>, aad: seq<byte>)
    requires ValidHsm(h) && blockSize > 0 && s != []
    ensures var n := BlockCount(|s|, blockSize);
            && (|FinalBlob(h, s, blockSize, first, aad)| == RECORD_SIZE * (n + 1) <==> |first| <= IV_SIZE)
            && (Stored(IvOf(h, first, 0)) == first <==> |first| == IV_SIZE)
  {
    CountIsPositive(s, blockSize);
    var n := BlockCount(|s|, blockSize);
    RecordsLength(h, s, blockSize, first, aad, n);
    hide BlockCount, Records;
  }

  /** The encryption covers the whole buffer exactly if the last block is not full; otherwise the last block stays
      as it was. */
  lemma LastBlockIsEncrypted(h: Hsm, s: seq<byte>, blockSize: nat, first: seq<byte>, aad: seq<byte>)
    requires ValidHsm(h) && blockSize > 0 && s != []
    ensures var n := BlockCount(|s|, blockSize);
            && |FinalBuffer(h, s, blockSize, first, aad)| == |s|
            && (|s| % blockSize != 0
                <==> FinalBuffer(h, s, blockSize, first, aad) == EncryptedBlocks(h, s, blockSize, first, aad, n))
            && (|s| % blockSize == 0 ==>
                  && blockSize <= |s|
                  && FinalBuffer(h, s, blockSize, first, aad)[|s| - blockSize..] == s[|s| - blockSize..])
  {
    CountIsPositive(s, blockSize);
    var n := BlockCount(|s|, blockSize);
    BlocksLength(h, s, blockSize, first, aad, n);
    StartOfBlock(|s|, blockSize, n - 1);
    BlockBounds(|s|, blockSize, n - 1);
    LastLength(|s|, blockSize);
    hide BlockCount, EncryptedBlocks, EncryptedLength;
  }

  lemma LastLength(length: nat, blockSize: nat)
    requires blockSize > 0 && length > 0
    ensures var n := BlockCount(length, blockSize);
            n > 0 && BlockLength(length, blockSize, n - 1) == length % blockSize
  {
    QuotientAndRest(length, blockSize);
  }

  // --- decrypting from the blob -----------------------------------------------------------------------

  /** Blocks i to n - 1, each checked against its record and decrypted with what the record holds. */
  function OpenFrom(h: Hsm, data: seq<byte>, blob: seq<byte>, blockSize: nat, aad: seq<byte>, i: nat,
      n: nat): Option<seq<byte>>
    decreases n - i
  {
    if i >= n then Some([])
    else if h.sha512(BlockOf(data, blockSize, i)) != RecordDigest(blob, i) then None
    else
      var plain := h.decrypt(BlockOf(data, blockSize, i), RecordIv(blob, i), aad, RecordTag(blob, i));
      var rest := OpenFrom(h, data, blob, blockSize, aad, i + 1, n);
      if plain.None? || rest.None? then None else Some(plain.value + rest.value)
  }

  /** The count comes from the head of the blob. */
  function Open(h: Hsm, data: seq<byte>, blob: seq<byte>, blockSize: nat, aad: seq<byte>): Option<seq<byte>> {
    OpenFrom(h, data, blob, blockSize, aad, 0, ReadLE(PySlice(blob, 0, 4)))
  }

  /** Block i opens to what it was. */
  lemma BlockOpens(h: Hsm, s: seq<byte>, blockSize: nat, first: seq<byte>, aad: seq<byte>, i: nat)
    requires ValidHsm(h) && blockSize > 0 && i < BlockCount(|s|, blockSize)
    requires |s| % blockSize != 0 && |first| == IV_SIZE
    ensures var buffer, blob := FinalBuffer(h, s, blockSize, first, aad), FinalBlob(h, s, blockSize, first, aad);
            && h.sha512(BlockOf(buffer, blockSize, i)) == RecordDigest(blob, i)
            && h.decrypt(BlockOf(buffer, blockSize, i), RecordIv(blob, i), aad, RecordTag(blob, i))
               == Some(BlockAt(s, blockSize, i))
  {
    hide ValidHsm, BlockAt, BlockOf, Stored, FinalBuffer, FinalBlob, IvOf, EncryptedBlock;
    hide RecordIv, RecordTag, RecordDigest;
    RecordMatchesBlock(h, s, blockSize, first, aad, i);
    WholeBlock(h, s, blockSize, first, aad, i);
    VectorLength(h, first, i);
    Decrypts(h, BlockAt(s, blockSize, i), IvOf(h, first, i), aad);
  }

  /** Slicing a whole block, or what there is of it, takes what was encrypted. */
  lemma WholeBlock(h: Hsm, s: seq<byte>, blockSize: nat, first: seq<byte>, aad: seq<byte>, i: nat)
    requires ValidHsm(h) && blockSize > 0 && i < BlockCount(|s|, blockSize) && |s| % blockSize != 0
    ensures var buffer := FinalBuffer(h, s, blockSize, first, aad);
            var lo, hi := i * blockSize, i * blockSize + BlockLength(|s|, blockSize, i);
            hi <= |buffer| && BlockOf(buffer, blockSize, i) == buffer[lo..hi]
  {
    hide ValidHsm, BlockCount, FinalBuffer, BlockLength, BlockOf;
    FinalLength(h, s, blockSize, first, aad);
    EndOfBlock(|s|, blockSize, i);
    SliceOfBlock(FinalBuffer(h, s, blockSize, first, aad), blockSize, i, BlockLength(|s|, blockSize, i));
  }

  lemma FinalLength(h: Hsm, s: seq<byte>, blockSize: nat, first: seq<byte>, aad: seq<byte>)
    requires ValidHsm(h) && blockSize > 0 && s != []
    ensures |FinalBuffer(h, s, blockSize, first, aad)| == |s|
  {
    hide ValidHsm, FinalBuffer, BlockCount;
    LastBlockIsEncrypted(h, s, blockSize, first, aad);
  }

  lemma EndOfBlock(length: nat, blockSize: nat, i: nat)
    requires blockSize > 0 && i < BlockCount(length, blockSize) && length % blockSize != 0
    ensures var size := BlockLength(length, blockSize, i);
            size <= blockSize && i * blockSize + size <= length && (size == blockSize || i * blockSize + size == length)
  {
    BlockBounds(length, blockSize, i);
    hide BlockCount;
  }

  lemma SliceOfBlock(buffer: seq<byte>, blockSize: nat, i: nat, size: nat)
    requires size <= blockSize && i * blockSize + size <= |buffer|
    requires size == blockSize || i * blockSize + size == |buffer|
    ensures BlockOf(buffer, blockSize, i) == buffer[i * blockSize..i * blockSize + size]
  {}

  lemma VectorLength(h: Hsm, first: seq<byte>, i: nat)
    requires ValidHsm(h) && |first| == IV_SIZE
    ensures |IvOf(h, first, i)| == IV_SIZE && Stored(IvOf(h, first, i)) == IvOf(h, first, i)
  {}

  lemma Decrypts(h: Hsm, s: seq<byte>, iv: seq<byte>, aad: seq<byte>)
    requires ValidHsm(h)
    ensures h.decrypt(h.encrypt(s, iv, aad), iv, aad, h.tag(s, iv, aad)) == Some(s)
  {}

  lemma {:induction false} OpenRest(h: Hsm, s: seq<byte>, blockSize: nat, first: seq<byte>, aad: seq<byte>, i: nat)
    requires ValidHsm(h) && blockSize > 0 && |s| % blockSize != 0 && |first| == IV_SIZE
    requires i < BlockCount(|s|, blockSize)
    ensures i * blockSize <= |s|
    ensures OpenFrom(h, FinalBuffer(h, s, blockSize, first, aad), FinalBlob(h, s, blockSize, first, aad), blockSize,
                     aad, i,
                     BlockCount(|s|, blockSize)) == Some(s[i * blockSize..])
    decreases BlockCount(|s|, blockSize) - i
  {
    BlockBounds(|s|, blockSize, i);
    BlockOpens(h, s, blockSize, first, aad, i);
    RestOfBlocks(s, blockSize, i);
    hide ValidHsm, BlockCount, FinalBuffer, FinalBlob, BlockAt, RecordIv, RecordTag, RecordDigest, BlockOf, BlockLength;
    if i + 1 < BlockCount(|s|, blockSize) {
      OpenRest(h, s, blockSize, first, aad, i + 1);
    }
  }

  lemma RestOfBlocks(s: seq<byte>, blockSize: nat, i: nat)
    requires blockSize > 0 && |s| % blockSize != 0 && i < BlockCount(|s|, blockSize)
    ensures i * blockSize <= |s|
    ensures if i + 1 < BlockCount(|s|, blockSize)
            then (i + 1) * blockSize <= |s| && s[i * blockSize..] == BlockAt(s, blockSize, i) + s[(i + 1) * blockSize..]
            else s[i * blockSize..] == BlockAt(s, blockSize, i) + []
  {
    BlockBounds(|s|, blockSize, i);
    hide BlockCount, BlockLength;
  }

  /** The round trip: from the buffer and the blob alone, block by block, the original comes back. */
  lemma OpenUndoesEncrypt(h: Hsm, s: seq<byte>, blockSize: nat, first: seq<byte>, aad: seq<byte>)
    requires ValidHsm(h) && blockSize > 0 && |s| % blockSize != 0 && |first| == IV_SIZE
    requires BlockCount(|s|, blockSize) < U32_LIMIT
    ensures var buffer, blob := FinalBuffer(h, s, blockSize, first, aad), FinalBlob(h, s, blockSize, first, aad);
            Open(h, buffer, blob, blockSize, aad) == Some(s)
  {
    CountIsPositive(s, blockSize);
    OpenRest(h, s, blockSize, first, aad, 0);
    HeadHoldsCount(h, s, blockSize, first, aad);
    hide ValidHsm, BlockCount, FinalBuffer, FinalBlob, OpenFrom, ReadLE;
    assert s[0 * blockSize..] == s;
  }

  lemma HeadHoldsCount(h: Hsm, s: seq<byte>, blockSize: nat, first: seq<byte>, aad: seq<byte>)
    requires blockSize > 0 && BlockCount(|s|, blockSize) < U32_LIMIT
    ensures ReadLE(PySlice(FinalBlob(h, s, blockSize, first, aad), 0, 4)) == BlockCount(|s|, blockSize)
  {
    var n := BlockCount(|s|, blockSize);
    WordFits(n);
    hide BlockCount, PackLE, ReadLE, Records, Slack;
    assert PySlice(FinalBlob(h, s, blockSize, first, aad), 0, 4) == PackLE(n, 4);
  }
}
