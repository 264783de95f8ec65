/** Block-wise encryption with a metablob: `do_kdf_oem_hsm` once its key has been derived. */
module Metablob {
  import opened Bytes
  import opened Sequences

  const IV_SIZE := 12
  const TAG_SIZE := 16
  const DIGEST_SIZE := 64
  const RECORD_SIZE := 92

  /** AES-GCM under the derived key, SHA-512 and the random generator. */
  datatype Hsm = Hsm(
    encrypt: (seq<byte>, seq<byte>, seq<byte>) -> seq<byte>,
    tag: (seq<byte>, seq<byte>, seq<byte>) -> seq<byte>,
    decrypt: (seq<byte>, seq<byte>, seq<byte>, seq<byte>) -> Option<seq<byte>>,
    sha512: seq<byte> -> seq<byte>,
    random: (nat, nat) -> seq<byte>)

  ghost predicate ValidHsm(h: Hsm) {
    && (forall s, iv, aad :: |h.encrypt(s, iv, aad)| == |s|)
    && (forall s, iv, aad :: |h.tag(s, iv, aad)| == TAG_SIZE)
    && (forall s, iv, aad :: h.decrypt(h.encrypt(s, iv, aad), iv, aad, h.tag(s, iv, aad)) == Some(s))
    && (forall s :: |h.sha512(s)| == DIGEST_SIZE)
    && (forall i, n :: |h.random(i, n)| == n)
  }

  /** The assumptions on the module can be met. */
  lemma HsmExists() returns (h: Hsm)
    ensures ValidHsm(h)
  {
    h := Hsm((s, iv, aad) => s, (s, iv, aad) => Zeroed(16), (s, iv, aad, t) => Some(s), s => Zeroed(64),
             (i, n) => Zeroed(n));
  }

  // --- random strings ---------------------------------------------------------------------------------

  /** The first `count` random strings, one after the other. */
  function RandomStrings(h: Hsm, size: nat, count: nat): seq<byte> {
    if count == 0 then [] else RandomStrings(h, size, count - 1) + h.random(count - 1, size)
  }

  lemma {:induction false} RandomStringAt(h: Hsm, size: nat, count: nat, i: nat)
    requires ValidHsm(h) && i < count
    ensures |RandomStrings(h, size, count)| == count * size && i * size + size <= count * size
    ensures RandomStrings(h, size, count)[i * size..i * size + size] == h.random(i, size)
    decreases count
  {
    RandomLength(h, size, count - 1);
    RandomLength(h, size, count);
    var start, total, before := i * size, (count - 1) * size, RandomStrings(h, size, count - 1);
    TimesNext(count - 1, size);
    RandomSize(h, count - 1, size);
    hide ValidHsm;
    if i < count - 1 {
      RandomStringAt(h, size, count - 1, i);
      assert (before + h.random(count - 1, size))[start..start + size] == before[start..start + size];
    }
  }

  lemma {:induction false} RandomLength(h: Hsm, size: nat, count: nat)
    requires ValidHsm(h)
    ensures |RandomStrings(h, size, count)| == count * size
    decreases count
  {
    if count > 0 {
      RandomLength(h, size, count - 1);
      assert count * size == (count - 1) * size + size;
    }
  }

  // --- blocks -----------------------------------------------------------------------------------------

  function BlockCount(length: nat, blockSize: nat): nat
    requires blockSize > 0
  {
    length / blockSize + if length % blockSize != 0 then 1 else 0
  }

  /** How much of block i is encrypted: nothing of the last one when the length is a multiple of the block size. */
  function BlockLength(length: nat, blockSize: nat, i: nat): nat
    requires blockSize > 0
  {
    if i + 1 == BlockCount(length, blockSize) then length % blockSize else blockSize
  }

  lemma BlockBounds(length: nat, blockSize: nat, i: nat)
    requires blockSize > 0 && i < BlockCount(length, blockSize)
    ensures i * blockSize + BlockLength(length, blockSize, i) <= length
    ensures i + 1 < BlockCount(length, blockSize) ==>
              (i + 1) * blockSize == i * blockSize + BlockLength(length, blockSize, i)
    ensures i + 1 == BlockCount(length, blockSize) && length % blockSize != 0 ==>
              i * blockSize + BlockLength(length, blockSize, i) == length
    ensures i + 1 == BlockCount(length, blockSize) && length % blockSize == 0 ==> i * blockSize + blockSize == length
  {
    var q, r := length / blockSize, length % blockSize;
    QuotientAndRest(length, blockSize);
    TimesNext(i, blockSize);
    if i + 1 < BlockCount(length, blockSize) {
      TimesGrows(i + 1, q, blockSize);
    }
  }

  lemma QuotientAndRest(n: nat, b: nat)
    requires b > 0
    ensures n == n / b * b + n % b
  {}

  lemma TimesNext(i: nat, b: nat)
    ensures (i + 1) * b == i * b + b
  {}

  lemma TimesGrows(i: nat, q: nat, b: nat)
    requires i <= q
    ensures i * b <= q * b
  {
    assert (q - i) * b >= 0;
  }

  /** The plaintext that goes into the cipher for block i. */
  function BlockAt(s: seq<byte>, blockSize: nat, i: nat): seq<byte>
    requires blockSize > 0 && i < BlockCount(|s|, blockSize)
  {
    BlockBounds(|s|, blockSize, i);
    s[i * blockSize..i * blockSize + BlockLength(|s|, blockSize, i)]
  }

  /** The initial vector of block i. */
  function IvOf(h: Hsm, first: seq<byte>, i: nat): seq<byte> {
    if i == 0 then first else h.random(i - 1, IV_SIZE)
  }

  function EncryptedBlock(h: Hsm, s: seq<byte>, blockSize: nat, first: seq<byte>, aad: seq<byte>, i: nat): seq<byte>
    requires blockSize > 0 && i < BlockCount(|s|, blockSize)
  {
    h.encrypt(BlockAt(s, blockSize, i), IvOf(h, first, i), aad)
  }

  /** A vector as a record holds it: cut or padded to twelve bytes. */
  function Stored(iv: seq<byte>): (r: seq<byte>)
    ensures |r| == IV_SIZE
    ensures r == iv <==> |iv| == IV_SIZE
  {
    if |iv| >= IV_SIZE then iv[..IV_SIZE] else iv + Zeroed(IV_SIZE - |iv|)
  }

  function Record(h: Hsm, s: seq<byte>, blockSize: nat, first: seq<byte>, aad: seq<byte>, i: nat): seq<byte>
    requires blockSize > 0 && i < BlockCount(|s|, blockSize)
  {
    Stored(IvOf(h, first, i)) + h.tag(BlockAt(s, blockSize, i), IvOf(h, first, i), aad)
    + h.sha512(EncryptedBlock(h, s, blockSize, first, aad, i))
  }

  function EncryptedBlocks(h: Hsm, s: seq<byte>, blockSize: nat, first: seq<byte>, aad: seq<byte>, n: nat): seq<byte>
    requires blockSize > 0 && n <= BlockCount(|s|, blockSize)
  {
    if n == 0 then [] else
      EncryptedBlocks(h, s, blockSize, first, aad, n - 1) + EncryptedBlock(h, s, blockSize, first, aad, n - 1)
  }

  function Records(h: Hsm, s: seq<byte>, blockSize: nat, first: seq<byte>, aad: seq<byte>, n: nat): seq<byte>
    requires blockSize > 0 && n <= BlockCount(|s|, blockSize)
  {
    if n == 0 then [] else Records(h, s, blockSize, first, aad, n - 1) + Record(h, s, blockSize, first, aad, n - 1)
  }

  /** What is behind the records after i of n blocks: zeros, and what a long first vector pushes there. */
  function Slack(n: nat, first: seq<byte>, i: nat): seq<byte>
    requires i <= n
  {
    if i == 0 then Zeroed(RECORD_SIZE * n) else Drop(first + Zeroed(RECORD_SIZE * n - IV_SIZE), RECORD_SIZE * i)
  }

  function BlobHead(n: nat): (r: seq<byte>)
    ensures |r| == RECORD_SIZE
  {
    PackLE(n, 4) + Zeroed(RECORD_SIZE - 4)
  }

  function BlobAfter(h: Hsm, s: seq<byte>, blockSize: nat, first: seq<byte>, aad: seq<byte>, i: nat): seq<byte>
    requires blockSize > 0 && i <= BlockCount(|s|, blockSize)
  {
    var n := BlockCount(|s|, blockSize);
    BlobHead(n) + Records(h, s, blockSize, first, aad, i) + Slack(n, first, i)
  }

  // --- the key object ---------------------------------------------------------------------------------

  class SignKey {
    const hsm: Hsm
    const blockSize: nat
    const aad: seq<byte>
    var srcBuf: seq<byte>
    var len: nat
    var iv: seq<byte>
    var tag: seq<byte>
    var ranBuf: seq<byte>

    constructor (hsm: Hsm, blockSize: nat, aad: seq<byte>, srcBuf: seq<byte>, iv: seq<byte>, tag: seq<byte>)
      ensures this.hsm == hsm && this.blockSize == blockSize && this.aad == aad
      ensures this.srcBuf == srcBuf && this.iv == iv && this.tag == tag
    {
      this.hsm, this.blockSize, this.aad := hsm, blockSize, aad;
      this.srcBuf, this.iv, this.tag, this.len, this.ranBuf := srcBuf, iv, tag, 0, [];
    }

    /** do_random_hsm; a negative count raises. */
    method DoRandom(size: nat, count: int) returns (ok: bool)
      requires ValidHsm(hsm) && size > 0
      modifies `ranBuf
      ensures ok <==> count >= 0
      ensures ok && count >= 0 ==> ranBuf == RandomStrings(hsm, size, count)
    {
      hide ValidHsm, Patched, Filled;
      SignOfProduct(size, count);
      if size * count < 0 { return false; }
      ranBuf := Zeroed(size * count);
      FilledEnds(hsm, size, count);
      for i := 0 to count
        invariant ranBuf == Filled(hsm, size, count, i)
      {
        var buf := hsm.random(i, size);
        AddRandom(hsm, size, count, i);
        ranBuf := Patched(ranBuf, i * size, i * size + size, buf);
      }
      ok := true;
    }

    /** do_aes_gcm_hsm, encrypting */
    method DoAesGcm(buf: seq<byte>) returns (r: seq<byte>)
      modifies `tag
      ensures r == hsm.encrypt(buf, iv, aad) && tag == hsm.tag(buf, iv, aad)
    {
      r := hsm.encrypt(buf, iv, aad);
      tag := hsm.tag(buf, iv, aad);
    }

    /** One record: the vector, the tag and the digest are written at fixed positions. */
    method WriteRecord(blob: seq<byte>, start: nat, digest: seq<byte>) returns (r: seq<byte>)
      ensures r == WithRecord(blob, start, iv, tag, digest)
    {
      r := Patched(blob, start, start + IV_SIZE, iv);
      r := Patched(r, start + IV_SIZE, start + IV_SIZE + TAG_SIZE, tag);
      r := Patched(r, start + IV_SIZE + TAG_SIZE, start + RECORD_SIZE, digest);
    }

    /** One iteration: block i is encrypted in place and its record written. */
    method EncryptBlock(blob: seq<byte>, i: nat, blkCnt: nat, lastBlkLen: nat, ghost s: seq<byte>,
        ghost first: seq<byte>)
      returns (r: seq<byte>)
      requires ValidHsm(hsm) && blockSize > 0
      requires i < blkCnt == BlockCount(|s|, blockSize) && lastBlkLen == |s| % blockSize
      requires iv == IvOf(hsm, first, i) && ranBuf == RandomStrings(hsm, IV_SIZE, blkCnt - 1)
      requires srcBuf == BufferAfter(hsm, s, blockSize, first, aad, i)
      requires blob == BlobAfter(hsm, s, blockSize, first, aad, i)
      modifies `srcBuf, `len, `iv, `tag
      ensures srcBuf == BufferAfter(hsm, s, blockSize, first, aad, i + 1)
      ensures r == BlobAfter(hsm, s, blockSize, first, aad, i + 1)
      ensures i + 1 < blkCnt ==> iv == IvOf(hsm, first, i + 1)
    {
      hide ValidHsm, BlockCount, Patched, BufferAfter, BlobAfter, WithRecord, RandomStrings, BlockAt;
      len := if i + 1 == blkCnt then lastBlkLen else blockSize;
      var start := i * blockSize;
      var end := start + len;
      StepBlock(hsm, s, blockSize, first, aad, i);
      var enc := DoAesGcm(srcBuf[start..end]);
      srcBuf := Patched(srcBuf, start, end, enc);
      var digest := hsm.sha512(srcBuf[start..end]);
      StepBlob(hsm, s, blockSize, first, aad, i);
      r := WriteRecord(blob, (i + 1) * RECORD_SIZE, digest);
      NextVector(hsm, blkCnt - 1, i);
      iv := PySlice(ranBuf, i * IV_SIZE, i * IV_SIZE + IV_SIZE);
    }

    /** The part of do_kdf_oem_hsm that follows the key derivation. */
    method EncryptBuffer() returns (ok: bool)
      requires ValidHsm(hsm)
      modifies this
      ensures ok <==> blockSize == 0 || old(srcBuf) != []
      ensures blockSize == 0 ==>
                srcBuf == hsm.encrypt(old(srcBuf), old(iv), aad) && tag == hsm.tag(old(srcBuf), old(iv), aad)
      ensures ok && blockSize > 0 ==>
                var n := BlockCount(|old(srcBuf)|, blockSize);
                && srcBuf == BufferAfter(hsm, old(srcBuf), blockSize, old(iv), aad, n)
                && tag == BlobAfter(hsm, old(srcBuf), blockSize, old(iv), aad, n)
    {
      hide ValidHsm, BlockCount, Patched, BufferAfter, BlobAfter, RandomStrings;
      len := |srcBuf|;
      if blockSize == 0 {
        srcBuf := DoAesGcm(srcBuf);
        return true;
      }
      var lastBlkLen, blkCnt := len % blockSize, BlockCount(len, blockSize);
      ghost var s, first := srcBuf, iv;
      var blob := Zeroed(RECORD_SIZE * (blkCnt + 1));
      var count: int := blkCnt;
      ok := DoRandom(IV_SIZE, count - 1);
      CountIsPositive(s, blockSize);
      if !ok { return; }
      blob := Patched(blob, 0, 4, PackLE(blkCnt, 4));
      BlobStart(hsm, s, blockSize, first, aad);
      for i := 0 to blkCnt
        invariant blkCnt > 0 && ranBuf == RandomStrings(hsm, IV_SIZE, blkCnt - 1)
        invariant i < blkCnt ==> iv == IvOf(hsm, first, i)
        invariant srcBuf == BufferAfter(hsm, s, blockSize, first, aad, i)
        invariant blob == BlobAfter(hsm, s, blockSize, first, aad, i)
      {
        blob := EncryptBlock(blob, i, blkCnt, lastBlkLen, s, first);
      }
      tag := blob;
      ok := true;
    }
  }

  /** The buffer once the first i blocks have been encrypted in place. */
  function BufferAfter(h: Hsm, s: seq<byte>, blockSize: nat, first: seq<byte>, aad: seq<byte>, i: nat): seq<byte>
    requires blockSize > 0 && i <= BlockCount(|s|, blockSize)
  {
    EncryptedBlocks(h, s, blockSize, first, aad, i) + s[EncryptedLength(|s|, blockSize, i)..]
  }

  /** How much of the buffer the first i blocks cover. */
  function EncryptedLength(length: nat, blockSize: nat, i: nat): (r: nat)
    requires blockSize > 0 && i <= BlockCount(length, blockSize)
    ensures r <= length
  {
    if i == 0 then 0 else
      BlockBounds(length, blockSize, i - 1);
      (i - 1) * blockSize + BlockLength(length, blockSize, i - 1)
  }

  function WithRecord(blob: seq<byte>, start: nat, iv: seq<byte>, tag: seq<byte>, digest: seq<byte>): seq<byte> {
    var r := Patched(blob, start, start + IV_SIZE, iv);
    var t := Patched(r, start + IV_SIZE, start + IV_SIZE + TAG_SIZE, tag);
    Patched(t, start + IV_SIZE + TAG_SIZE, start + RECORD_SIZE, digest)
  }

  // --- the steps of the loop --------------------------------------------------------------------------

  lemma SignOfProduct(size: nat, count: int)
    requires size > 0
    ensures size * count >= 0 <==> count >= 0
  {}

  lemma RandomSize(h: Hsm, i: nat, n: nat)
    requires ValidHsm(h)
    ensures |h.random(i, n)| == n
  {}

  /** The buffer once i of the strings have been written. */
  ghost function Filled(h: Hsm, size: nat, count: nat, i: nat): seq<byte>
    requires i <= count
  {
    TimesGrows(count - i, count, size);
    RandomStrings(h, size, i) + Zeroed((count - i) * size)
  }

  lemma FilledEnds(h: Hsm, size: nat, count: nat)
    requires ValidHsm(h)
    ensures Filled(h, size, count, 0) == Zeroed(size * count)
    ensures Filled(h, size, count, count) == RandomStrings(h, size, count)
  {
    hide ValidHsm;
    assert size * count == count * size;
    assert (count - 0) * size == size * count && (count - count) * size == 0;
    assert RandomStrings(h, size, count) + Zeroed(0) == RandomStrings(h, size, count);
  }

  lemma AddRandom(h: Hsm, size: nat, count: nat, i: nat)
    requires ValidHsm(h) && i < count
    ensures Patched(Filled(h, size, count, i), i * size, i * size + size, h.random(i, size))
         == Filled(h, size, count, i + 1)
  {
    RandomLength(h, size, i);
    RandomSize(h, i, size);
    hide ValidHsm, Patched;
    TimesNext(count - i - 1, size);
    Extend(RandomStrings(h, size, i), (count - i) * size, h.random(i, size));
  }

  lemma Extend(front: seq<byte>, n: nat, s: seq<byte>)
    requires |s| <= n
    ensures Patched(front + Zeroed(n), |front|, |front| + |s|, s) == front + s + Zeroed(n - |s|)
  {}

  lemma CountIsPositive(s: seq<byte>, blockSize: nat)
    requires blockSize > 0
    ensures BlockCount(|s|, blockSize) > 0 <==> s != []
  {
    QuotientAndRest(|s|, blockSize);
  }

  lemma BlobStart(h: Hsm, s: seq<byte>, blockSize: nat, first: seq<byte>, aad: seq<byte>)
    requires blockSize > 0
    ensures var n := BlockCount(|s|, blockSize);
            && Patched(Zeroed(RECORD_SIZE * (n + 1)), 0, 4, PackLE(n, 4)) == BlobAfter(h, s, blockSize, first, aad, 0)
            && s == BufferAfter(h, s, blockSize, first, aad, 0)
  {
    hide PackLE, BlockCount;
  }

  /** The vector for the next block; empty behind the last one. */
  lemma NextVector(h: Hsm, count: nat, i: nat)
    requires ValidHsm(h) && i <= count
    ensures PySlice(RandomStrings(h, IV_SIZE, count), i * IV_SIZE, i * IV_SIZE + IV_SIZE)
         == if i < count then h.random(i, IV_SIZE) else []
  {
    hide ValidHsm;
    RandomLength(h, IV_SIZE, count);
    if i < count { RandomStringAt(h, IV_SIZE, count, i); }
  }

  lemma {:induction false} BlocksLength(h: Hsm, s: seq<byte>, blockSize: nat, first: seq<byte>, aad: seq<byte>, n: nat)
    requires ValidHsm(h) && blockSize > 0 && n <= BlockCount(|s|, blockSize)
    ensures |EncryptedBlocks(h, s, blockSize, first, aad, n)| == EncryptedLength(|s|, blockSize, n)
    decreases n
  {
    if n > 0 {
      BlocksLength(h, s, blockSize, first, aad, n - 1);
      hide BlockCount;
      BlockSize(h, s, blockSize, first, aad, n - 1);
      StartOfBlock(|s|, blockSize, n - 1);
    }
  }

  lemma BlockSize(h: Hsm, s: seq<byte>, blockSize: nat, first: seq<byte>, aad: seq<byte>, i: nat)
    requires ValidHsm(h) && blockSize > 0 && i < BlockCount(|s|, blockSize)
    ensures |EncryptedBlock(h, s, blockSize, first, aad, i)| == BlockLength(|s|, blockSize, i)
  {
    BlockBounds(|s|, blockSize, i);
    hide BlockCount, BlockLength;
  }

  lemma StartOfBlock(length: nat, blockSize: nat, i: nat)
    requires blockSize > 0 && i < BlockCount(length, blockSize)
    ensures EncryptedLength(length, blockSize, i) == i * blockSize
    ensures EncryptedLength(length, blockSize, i + 1) == i * blockSize + BlockLength(length, blockSize, i)
  {
    if i > 0 { BlockBounds(length, blockSize, i - 1); }
  }

  /** Block i of the buffer is still plaintext; encrypting it extends the encrypted part by one block. */
  lemma StepBlock(h: Hsm, s: seq<byte>, blockSize: nat, first: seq<byte>, aad: seq<byte>, i: nat)
    requires ValidHsm(h) && blockSize > 0 && i < BlockCount(|s|, blockSize)
    ensures var start, end := i * blockSize, i * blockSize + BlockLength(|s|, blockSize, i);
            var buf := BufferAfter(h, s, blockSize, first, aad, i);
            var enc := EncryptedBlock(h, s, blockSize, first, aad, i);
            && start <= end <= |buf| && buf[start..end] == BlockAt(s, blockSize, i)
            && Patched(buf, start, end, enc) == BufferAfter(h, s, blockSize, first, aad, i + 1)
            && end <= |Patched(buf, start, end, enc)| && Patched(buf, start, end, enc)[start..end] == enc
  {
    BlocksLength(h, s, blockSize, first, aad, i);
    BlockBounds(|s|, blockSize, i);
    StartOfBlock(|s|, blockSize, i);
    BlockSize(h, s, blockSize, first, aad, i);
    hide BlockCount, BlockLength, EncryptedLength, EncryptedBlock, ValidHsm;
    ReplaceMiddle(EncryptedBlocks(h, s, blockSize, first, aad, i), s, i * blockSize,
                  i * blockSize + BlockLength(|s|, blockSize, i), EncryptedBlock(h, s, blockSize, first, aad, i));
  }

  lemma ReplaceMiddle(front: seq<byte>, s: seq<byte>, lo: nat, hi: nat, enc: seq<byte>)
    requires |front| == lo <= hi <= |s| && |enc| == hi - lo
    ensures var buf := front + s[lo..];
            && hi <= |buf| && buf[lo..hi] == s[lo..hi]
            && Patched(buf, lo, hi, enc) == front + enc + s[hi..]
            && Patched(buf, lo, hi, enc)[lo..hi] == enc
  {}

  lemma {:induction false} RecordsLength(h: Hsm, s: seq<byte>, blockSize: nat, first: seq<byte>, aad: seq<byte>, n: nat)
    requires ValidHsm(h) && blockSize > 0 && n <= BlockCount(|s|, blockSize)
    ensures |Records(h, s, blockSize, first, aad, n)| == RECORD_SIZE * n
    decreases n
  {
    hide BlockCount, Stored, BlockAt, EncryptedBlock;
    if n > 0 { RecordsLength(h, s, blockSize, first, aad, n - 1); }
  }

  lemma FirstRecordWritten(front: seq<byte>, n: nat, iv: seq<byte>, tag: seq<byte>, digest: seq<byte>)
    requires |tag| == TAG_SIZE && |digest| == DIGEST_SIZE && n >= RECORD_SIZE
    ensures WithRecord(front + Zeroed(n), |front|, iv, tag, digest)
         == front + (Stored(iv) + tag + digest) + Drop(iv + Zeroed(n - IV_SIZE), RECORD_SIZE)
  {
    var r := Patched(front + Zeroed(n), |front|, |front| + IV_SIZE, iv);
    assert r == front + (iv + Zeroed(n - IV_SIZE));
    var rest := iv + Zeroed(n - IV_SIZE);
    assert rest[..IV_SIZE] == Stored(iv);
    OverwriteTwo(front, rest, tag, digest);
  }

  lemma OverwriteTwo(front: seq<byte>, rest: seq<byte>, tag: seq<byte>, digest: seq<byte>)
    requires |tag| == TAG_SIZE && |digest| == DIGEST_SIZE && |rest| >= IV_SIZE + TAG_SIZE
    ensures var k := |front| + IV_SIZE;
            Patched(Patched(front + rest, k, k + TAG_SIZE, tag), k + TAG_SIZE, |front| + RECORD_SIZE, digest)
            == front + (rest[..IV_SIZE] + tag + digest) + Drop(rest, RECORD_SIZE)
  {
    var k := |front| + IV_SIZE;
    var t := Patched(front + rest, k, k + TAG_SIZE, tag);
    assert t == front + rest[..IV_SIZE] + tag + rest[IV_SIZE + TAG_SIZE..];
  }

  lemma RecordWritten(front: seq<byte>, slack: seq<byte>, iv: seq<byte>, tag: seq<byte>, digest: seq<byte>)
    requires |iv| == IV_SIZE && |tag| == TAG_SIZE && |digest| == DIGEST_SIZE && |slack| >= IV_SIZE + TAG_SIZE
    ensures WithRecord(front + slack, |front|, iv, tag, digest)
         == front + (Stored(iv) + tag + digest) + Drop(slack, RECORD_SIZE)
  {
    var rest := iv + slack[IV_SIZE..];
    assert Patched(front + slack, |front|, |front| + IV_SIZE, iv) == front + rest;
    OverwriteTwo(front, rest, tag, digest);
  }

  lemma StepBlob(h: Hsm, s: seq<byte>, blockSize: nat, first: seq<byte>, aad: seq<byte>, i: nat)
    requires ValidHsm(h) && blockSize > 0 && i < BlockCount(|s|, blockSize)
    ensures WithRecord(BlobAfter(h, s, blockSize, first, aad, i), (i + 1) * RECORD_SIZE, IvOf(h, first, i),
                       h.tag(BlockAt(s, blockSize, i), IvOf(h, first, i), aad),
                       h.sha512(EncryptedBlock(h, s, blockSize, first, aad, i)))
         == BlobAfter(h, s, blockSize, first, aad, i + 1)
  {
    RecordsLength(h, s, blockSize, first, aad, i);
    if i > 0 { RandomSize(h, i - 1, IV_SIZE); }
    hide BlockCount, BlockAt, EncryptedBlock, WithRecord, BlobHead, Stored;
    var n, iv := BlockCount(|s|, blockSize), IvOf(h, first, i);
    var front, slack := BlobHead(n) + Records(h, s, blockSize, first, aad, i), Slack(n, first, i);
    var tag := h.tag(BlockAt(s, blockSize, i), iv, aad);
    var digest := h.sha512(EncryptedBlock(h, s, blockSize, first, aad, i));
    SlackStep(n, first, i);
    Associate(BlobHead(n), Records(h, s, blockSize, first, aad, i), Stored(iv) + tag + digest);
    if i == 0 {
      FirstRecordWritten(front, RECORD_SIZE * n, iv, tag, digest);
    } else {
      RecordWritten(front, slack, iv, tag, digest);
    }
  }

  lemma SlackStep(n: nat, first: seq<byte>, i: nat)
    requires i < n
    ensures i > 0 ==> Drop(Slack(n, first, i), RECORD_SIZE) == Slack(n, first, i + 1)
    ensures i > 0 ==> |Slack(n, first, i)| >= IV_SIZE + TAG_SIZE
    ensures i == 0 ==> Slack(n, first, 1) == Drop(first + Zeroed(RECORD_SIZE * n - IV_SIZE), RECORD_SIZE)
  {}
}
