/** Sealing of an FSKP image: encryption, a payload digest, a stage-2 HMAC and digest, and the digest of the boot
    configuration header, each patched into the file after the previous one. */
module Fskp {
  import opened Bytes
  import opened BlobFile

  // --- the layout -------------------------------------------------------------------------------------

  const BCH_DIGEST := 4
  const BCH_START := 68
  const STAGE2_DIGEST := 80
  const STAGE2_HMAC := 144
  const STAGE2_START := 4032
  const AAD_START := 5120
  const LENGTH_START := 5124
  const IV_START := 5188
  const TAG_START := 5200
  const PAYLOAD_DIGEST := 5216
  const PAYLOAD_START := 8192
  const AES_BLOCK := 16
  const STAGE2_LENGTH := PAYLOAD_START - STAGE2_START

  // --- the cipher and the hashes ----------------------------------------------------------------------

  /** The external tools, with their keys fixed. AES-GCM and HMAC get the buffer and a length of whole blocks. */
  datatype Crypto = Crypto(
    encrypt: (seq<byte>, nat, seq<byte>, seq<byte>) -> seq<byte>,
    tag: (seq<byte>, nat, seq<byte>, seq<byte>) -> seq<byte>,
    decrypt: (seq<byte>, seq<byte>, seq<byte>, seq<byte>) -> Option<seq<byte>>,
    hmac: (seq<byte>, nat) -> seq<byte>,
    sha512: seq<byte> -> seq<byte>)

  /** Sizes, and decryption with the right initial vector, additional data and tag undoes encryption. */
  ghost predicate ValidCrypto(c: Crypto) {
    && (forall s, iv, aad {:trigger c.encrypt(s, |s|, iv, aad)} ::
          |c.encrypt(s, |s|, iv, aad)| == |s|
          && c.decrypt(c.encrypt(s, |s|, iv, aad), iv, aad, c.tag(s, |s|, iv, aad)) == Some(s))
    && (forall s, n, iv, aad :: |c.tag(s, n, iv, aad)| == 16)
    && (forall s, n :: |c.hmac(s, n)| == 32)
    && (forall s :: |c.sha512(s)| == 64)
  }

  /** The assumptions on the tools can be met. */
  lemma CryptoExists() returns (c: Crypto)
    ensures ValidCrypto(c)
  {
    c := Crypto((s, n, iv, aad) => s, (s, n, iv, aad) => Zeroed(16), (s, iv, aad, t) => Some(s),
                (s, n) => Zeroed(32), s => Zeroed(64));
  }

  // --- regions ----------------------------------------------------------------------------------------

  /** The part of a file the tools work on; a length that is not positive means the rest. */
  function Region(data: seq<byte>, offset: nat, length: int): Option<seq<byte>> {
    if offset > |data| then None else
      var n := if length > 0 then length else |data| - offset;
      if offset + n > |data| then None else Some(data[offset..offset + n])
  }

  // --- what the steps make of an image ----------------------------------------------------------------

  /** The length word of the image, zero meaning everything after the headers. */
  function PayloadSize(src: seq<byte>): nat
    requires |src| >= PAYLOAD_START
  {
    var n := ReadLE(src[LENGTH_START..LENGTH_START + 4]);
    if n > 0 then n else |src| - PAYLOAD_START
  }

  predicate Fitting(src: seq<byte>) {
    |src| >= PAYLOAD_START && PAYLOAD_START + PayloadSize(src) <= |src|
  }

  /** The payload is a whole number of cipher blocks. */
  predicate Sealable(src: seq<byte>) {
    Fitting(src) && PayloadSize(src) % AES_BLOCK == 0
  }

  function Payload(src: seq<byte>): seq<byte>
    requires Fitting(src)
  {
    src[PAYLOAD_START..PAYLOAD_START + PayloadSize(src)]
  }

  function Stage2(src: seq<byte>): seq<byte>
    requires |src| >= PAYLOAD_START
  {
    src[STAGE2_START..PAYLOAD_START]
  }

  function Patch(data: seq<byte>, at: nat, s: seq<byte>): (r: seq<byte>)
    requires at + |s| <= |data|
    ensures |r| == |data|
  {
    data[..at] + s + data[at + |s|..]
  }

  ghost function Encrypted(c: Crypto, src: seq<byte>): (r: seq<byte>)
    requires ValidCrypto(c) && Sealable(src)
    ensures |r| == |src|
  {
    var buf, iv, aad := Payload(src), src[IV_START..IV_START + 12], src[AAD_START..TAG_START];
    var data := Patch(src, PAYLOAD_START, c.encrypt(buf, |buf|, iv, aad));
    Patch(data, TAG_START, c.tag(buf, |buf|, iv, aad))
  }

  ghost function WithPayloadDigest(c: Crypto, e: seq<byte>): (r: seq<byte>)
    requires ValidCrypto(c) && Fitting(e)
    ensures |r| == |e|
  {
    Patch(e, PAYLOAD_DIGEST, c.sha512(Payload(e)))
  }

  ghost function WithStage2(c: Crypto, e: seq<byte>): (r: seq<byte>)
    requires ValidCrypto(c) && |e| >= PAYLOAD_START
    ensures |r| == |e|
  {
    Patch(Patch(e, STAGE2_HMAC, c.hmac(Stage2(e), STAGE2_LENGTH)), STAGE2_DIGEST, c.sha512(Stage2(e)))
  }

  ghost function WithBch(c: Crypto, e: seq<byte>): (r: seq<byte>)
    requires ValidCrypto(c) && |e| >= PAYLOAD_START
    ensures |r| == |e|
  {
    Patch(e, BCH_DIGEST, c.sha512(e[BCH_START..PAYLOAD_START]))
  }

  /** What a sealed image of src is: every digest matches its region in the same file, the payload opens with the
      values stored in the same file, and nothing else has changed. */
  ghost predicate Sealed(c: Crypto, src: seq<byte>, f: seq<byte>)
    requires Fitting(src)
  {
    && |f| == |src| && Fitting(f) && PayloadSize(f) == PayloadSize(src)
    && f[PAYLOAD_DIGEST..PAYLOAD_DIGEST + 64] == c.sha512(Payload(f))
    && f[STAGE2_DIGEST..STAGE2_DIGEST + 64] == c.sha512(Stage2(f))
    && f[STAGE2_HMAC..STAGE2_HMAC + 32] == c.hmac(Stage2(f), STAGE2_LENGTH)
    && f[BCH_DIGEST..BCH_DIGEST + 64] == c.sha512(f[BCH_START..PAYLOAD_START])
    && c.decrypt(Payload(f), f[IV_START..IV_START + 12], f[AAD_START..TAG_START], f[TAG_START..TAG_START + 16])
       == Some(Payload(src))
    && f[..BCH_DIGEST] == src[..BCH_DIGEST]
    && f[BCH_START..STAGE2_DIGEST] == src[BCH_START..STAGE2_DIGEST]
    && f[STAGE2_HMAC + 32..TAG_START] == src[STAGE2_HMAC + 32..TAG_START]
    && f[PAYLOAD_DIGEST + 64..PAYLOAD_START] == src[PAYLOAD_DIGEST + 64..PAYLOAD_START]
    && f[PAYLOAD_START + PayloadSize(src)..] == src[PAYLOAD_START + PayloadSize(src)..]
  }

  /** The same, with all places spelled out: n payload bytes behind 8192 bytes of headers. */
  ghost predicate IsSealedFile(c: Crypto, src: seq<byte>, f: seq<byte>)
    requires |src| >= 8192
  {
    var word := ReadLE(src[5124..5128]);
    var n := if word > 0 then word else |src| - 8192;
    && 8192 + n <= |f| == |src|
    && f[..4] == src[..4] && f[68..80] == src[68..80]
    && f[176..5200] == src[176..5200] && f[5280..8192] == src[5280..8192]
    && f[8192 + n..] == src[8192 + n..]
    && f[5216..5280] == c.sha512(f[8192..8192 + n])
    && f[144..176] == c.hmac(f[4032..8192], 4160) && f[80..144] == c.sha512(f[4032..8192])
    && f[4..68] == c.sha512(f[68..8192])
    && c.decrypt(f[8192..8192 + n], f[5188..5200], f[5120..5200], f[5200..5216]) == Some(src[8192..8192 + n])
  }

  /** Which images can be sealed: whole headers, and behind them as many bytes as the length word says, or all if it is
      zero, in whole cipher blocks. */
  lemma SealableExactly(src: seq<byte>)
    ensures Sealable(src)
            <==> && |src| >= 8192
                 && var word := ReadLE(src[5124..5128]);
                 var n := if word > 0 then word else |src| - 8192;
                 8192 + n <= |src| && n % 16 == 0
  {
    hide ReadLE;
  }

  lemma SealedExactly(c: Crypto, src: seq<byte>, f: seq<byte>)
    requires Fitting(src)
    ensures Sealed(c, src, f) <==> IsSealedFile(c, src, f)
  {
    if |f| == |src| && f[176..5200] == src[176..5200] {
      forall k | 5124 <= k < 5128 ensures f[k] == src[k] { assert f[176..5200][k - 176] == src[176..5200][k - 176]; }
      assert f[5124..5128] == src[5124..5128];
    }
  }

  lemma PatchReads(data: seq<byte>, at: nat, s: seq<byte>, lo: nat, hi: nat)
    requires at + |s| <= |data| && lo <= hi <= |data|
    ensures hi <= at || at + |s| <= lo ==> Patch(data, at, s)[lo..hi] == data[lo..hi]
    ensures lo == at && hi == at + |s| ==> Patch(data, at, s)[lo..hi] == s
  {}

  lemma PatchKeepsSize(data: seq<byte>, at: nat, s: seq<byte>)
    requires |data| >= PAYLOAD_START && at + |s| <= |data| && (at + |s| <= LENGTH_START || LENGTH_START + 4 <= at)
    ensures PayloadSize(Patch(data, at, s)) == PayloadSize(data)
  {
    PatchReads(data, at, s, LENGTH_START, LENGTH_START + 4);
  }

  // --- the files --------------------------------------------------------------------------------------

  /** A file beside the input: the input's stem, some "_encrypt" suffixes and an extension. */
  datatype FileName = FileName(suffixes: nat, ext: string)

  class Workspace {
    const crypto: Crypto
    var files: map<FileName, seq<byte>>

    constructor (crypto: Crypto, files: map<FileName, seq<byte>>)
      ensures this.crypto == crypto && this.files == files
    {
      this.crypto, this.files := crypto, files;
    }

    /** A call of tegrasign with aesgcm, which comes to sign_single_file. tegrasign turns every exception, also that
        for a missing file, into a return value that the caller does not look at: nothing is written, nobody is told. */
    method Encrypt(name: FileName, length: nat, offset: nat, iv: seq<byte>, aad: seq<byte>)
      modifies this
      ensures name !in old(files) || Region(old(files)[name], offset, length).None? ==> files == old(files)
      ensures name in old(files) && Region(old(files)[name], offset, length).Some? ==>
                var data := old(files)[name];
                var buf := Region(data, offset, length).value;
                var n := |buf| / AES_BLOCK * AES_BLOCK;
                files == old(files)
                         [FileName(name.suffixes, ".tag") := crypto.tag(buf, n, iv, aad)]
                         [FileName(name.suffixes + 1, name.ext) :=
                           data[..offset] + crypto.encrypt(buf, n, iv, aad) + data[offset + n..]]
    {
      if name !in files { return; }
      var data := files[name];
      var region := Region(data, offset, length);
      if region.None? { return; }
      var buf := region.value;
      var n := |buf| / AES_BLOCK * AES_BLOCK;
      files := files[FileName(name.suffixes, ".tag") := crypto.tag(buf, n, iv, aad)];
      files := files[FileName(name.suffixes + 1, name.ext) :=
                       data[..offset] + crypto.encrypt(buf, n, iv, aad) + data[offset + n..]];
    }

    /** A call of tegrasign with hmacsha256 and no encryption. */
    method Hmac(name: FileName, length: nat, offset: nat)
      modifies this
      ensures name !in old(files) || Region(old(files)[name], offset, length).None? ==> files == old(files)
      ensures name in old(files) && Region(old(files)[name], offset, length).Some? ==>
                var data := old(files)[name];
                var buf := Region(data, offset, length).value;
                files == old(files)
                         [FileName(name.suffixes + 1, name.ext) :=
                           data[..offset] + buf + data[offset + |buf| / AES_BLOCK * AES_BLOCK..]]
                         [FileName(name.suffixes, ".hash") := crypto.hmac(buf, |buf| / AES_BLOCK * AES_BLOCK)]
    {
      if name !in files { return; }
      var data := files[name];
      var region := Region(data, offset, length);
      if region.None? { return; }
      var buf := region.value;
      files := files[FileName(name.suffixes + 1, name.ext) :=
                       data[..offset] + buf + data[offset + |buf| / AES_BLOCK * AES_BLOCK..]];
      files := files[FileName(name.suffixes, ".hash") := crypto.hmac(buf, |buf| / AES_BLOCK * AES_BLOCK)];
    }

    /** A call of tegrasign with a digest, which comes to do_sha. */
    method Sha(name: FileName, length: nat, offset: nat)
      modifies this
      ensures name !in old(files) || Region(old(files)[name], offset, length).None? ==> files == old(files)
      ensures name in old(files) && Region(old(files)[name], offset, length).Some? ==>
                files == old(files)[FileName(name.suffixes, ".sha") :=
                                      crypto.sha512(Region(old(files)[name], offset, length).value)]
    {
      if name !in files { return; }
      var region := Region(files[name], offset, length);
      if region.None? { return; }
      files := files[FileName(name.suffixes, ".sha") := crypto.sha512(region.value)];
    }

    /** Patch one file with the content of another: data is what was read when the file was opened. */
    method PatchFrom(name: FileName, data: seq<byte>, lo: nat, hi: nat, patch: FileName) returns (ok: bool)
      requires name in files && lo <= hi
      modifies this
      ensures ok <==> patch in old(files)
      ensures ok ==>
                files == old(files)[name := Overwritten(old(files)[name], 0, Patched(data, lo, hi, old(files)[patch]))]
      ensures !ok ==> files == old(files)
    {
      if patch !in files { return false; }
      files := files[name := Overwritten(files[name], 0, Patched(data, lo, hi, files[patch]))];
      ok := true;
    }

    /** tegraflash_oem_enc_fskp */
    method OemEncFskp(ext: string) returns (ok: bool)
      requires ValidCrypto(crypto)
      modifies this
      ensures ok ==> FileName(0, ext) in old(files) && FileName(1, ext) in files
      ensures var input := FileName(0, ext);
              input in old(files) && Sealable(old(files)[input]) ==>
                ok && FileName(1, ext) in files && files[FileName(1, ext)] == Encrypted(crypto, old(files)[input])
      ensures var input := FileName(0, ext);
              input in old(files) && !Fitting(old(files)[input]) && FileName(1, ext) !in old(files) ==> !ok
    {
      hide Overwritten, ReadLE, ValidCrypto, Encrypted, Patched;
      var input, output := FileName(0, ext), FileName(1, ext);
      if input !in files { return false; }
      var src := files[input];
      var lenBuf := PySlice(src, LENGTH_START, LENGTH_START + 4);
      if |lenBuf| != 4 { return false; }
      var payloadLen := ReadLE(lenBuf);
      var iv, aad := PySlice(src, IV_START, IV_START + 12), PySlice(src, AAD_START, TAG_START);
      if Sealable(src) { EncryptedIs(crypto, src); }
      Encrypt(input, payloadLen, PAYLOAD_START, iv, aad);
      if output !in files { return false; }
      ok := PatchFrom(output, files[output], TAG_START, TAG_START + 16, FileName(0, ".tag"));
    }

    /** The payload digest goes into the encrypted file. */
    method DigestPayload(ext: string) returns (ok: bool)
      requires ValidCrypto(crypto) && FileName(1, ext) in files
      modifies this
      ensures ok ==> FileName(1, ext) in files
      ensures var enc, digest := FileName(1, ext), FileName(1, ".sha");
              Fitting(old(files)[enc]) ==>
                && ok && enc in files && digest in files
                && files[enc] == WithPayloadDigest(crypto, old(files)[enc])
                && (ext != ".sha" ==> |files[digest]| == 64)
    {
      hide Overwritten, ReadLE, Patched, PySlice, Region, Fitting, Payload, WithPayloadDigest, ValidCrypto;
      var enc := FileName(1, ext);
      var src := files[enc];
      var lenBuf := PySlice(src, LENGTH_START, LENGTH_START + 4);
      if Fitting(src) { DigestIs(crypto, src, src); }
      if |lenBuf| != 4 { return false; }
      Sha(enc, ReadLE(lenBuf), PAYLOAD_START);
      if Fitting(src) { DigestIs(crypto, src, files[enc]); }
      ok := PatchFrom(enc, src, PAYLOAD_DIGEST, PAYLOAD_DIGEST + 64, FileName(1, ".sha"));
    }

    /** The stage-2 HMAC and digest are computed, and the file is copied in between. Copying a file onto itself
        raises; an encrypted file called like the HMAC's output is overwritten by it. */
    method DigestStage2(ext: string) returns (ok: bool)
      requires ValidCrypto(crypto) && FileName(1, ext) in files
      modifies this
      ensures ok <==> ext != ".signed"
      ensures ok ==> FileName(1, ".signed") in files
      ensures var enc, signed := FileName(1, ext), FileName(1, ".signed");
              var hash, digest := FileName(1, ".hash"), FileName(1, ".sha");
              ok && |old(files)[enc]| >= PAYLOAD_START && digest in old(files) ==>
                && hash in files && digest in files
                && files[hash] == crypto.hmac(Stage2(old(files)[enc]), STAGE2_LENGTH)
                && (ext == ".hash" ==> files[signed] == files[hash] && files[digest] == old(files)[digest])
                && (ext != ".hash" ==>
                      files[signed] == old(files)[enc] && files[digest] == crypto.sha512(Stage2(old(files)[enc])))
    {
      var enc, signed := FileName(1, ext), FileName(1, ".signed");
      Hmac(enc, PAYLOAD_START - STAGE2_START, STAGE2_START);
      if enc == signed { return false; }
      files := files[signed := files[enc]];
      Sha(enc, PAYLOAD_START - STAGE2_START, STAGE2_START);
      ok := true;
    }

    /** Both results go into the copy. */
    method PatchStage2() returns (ok: bool)
      requires ValidCrypto(crypto) && FileName(1, ".signed") in files
      modifies this
      ensures ok ==> FileName(1, ".hash") in old(files) && FileName(1, ".sha") in old(files)
      ensures FileName(1, ".hash") in old(files) && FileName(1, ".sha") in old(files) ==>
                var signed := FileName(1, ".signed");
                var data := old(files)[signed];
                var hash, digest := old(files)[FileName(1, ".hash")], old(files)[FileName(1, ".sha")];
                ok && files == old(files)[signed := Overwritten(data, 0, PatchedTwice(data, hash, digest))]
    {
      hide Overwritten, Patched;
      var signed, hash, digest := FileName(1, ".signed"), FileName(1, ".hash"), FileName(1, ".sha");
      var src := files[signed];
      if hash !in files { return false; }
      src := Patched(src, STAGE2_HMAC, STAGE2_HMAC + 32, files[hash]);
      if digest !in files { return false; }
      src := Patched(src, STAGE2_DIGEST, STAGE2_DIGEST + 64, files[digest]);
      files := files[signed := Overwritten(files[signed], 0, src)];
      ok := true;
    }

    /** The digest of the boot configuration header goes into the copy; when the tool gives up, the digest file is
        still the previous one. */
    method DigestBch() returns (ok: bool)
      requires ValidCrypto(crypto) && FileName(1, ".signed") in files
      modifies this
      ensures ok ==> FileName(1, ".signed") in files
      ensures var signed, digest := FileName(1, ".signed"), FileName(1, ".sha");
              var data := old(files)[signed];
              && (|data| >= PAYLOAD_START ==> ok && files[signed] == WithBch(crypto, data))
              && (digest in old(files) && |old(files)[digest]| == 64 && BCH_DIGEST + 64 <= |data| ==>
                    ok && |files[signed]| == |data|)
    {
      hide Overwritten, Patched;
      var signed := FileName(1, ".signed");
      var src := files[signed];
      Sha(signed, PAYLOAD_START - BCH_START, BCH_START);
      if BCH_DIGEST + 64 <= |src| && FileName(1, ".sha") in files && |files[FileName(1, ".sha")]| == 64 {
        PatchedIs(src, BCH_DIGEST, files[FileName(1, ".sha")], files[signed]);
      }
      ok := PatchFrom(signed, src, BCH_DIGEST, BCH_DIGEST + 64, FileName(1, ".sha"));
    }

    /** tegraflash_oem_sign_fskp: the result is the file with extension ".signed". */
    method OemSignFskp(ext: string) returns (ok: bool)
      requires ValidCrypto(crypto)
      modifies this
      ensures ok ==> FileName(0, ext) in old(files)
      ensures var input, signed := FileName(0, ext), FileName(1, ".signed");
              input in old(files) && Sealable(old(files)[input]) ==>
                && (ok <==> ext != ".signed")
                && (ok ==> signed in files)
                && (ok && ext != ".hash" ==> Sealed(crypto, old(files)[input], files[signed]))
                && (ok && ext == ".hash" ==> |files[signed]| < |old(files)[input]|)
      ensures var input := FileName(0, ext);
              input in old(files) && !Fitting(old(files)[input]) && FileName(1, ext) !in old(files) ==> !ok
    {
      hide Overwritten, Patched, Encrypted, WithPayloadDigest, WithStage2, WithBch, Sealed, ReadLE, ValidCrypto;
      ghost var input, signed := FileName(0, ext), FileName(1, ".signed");
      ghost var sealable := input in files && Sealable(files[input]);
      ghost var src := if sealable then files[input] else [];
      if sealable { SealsImage(crypto, src); HashesHaveSizes(crypto); }
      ok := OemEncFskp(ext);
      if !ok { return; }
      ok := DigestPayload(ext);
      if !ok { return; }
      ghost var e := files[FileName(1, ext)];
      ok := DigestStage2(ext);
      if !ok { return; }
      if sealable {
        Stage2Is(crypto, e);
        if ext == ".hash" { PatchedShort(files[signed], files[FileName(1, ".hash")], files[FileName(1, ".sha")]); }
      }
      ok := PatchStage2();
      if !ok { return; }
      ok := DigestBch();
    }
  }

  /** The HMAC and the stage-2 digest, patched in this order. */
  function PatchedTwice(data: seq<byte>, hash: seq<byte>, digest: seq<byte>): seq<byte> {
    Patched(Patched(data, STAGE2_HMAC, STAGE2_HMAC + 32, hash), STAGE2_DIGEST, STAGE2_DIGEST + 64, digest)
  }

  lemma OverwriteAll(old_: seq<byte>, s: seq<byte>)
    requires |old_| <= |s|
    ensures Overwritten(old_, 0, s) == s
  {}

  lemma HashesHaveSizes(c: Crypto)
    requires ValidCrypto(c)
    ensures (forall s, n :: |c.hmac(s, n)| == 32) && forall s :: |c.sha512(s)| == 64
  {}

  lemma Stage2Is(c: Crypto, e: seq<byte>)
    requires ValidCrypto(c) && |e| >= PAYLOAD_START
    ensures var hash, digest := c.hmac(Stage2(e), STAGE2_LENGTH), c.sha512(Stage2(e));
            Overwritten(e, 0, PatchedTwice(e, hash, digest))
            == WithStage2(c, e)
  {
    hide Overwritten;
    var data := Patch(e, STAGE2_HMAC, c.hmac(Stage2(e), STAGE2_LENGTH));
    PatchedIs(data, STAGE2_DIGEST, c.sha512(Stage2(e)), e);
  }

  /** Patching a file that holds only an HMAC makes it 128 bytes long. */
  lemma PatchedShort(data: seq<byte>, hash: seq<byte>, digest: seq<byte>)
    requires |data| == |hash| == 32 && |digest| == 64
    ensures |Overwritten(data, 0, PatchedTwice(data, hash, digest))| == 128
  {
    OverwriteAll(data, PatchedTwice(data, hash, digest));
  }


  /** Writing a patched image over a file that is not longer. */
  lemma PatchedIs(data: seq<byte>, at: nat, s: seq<byte>, file: seq<byte>)
    requires at + |s| <= |data| && |file| <= |data|
    ensures Overwritten(file, 0, Patched(data, at, at + |s|, s)) == Patch(data, at, s)
  {}

  lemma DigestIs(c: Crypto, e: seq<byte>, file: seq<byte>)
    requires ValidCrypto(c) && Fitting(e)
    ensures var lenBuf := PySlice(e, LENGTH_START, LENGTH_START + 4);
            |lenBuf| == 4 && Region(e, PAYLOAD_START, ReadLE(lenBuf)) == Some(Payload(e))
    ensures |e| >= 64 && |c.sha512(Payload(e))| == 64
    ensures |file| <= |e| ==>
              Overwritten(file, 0, Patched(e, PAYLOAD_DIGEST, PAYLOAD_DIGEST + 64, c.sha512(Payload(e))))
              == WithPayloadDigest(c, e)
  {
    hide Overwritten, ReadLE, Patched;
    if |file| <= |e| { PatchedIs(e, PAYLOAD_DIGEST, c.sha512(Payload(e)), file); }
  }

  lemma EncryptedIs(c: Crypto, src: seq<byte>)
    requires ValidCrypto(c) && Sealable(src)
    ensures var n := ReadLE(PySlice(src, LENGTH_START, LENGTH_START + 4));
            var iv, aad := PySlice(src, IV_START, IV_START + 12), PySlice(src, AAD_START, TAG_START);
            var region := Region(src, PAYLOAD_START, n);
            && region.Some?
            && var m := |region.value| / AES_BLOCK * AES_BLOCK;
            var data := src[..PAYLOAD_START] + c.encrypt(region.value, m, iv, aad) + src[PAYLOAD_START + m..];
            var tag := c.tag(region.value, m, iv, aad);
            Overwritten(data, 0, Patched(data, TAG_START, TAG_START + 16, tag)) == Encrypted(c, src)
  {
    hide ReadLE, Overwritten, Patched;
    var buf := Payload(src);
    var n := ReadLE(PySlice(src, LENGTH_START, LENGTH_START + 4));
    var iv, aad := PySlice(src, IV_START, IV_START + 12), PySlice(src, AAD_START, TAG_START);
    assert Region(src, PAYLOAD_START, n) == Some(buf);
    assert |buf| / AES_BLOCK * AES_BLOCK == |buf|;
    var data := Patch(src, PAYLOAD_START, c.encrypt(buf, |buf|, iv, aad));
    PatchedIs(data, TAG_START, c.tag(buf, |buf|, iv, aad), data);
  }

  // --- the image is sealed ----------------------------------------------------------------------------

  predicate SameOutside(a: seq<byte>, b: seq<byte>, lo: nat, hi: nat) {
    |a| == |b| && forall i :: 0 <= i < |a| && !(lo <= i < hi) ==> a[i] == b[i]
  }

  lemma PatchIsLocal(data: seq<byte>, at: nat, s: seq<byte>)
    requires at + |s| <= |data|
    ensures SameOutside(Patch(data, at, s), data, at, at + |s|) && Patch(data, at, s)[at..at + |s|] == s
  {}

  lemma SameSlice(a: seq<byte>, b: seq<byte>, lo: nat, hi: nat, x: nat, y: nat)
    requires SameOutside(a, b, lo, hi) && x <= y <= |a| && (y <= lo || hi <= x)
    ensures a[x..y] == b[x..y]
  {}

  lemma SameSize(a: seq<byte>, b: seq<byte>, lo: nat, hi: nat)
    requires SameOutside(a, b, lo, hi) && Fitting(b)
    requires (hi <= LENGTH_START || LENGTH_START + 4 <= lo) && hi <= PAYLOAD_START
    ensures Fitting(a) && PayloadSize(a) == PayloadSize(b) && Payload(a) == Payload(b)
  {
    SameSlice(a, b, lo, hi, LENGTH_START, LENGTH_START + 4);
    hide ReadLE;
  }

  /** The payload opens with what is stored beside it, and only payload and tag differ. */
  ghost predicate Opens(c: Crypto, src: seq<byte>, e: seq<byte>)
    requires Fitting(src)
  {
    && |e| == |src| && Fitting(e) && PayloadSize(e) == PayloadSize(src)
    && c.decrypt(Payload(e), e[IV_START..IV_START + 12], e[AAD_START..TAG_START], e[TAG_START..TAG_START + 16])
       == Some(Payload(src))
    && e[..TAG_START] == src[..TAG_START]
    && e[PAYLOAD_DIGEST..PAYLOAD_START] == src[PAYLOAD_DIGEST..PAYLOAD_START]
    && e[PAYLOAD_START + PayloadSize(src)..] == src[PAYLOAD_START + PayloadSize(src)..]
  }

  /** Encryption changes the payload and the tag. */
  lemma EncryptedOpens(c: Crypto, src: seq<byte>)
    requires ValidCrypto(c) && Sealable(src)
    ensures Opens(c, src, Encrypted(c, src))
  {
    var buf, iv, aad := Payload(src), src[IV_START..IV_START + 12], src[AAD_START..TAG_START];
    var enc, tag := c.encrypt(buf, |buf|, iv, aad), c.tag(buf, |buf|, iv, aad);
    var data, end := Patch(src, PAYLOAD_START, enc), PAYLOAD_START + PayloadSize(src);
    var e := Patch(data, TAG_START, tag);
    PatchIsLocal(src, PAYLOAD_START, enc);
    PatchIsLocal(data, TAG_START, tag);
    PatchKeepsSize(src, PAYLOAD_START, enc);
    PatchKeepsSize(data, TAG_START, tag);
    hide Patch, PayloadSize, ReadLE;
    SameSlice(e, data, TAG_START, TAG_START + 16, PAYLOAD_START, end);
    assert forall i :: 0 <= i < TAG_START ==> e[i] == src[i];
    assert e[IV_START..IV_START + 12] == iv && e[AAD_START..TAG_START] == aad;
  }

  lemma PayloadDigestIsLocal(c: Crypto, e: seq<byte>)
    requires ValidCrypto(c) && Fitting(e)
    ensures var r := WithPayloadDigest(c, e);
            SameOutside(r, e, PAYLOAD_DIGEST, PAYLOAD_DIGEST + 64)
            && r[PAYLOAD_DIGEST..PAYLOAD_DIGEST + 64] == c.sha512(Payload(e))
  {
    PatchIsLocal(e, PAYLOAD_DIGEST, c.sha512(Payload(e)));
  }

  lemma Stage2IsLocal(c: Crypto, e: seq<byte>)
    requires ValidCrypto(c) && |e| >= PAYLOAD_START
    ensures var r := WithStage2(c, e);
            && SameOutside(r, e, STAGE2_DIGEST, STAGE2_HMAC + 32)
            && r[STAGE2_DIGEST..STAGE2_DIGEST + 64] == c.sha512(Stage2(e))
            && r[STAGE2_HMAC..STAGE2_HMAC + 32] == c.hmac(Stage2(e), STAGE2_LENGTH)
  {
    var hash, digest := c.hmac(Stage2(e), STAGE2_LENGTH), c.sha512(Stage2(e));
    var data := Patch(e, STAGE2_HMAC, hash);
    PatchIsLocal(e, STAGE2_HMAC, hash);
    PatchIsLocal(data, STAGE2_DIGEST, digest);
    hide Patch;
    SameSlice(Patch(data, STAGE2_DIGEST, digest), data, STAGE2_DIGEST, STAGE2_DIGEST + 64, STAGE2_HMAC,
              STAGE2_HMAC + 32);
  }

  lemma BchIsLocal(c: Crypto, e: seq<byte>)
    requires ValidCrypto(c) && |e| >= PAYLOAD_START
    ensures var r := WithBch(c, e);
            SameOutside(r, e, BCH_DIGEST, BCH_DIGEST + 64)
            && r[BCH_DIGEST..BCH_DIGEST + 64] == c.sha512(e[BCH_START..PAYLOAD_START])
  {
    PatchIsLocal(e, BCH_DIGEST, c.sha512(e[BCH_START..PAYLOAD_START]));
  }

  /** The digests written later leave alone what earlier digests cover. */
  lemma DigestsAgree(c: Crypto, e: seq<byte>, e1: seq<byte>, e2: seq<byte>, f: seq<byte>)
    requires Fitting(e)
    requires SameOutside(e1, e, PAYLOAD_DIGEST, PAYLOAD_DIGEST + 64)
    requires e1[PAYLOAD_DIGEST..PAYLOAD_DIGEST + 64] == c.sha512(Payload(e))
    requires SameOutside(e2, e1, STAGE2_DIGEST, STAGE2_HMAC + 32)
    requires e2[STAGE2_DIGEST..STAGE2_DIGEST + 64] == c.sha512(Stage2(e1))
    requires e2[STAGE2_HMAC..STAGE2_HMAC + 32] == c.hmac(Stage2(e1), STAGE2_LENGTH)
    requires SameOutside(f, e2, BCH_DIGEST, BCH_DIGEST + 64)
    requires f[BCH_DIGEST..BCH_DIGEST + 64] == c.sha512(e2[BCH_START..PAYLOAD_START])
    ensures |f| == |e| && Fitting(f) && PayloadSize(f) == PayloadSize(e) && Payload(f) == Payload(e)
    ensures f[PAYLOAD_DIGEST..PAYLOAD_DIGEST + 64] == c.sha512(Payload(f))
    ensures f[STAGE2_DIGEST..STAGE2_DIGEST + 64] == c.sha512(Stage2(f))
    ensures f[STAGE2_HMAC..STAGE2_HMAC + 32] == c.hmac(Stage2(f), STAGE2_LENGTH)
    ensures f[BCH_DIGEST..BCH_DIGEST + 64] == c.sha512(f[BCH_START..PAYLOAD_START])
  {
    SameSize(e1, e, PAYLOAD_DIGEST, PAYLOAD_DIGEST + 64);
    SameSize(e2, e1, STAGE2_DIGEST, STAGE2_HMAC + 32);
    SameSize(f, e2, BCH_DIGEST, BCH_DIGEST + 64);
    SameSlice(e2, e1, STAGE2_DIGEST, STAGE2_HMAC + 32, PAYLOAD_DIGEST, PAYLOAD_DIGEST + 64);
    SameSlice(f, e2, BCH_DIGEST, BCH_DIGEST + 64, PAYLOAD_DIGEST, PAYLOAD_DIGEST + 64);
    SameSlice(e2, e1, STAGE2_DIGEST, STAGE2_HMAC + 32, STAGE2_START, PAYLOAD_START);
    SameSlice(f, e2, BCH_DIGEST, BCH_DIGEST + 64, STAGE2_START, PAYLOAD_START);
    SameSlice(f, e2, BCH_DIGEST, BCH_DIGEST + 64, STAGE2_DIGEST, STAGE2_DIGEST + 64);
    SameSlice(f, e2, BCH_DIGEST, BCH_DIGEST + 64, STAGE2_HMAC, STAGE2_HMAC + 32);
    SameSlice(f, e2, BCH_DIGEST, BCH_DIGEST + 64, BCH_START, PAYLOAD_START);
    hide SameOutside, Fitting, PayloadSize, Payload;
  }

  /** Nothing but the payload, the tag and the four digests differs. */
  lemma RestUnchanged(c: Crypto, src: seq<byte>, e: seq<byte>, e1: seq<byte>, e2: seq<byte>, f: seq<byte>)
    requires Fitting(src) && Opens(c, src, e)
    requires SameOutside(e1, e, PAYLOAD_DIGEST, PAYLOAD_DIGEST + 64)
    requires SameOutside(e2, e1, STAGE2_DIGEST, STAGE2_HMAC + 32)
    requires SameOutside(f, e2, BCH_DIGEST, BCH_DIGEST + 64)
    ensures f[..BCH_DIGEST] == src[..BCH_DIGEST]
    ensures f[BCH_START..STAGE2_DIGEST] == src[BCH_START..STAGE2_DIGEST]
    ensures f[STAGE2_HMAC + 32..TAG_START] == src[STAGE2_HMAC + 32..TAG_START]
    ensures f[PAYLOAD_DIGEST + 64..PAYLOAD_START] == src[PAYLOAD_DIGEST + 64..PAYLOAD_START]
    ensures f[PAYLOAD_START + PayloadSize(src)..] == src[PAYLOAD_START + PayloadSize(src)..]
    ensures f[IV_START..IV_START + 12] == e[IV_START..IV_START + 12]
    ensures f[AAD_START..TAG_START] == e[AAD_START..TAG_START]
    ensures f[TAG_START..TAG_START + 16] == e[TAG_START..TAG_START + 16]
  {
    hide PayloadSize, Payload;
    var end := PAYLOAD_START + PayloadSize(src);
    assert forall i :: 0 <= i < TAG_START ==> e[..TAG_START][i] == e[i] && src[..TAG_START][i] == src[i];
    assert forall i :: PAYLOAD_DIGEST <= i < PAYLOAD_START ==>
      e[PAYLOAD_DIGEST..PAYLOAD_START][i - PAYLOAD_DIGEST] == e[i]
      && src[PAYLOAD_DIGEST..PAYLOAD_START][i - PAYLOAD_DIGEST] == src[i];
    assert forall i :: end <= i < |src| ==> e[end..][i - end] == e[i] && src[end..][i - end] == src[i];
  }

  /** The finished image is sealed. */
  lemma SealsImage(c: Crypto, src: seq<byte>)
    requires ValidCrypto(c) && Sealable(src)
    ensures Fitting(Encrypted(c, src)) && Fitting(WithPayloadDigest(c, Encrypted(c, src)))
    ensures Sealed(c, src, WithBch(c, WithStage2(c, WithPayloadDigest(c, Encrypted(c, src)))))
  {
    EncryptedOpens(c, src);
    var e := Encrypted(c, src);
    var e1 := WithPayloadDigest(c, e);
    var e2 := WithStage2(c, e1);
    PayloadDigestIsLocal(c, e);
    SameSize(e1, e, PAYLOAD_DIGEST, PAYLOAD_DIGEST + 64);
    Stage2IsLocal(c, e1);
    BchIsLocal(c, e2);
    hide Encrypted, WithPayloadDigest, WithStage2, WithBch, ValidCrypto, SameOutside, PayloadSize, Payload;
    DigestsAgree(c, e, e1, e2, WithBch(c, e2));
    RestUnchanged(c, src, e, e1, e2, WithBch(c, e2));
  }
}
