/**
  The byte-level logic of `crypto`: PKCS#7 padding and its two removal
  routines, the XOR folding of keys, the length and padding discipline of
  the ECB helpers around an abstract block cipher, and `Xor` over several
  arguments. The ciphers themselves (AES, DES) are parameters: the model
  only knows that they map a block to a block of the same size, and, for
  the round trips, that decryption undoes encryption under the same key.
 */
module Crypto {
  import opened Wrappers
  import opened GoInt

  // Panic messages, spelled as the code or the Go runtime spells them.
  const RepeatMessage := "bytes: negative Repeat count"  // the runtime panic of `bytes.Repeat` with a negative count
  const IndexMessage := "index out of range"  // the runtime panic of an out-of-range index
  const SliceMessage := "slice bounds out of range"  // the runtime panic of out-of-range slice bounds
  const AesKeyLengthMessage := "aes: invalid key length (must be 16, 24, or 32 bytes)"  // crypto.go:26
  const AesBlockMessage := "aes: encrypted data length is not a multiple of block size"  // crypto.go:62
  const PaddingMessage := "aes: invalid PKCS#7 padding"  // crypto.go:80
  const PaddingContentMessage := "aes: invalid PKCS#7 padding content"  // crypto.go:84
  const DesLengthMessage := "des: invalid encrypted data length"  // crypto.go:389
  const DesKeyMessage := "des: key length must be 8 bytes"  // crypto.go:404
  const NilDataMessage := "data is nil"  // basic.go:153

  type Bytes = seq<bv8>

  const AesBlockSize := 16
  const DesBlockSize := 8

  /** Go's `byte(n)`: the low eight bits of `n`, assembled from its two
      nibbles. */
  function ByteOf(n: int): (b: bv8)
    ensures b as int == n % 256
    ensures 0 <= n < 256 ==> b as int == n
  {
    var m := n % 256;
    Nibbles(m);
    JoinNibbles(m / 16, m % 16)
  }

  /** The byte whose high nibble is `h` and low nibble is `l`. */
  function JoinNibbles(h: int, l: int): (b: bv8)
    requires 0 <= h < 16 && 0 <= l < 16
    ensures b as int == 16 * h + l
  {
    NibbleFits(h);
    NibbleFits(l);
    NibblesJoin(h as bv8, l as bv8);
    ((h as bv8) << 4) | (l as bv8)
  }

  lemma Nibbles(m: int)
    requires 0 <= m < 256
    ensures 0 <= m / 16 < 16 && 0 <= m % 16 < 16 && m == 16 * (m / 16) + m % 16
  {
  }

  lemma NibbleFits(m: int)
    requires 0 <= m < 16
    ensures (m as bv8) as int == m
  {
  }

  lemma NibblesJoin(h: bv8, l: bv8)
    requires h < 16 && l < 16
    ensures ((h << 4) | l) as int == 16 * (h as int) + l as int
  {
  }

  /** `n` copies of `b`. */
  function Fill(b: bv8, n: nat): (r: Bytes)
    ensures |r| == n && forall i :: 0 <= i < n ==> r[i] == b
  {
    seq(n, _ => b)
  }

  // ---------------------------------------------------------------------
  // Padding
  // ---------------------------------------------------------------------

  /** `pkcs7Padding` (crypto_internal.go:45-49), which `pkcs5Padding`
      (crypto_internal.go:59-63) repeats word for word: `k = blockSize -
      len mod blockSize` bytes, each equal to `byte(k)`. A zero block size
      divides by zero and a negative one asks for a negative repeat count;
      both panic. */
  function Pkcs7Padding(src: Bytes, blockSize: int): (r: Outcome<Bytes>)
    ensures r.Panic? <==> blockSize <= 0
    ensures blockSize == 0 ==> r == Panic(DivideMessage)
    ensures blockSize < 0 ==> r == Panic(RepeatMessage)
    ensures r.Returns? ==>
      var k := blockSize - |src| % blockSize;
      1 <= k <= blockSize
      && |r.value| == |src| + k && |r.value| % blockSize == 0
      && r.value[..|src|] == src
      && forall i :: |src| <= i < |r.value| ==> r.value[i] == ByteOf(k)
  {
    if blockSize == 0 then Panic(DivideMessage)
    else if blockSize < 0 then Panic(RepeatMessage)
    else
      var k := blockSize - |src| % blockSize;
      NextMultiple(|src|, blockSize);
      Returns(src + Fill(ByteOf(k), k))
  }

  /** `len + (n - len mod n)` is a multiple of `n`. */
  lemma NextMultiple(len: nat, n: int)
    requires n > 0
    ensures (len + (n - len % n)) % n == 0
  {
    var q := len / n;
    assert len == q * n + len % n;
    DivModUnique(len + (n - len % n), n, q + 1, 0);
  }

  /** `pkcs7UnPadding` (crypto_internal.go:52-56): drops as many trailing
      bytes as the last byte says, without looking at them. Empty input
      indexes out of range and a count above the length slices out of
      range; both panic. */
  function Pkcs7UnPadding(src: Bytes): (r: Outcome<Bytes>)
    ensures r.Panic? <==> |src| == 0 || src[|src| - 1] as int > |src|
    ensures r.Returns? ==> r.value == src[..|src| - src[|src| - 1] as int]
  {
    if |src| == 0 then Panic(IndexMessage)
    else
      var n := src[|src| - 1] as int;
      if n > |src| then Panic(SliceMessage) else Returns(src[..|src| - n])
  }

  /** `pkcs5UnPadding` (crypto_internal.go:66-76): like `pkcs7UnPadding`
      but answers nil instead of panicking, and also on a zero pad count. */
  function Pkcs5UnPadding(data: Bytes): (r: Option<Bytes>)
    ensures r.None? <==> |data| == 0 || data[|data| - 1] == 0 || data[|data| - 1] as int > |data|
    ensures r.Some? ==> |r.value| < |data| && r.value == data[..|r.value|]
  {
    if |data| == 0 then None
    else
      var n := data[|data| - 1] as int;
      if n == 0 || n > |data| then None else Some(data[..|data| - n])
  }

  /** For block sizes whose pad count fits in a byte, removing the padding
      gives back the original, with either removal routine. */
  lemma PaddingRoundTrip(src: Bytes, blockSize: int)
    requires 1 <= blockSize <= 255
    ensures Pkcs7Padding(src, blockSize).Returns?
    ensures Pkcs7UnPadding(Pkcs7Padding(src, blockSize).value) == Returns(src)
    ensures Pkcs5UnPadding(Pkcs7Padding(src, blockSize).value) == Some(src)
  {
    var p := Pkcs7Padding(src, blockSize).value;
    var k := blockSize - |src| % blockSize;
    assert p[|p| - 1] == ByteOf(k) && p[|p| - 1] as int == k;
    assert p[..|p| - k] == p[..|src|];
  }

  /** Wherever `pkcs5UnPadding` succeeds, `pkcs7UnPadding` gives the same
      answer; wherever `pkcs7UnPadding` panics, `pkcs5UnPadding` answers nil.
      The two differ only on a zero pad count, which `pkcs7UnPadding`
      accepts by returning its input. */
  lemma UnPaddingAgree(data: Bytes)
    ensures Pkcs5UnPadding(data).Some? ==> Pkcs7UnPadding(data) == Returns(Pkcs5UnPadding(data).value)
    ensures Pkcs7UnPadding(data).Panic? ==> Pkcs5UnPadding(data).None?
    ensures Pkcs7UnPadding(data).Returns? && Pkcs5UnPadding(data).None? ==> Pkcs7UnPadding(data) == Returns(data)
  {
    assert data[..|data|] == data;
  }

  /** `pkcs7UnPadding` checks nothing but the count: a block ending in 1
      that was never padded loses its last byte, and a lone zero byte comes
      back untouched. */
  lemma Pkcs7UnPaddingDoesNotValidate()
    ensures Pkcs7UnPadding([7, 9, 1]) == Returns([7, 9])
    ensures Pkcs7UnPadding([0]) == Returns([0])
    ensures Pkcs7UnPadding([3, 3]).Panic?
  {
    var a: Bytes := [7, 9, 1];
    assert a[..2] == [7, 9];
    var z: Bytes := [0];
    assert z[..1] == z;
  }

  /** The removal done inline by `AesEcbDecrypt` (crypto.go:75-87): the
      count must lie in 1..blockSize and every counted byte must equal it.
      The caller has already made the input a multiple of the block size. */
  function StrictUnPadding(data: Bytes, blockSize: nat): (r: Outcome<Bytes>)
    requires blockSize > 0 && |data| % blockSize == 0
    ensures |data| == 0 ==> r == Returns([])
    ensures |data| > 0 ==>
      (r.Returns? <==> 1 <= data[|data| - 1] as int <= blockSize && PadBytesAre(data, data[|data| - 1] as int))
    ensures r.Returns? && |data| > 0 ==>
      data[|data| - 1] as int <= |data| && r.value == data[..|data| - data[|data| - 1] as int]
    ensures r.Returns? ==> |r.value| < |data| || |data| == 0
  {
    if |data| == 0 then Returns([])
    else
      var n := data[|data| - 1] as int;
      if n == 0 || n > blockSize then Panic(PaddingMessage)
      else
        ModShiftDown(|data|, blockSize);
        if !PadBytesAre(data, n) then Panic(PaddingContentMessage)
        else Returns(data[..|data| - n])
  }

  /** The last `n` bytes all equal `n`. */
  predicate PadBytesAre(data: Bytes, n: nat) {
    forall i :: 0 <= i < |data| && |data| - n <= i ==> data[i] as int == n
  }

  /** The inline check is stricter than `pkcs7UnPadding`: whatever
      non-empty input it accepts, `pkcs7UnPadding` maps to the same bytes.
      On empty input it answers nil where `pkcs7UnPadding` panics. */
  lemma StrictIsStricter(data: Bytes, blockSize: nat)
    requires blockSize > 0 && |data| % blockSize == 0
    ensures |data| > 0 && StrictUnPadding(data, blockSize).Returns? ==>
      Pkcs7UnPadding(data) == StrictUnPadding(data, blockSize)
    ensures |data| == 0 ==> StrictUnPadding(data, blockSize).Returns? && Pkcs7UnPadding(data).Panic?
  {
  }

  // ---------------------------------------------------------------------
  // Key folding
  // ---------------------------------------------------------------------

  /** The XOR of the key bytes at the offsets congruent to `j` modulo
      `size`. */
  function Column(key: Bytes, size: nat, j: nat): bv8
    requires size > 0
    decreases |key|
  {
    if |key| == 0 then 0
    else
      var n := |key| - 1;
      if n % size == j then Column(key[..n], size, j) ^ key[n] else Column(key[..n], size, j)
  }

  /** The folded key: byte `j` is the XOR of every key byte whose offset
      is congruent to `j` modulo `size`. */
  function KeyFold(key: Bytes, size: nat): (r: Bytes)
    requires size > 0 || |key| == 0
    ensures |r| == size
  {
    seq(size, j requires 0 <= j < size => Column(key, size, j))
  }

  /** A key no longer than `size` folds to itself padded with zero bytes. */
  lemma {:induction false} ColumnShort(key: Bytes, size: nat, j: nat)
    requires |key| <= size && j < size
    ensures Column(key, size, j) == if j < |key| then key[j] else 0
    decreases |key|
  {
    if |key| > 0 {
      var n := |key| - 1;
      assert n % size == n;
      ColumnShort(key[..n], size, j);
    }
  }

  lemma KeyFoldShort(key: Bytes, size: nat)
    requires |key| <= size && (size > 0 || |key| == 0)
    ensures KeyFold(key, size) == key + Fill(0, size - |key|)
  {
    forall j | 0 <= j < size
      ensures KeyFold(key, size)[j] == (key + Fill(0, size - |key|))[j]
    {
      ColumnShort(key, size, j);
    }
  }

  /** `generateAesKey` (crypto_internal.go:21-30): copy the key into `size`
      bytes, then XOR each further block of the key onto them. A zero size
      with a non-empty key would never leave the outer loop. */
  method GenerateKey(key: Bytes, size: nat) returns (genKey: Bytes)
    requires size > 0 || |key| == 0
    ensures genKey == KeyFold(key, size)
  {
    if |key| <= size {
      genKey := key + Fill(0, size - |key|);
      KeyFoldShort(key, size);
      return;
    }
    genKey := key[..size];
    forall j | 0 <= j < size
      ensures genKey[j] == Column(key[..size], size, j)
    {
      ColumnShort(key[..size], size, j);
    }
    var i := size;
    assert i % size == 0;
    while i < |key|
      invariant size <= i <= |key| && |genKey| == size
      invariant i < |key| ==> i % size == 0
      invariant forall j :: 0 <= j < size ==> genKey[j] == Column(key[..i], size, j)
      decreases |key| - i
    {
      var start := i;
      var j := 0;
      while j < size && i < |key|
        invariant 0 <= j <= size && i == start + j && i <= |key| && |genKey| == size
        invariant forall t :: 0 <= t < size ==> genKey[t] == Column(key[..i], size, t)
        decreases size - j
      {
        BlockOffset(start, j, size);
        assert key[..i + 1][..i] == key[..i];
        genKey := genKey[j := genKey[j] ^ key[i]];
        j, i := j + 1, i + 1;
      }
      BlockOffset(start, size, size);
    }
    assert key[..i] == key;
  }

  lemma BlockOffset(start: int, j: int, size: int)
    requires size > 0 && start >= 0 && start % size == 0 && 0 <= j <= size
    ensures j < size ==> (start + j) % size == j
    ensures (start + size) % size == 0
  {
    var q := start / size;
    assert start == q * size;
    DivModUnique(start + size, size, q + 1, 0);
    if j < size {
      DivModUnique(start + j, size, q, j);
    }
  }

  /** `generateDesKey` (crypto_internal.go:33-42): the same folding into
      eight bytes. */
  method GenerateDesKey(key: Bytes) returns (genKey: Bytes)
    ensures |genKey| == DesBlockSize
    ensures forall j :: 0 <= j < DesBlockSize ==> genKey[j] == Column(key, DesBlockSize, j)
  {
    genKey := GenerateKey(key, DesBlockSize);
  }

  /** `isAesKeyLengthValid` (crypto_internal.go:79-81). */
  predicate IsAesKeyLengthValid(n: int) {
    n == 16 || n == 24 || n == 32
  }

  // ---------------------------------------------------------------------
  // ECB around an abstract block cipher
  // ---------------------------------------------------------------------

  /** A block cipher: encryption and decryption of `size`-byte blocks
      under a key. */
  datatype BlockCipher = BlockCipher(size: nat, encrypt: (Bytes, Bytes) -> Bytes, decrypt: (Bytes, Bytes) -> Bytes)
  {
    /** Blocks map to blocks of the same size. */
    ghost predicate Valid() {
      size > 0
      && (forall k, b :: |b| == size ==> |encrypt(k, b)| == size)
      && (forall k, b :: |b| == size ==> |decrypt(k, b)| == size)
    }

    /** Decryption undoes encryption under the same key. */
    ghost predicate Invertible() {
      forall k, b :: |b| == size ==> decrypt(k, encrypt(k, b)) == b
    }

    function Apply(forward: bool, key: Bytes, block: Bytes): (r: Bytes)
      requires Valid() && |block| == size
      ensures |r| == size
    {
      if forward then encrypt(key, block) else decrypt(key, block)
    }
  }

  /** The ECB loops of crypto.go (lines 45-47 and 70-72): each block
      in turn through the cipher. */
  function Ecb(c: BlockCipher, forward: bool, key: Bytes, s: Bytes): (r: Bytes)
    requires c.Valid() && |s| % c.size == 0
    ensures |r| == |s|
    decreases |s|
  {
    if |s| == 0 then []
    else
      ModShiftDown(|s|, c.size);
      c.Apply(forward, key, s[..c.size]) + Ecb(c, forward, key, s[c.size..])
  }

  lemma ModShiftDown(i: nat, n: nat)
    requires n > 0 && i > 0 && i % n == 0
    ensures i >= n && (i - n) % n == 0
  {
    var q := i / n;
    assert i == q * n;
    if q <= 0 {
      assert false;
    }
    DivModUnique(i - n, n, q - 1, 0);
  }

  /** Decrypting the blocks undoes encrypting them. */
  lemma {:induction false} EcbRoundTrip(c: BlockCipher, key: Bytes, s: Bytes)
    requires c.Valid() && c.Invertible() && |s| % c.size == 0
    ensures Ecb(c, false, key, Ecb(c, true, key, s)) == s
    decreases |s|
  {
    if |s| > 0 {
      ModShiftDown(|s|, c.size);
      var head := c.encrypt(key, s[..c.size]);
      var e := Ecb(c, true, key, s);
      assert e == head + Ecb(c, true, key, s[c.size..]);
      assert e[..c.size] == head && e[c.size..] == Ecb(c, true, key, s[c.size..]);
      EcbRoundTrip(c, key, s[c.size..]);
      assert s == s[..c.size] + s[c.size..];
    }
  }

  /** `AesEcbEncrypt` (crypto.go:24-50): the key length must be 16, 24 or
      32; the data is padded as by `pkcs7Padding` with block size 16 and
      every block is encrypted under the folded key, which for these key
      lengths is the key itself. */
  function AesEcbEncrypt(data: Bytes, key: Bytes, aes: BlockCipher): (r: Outcome<Bytes>)
    requires aes.Valid() && aes.size == AesBlockSize
    ensures r.Panic? <==> !IsAesKeyLengthValid(|key|)
    ensures r.Returns? ==>
      |r.value| == |data| + (AesBlockSize - |data| % AesBlockSize)
      && |r.value| % AesBlockSize == 0 && |r.value| > |data|
  {
    if !IsAesKeyLengthValid(|key|) then Panic(AesKeyLengthMessage)
    else
      var padded := Pkcs7Padding(data, AesBlockSize).value;
      Returns(Ecb(aes, true, KeyFold(key, |key|), padded))
  }

  /** `AesEcbDecrypt` (crypto.go:53-88): the key length must be valid and
      the input a multiple of 16 bytes; empty input gives nil, otherwise the
      decrypted padding is checked strictly and removed. */
  function AesEcbDecrypt(encrypted: Bytes, key: Bytes, aes: BlockCipher): (r: Outcome<Bytes>)
    requires aes.Valid() && aes.size == AesBlockSize
    ensures !IsAesKeyLengthValid(|key|) || |encrypted| % AesBlockSize != 0 ==> r.Panic?
    ensures IsAesKeyLengthValid(|key|) && |encrypted| == 0 ==> r == Returns([])
    ensures r.Returns? ==> |r.value| < |encrypted| || |encrypted| == 0
    ensures IsAesKeyLengthValid(|key|) && |encrypted| % AesBlockSize == 0 && |encrypted| > 0 ==>
      var d := Ecb(aes, false, KeyFold(key, |key|), encrypted);
      && (r.Returns? <==> 1 <= d[|d| - 1] as int <= AesBlockSize && PadBytesAre(d, d[|d| - 1] as int))
      && (r.Returns? ==> r.value == d[..|d| - d[|d| - 1] as int])
  {
    if !IsAesKeyLengthValid(|key|) then Panic(AesKeyLengthMessage)
    else if |encrypted| % AesBlockSize != 0 then Panic(AesBlockMessage)
    else
      var decrypted := Ecb(aes, false, KeyFold(key, |key|), encrypted);
      assert |decrypted| == |encrypted|;
      StrictUnPadding(decrypted, AesBlockSize)
  }

  /** With a cipher whose decryption undoes its encryption, AES-ECB
      decryption gives back the plaintext under any accepted key. */
  lemma AesEcbRoundTrip(data: Bytes, key: Bytes, aes: BlockCipher)
    requires aes.Valid() && aes.Invertible() && aes.size == AesBlockSize
    requires IsAesKeyLengthValid(|key|)
    ensures AesEcbEncrypt(data, key, aes).Returns?
    ensures AesEcbDecrypt(AesEcbEncrypt(data, key, aes).value, key, aes) == Returns(data)
  {
    var padded := Pkcs7Padding(data, AesBlockSize).value;
    EcbRoundTrip(aes, KeyFold(key, |key|), padded);
    StrictPaddingRoundTrip(data, AesBlockSize);
  }

  /** The strict check accepts what `pkcs7Padding` wrote and removes
      exactly the padding. */
  lemma StrictPaddingRoundTrip(src: Bytes, blockSize: int)
    requires 1 <= blockSize <= 255
    ensures Pkcs7Padding(src, blockSize).Returns?
    ensures StrictUnPadding(Pkcs7Padding(src, blockSize).value, blockSize) == Returns(src)
  {
    var p := Pkcs7Padding(src, blockSize).value;
    var k := blockSize - |src| % blockSize;
    assert p[|p| - 1] == ByteOf(k) && p[|p| - 1] as int == k;
    assert PadBytesAre(p, k);
    assert p[..|p| - k] == p[..|src|];
  }

  /** `DesEcbEncrypt` (crypto.go:363-378): no length check on the key,
      which is folded into eight bytes; `pkcs5Padding` to blocks of 8. */
  function DesEcbEncrypt(data: Bytes, key: Bytes, des: BlockCipher): (r: Bytes)
    requires des.Valid() && des.size == DesBlockSize
    ensures |r| == |data| + (DesBlockSize - |data| % DesBlockSize) && |r| % DesBlockSize == 0
  {
    Ecb(des, true, KeyFold(key, DesBlockSize), Pkcs7Padding(data, DesBlockSize).value)
  }

  /** `DesEcbDecrypt` (crypto.go:381-398): panics unless the input is a
      multiple of 8 bytes, then removes the padding with `pkcs5UnPadding`,
      so bad padding gives nil rather than a panic. */
  function DesEcbDecrypt(encrypted: Bytes, key: Bytes, des: BlockCipher): (r: Outcome<Option<Bytes>>)
    requires des.Valid() && des.size == DesBlockSize
    ensures r.Panic? <==> |encrypted| % DesBlockSize != 0
    ensures |encrypted| == 0 ==> r == Returns(None)
  {
    if |encrypted| % DesBlockSize != 0 then Panic(DesLengthMessage)
    else Returns(Pkcs5UnPadding(Ecb(des, false, KeyFold(key, DesBlockSize), encrypted)))
  }

  /** DES-ECB decryption gives back the plaintext under any key. */
  lemma DesEcbRoundTrip(data: Bytes, key: Bytes, des: BlockCipher)
    requires des.Valid() && des.Invertible() && des.size == DesBlockSize
    ensures DesEcbDecrypt(DesEcbEncrypt(data, key, des), key, des) == Returns(Some(data))
  {
    EcbRoundTrip(des, KeyFold(key, DesBlockSize), Pkcs7Padding(data, DesBlockSize).value);
    PaddingRoundTrip(data, DesBlockSize);
  }

  /** The key check that opens the DES CBC, CTR, CFB and OFB functions
      (crypto.go:403-405, 430-432, 473-475, 498-500, 525-527, 551-553,
      575-577, 602-604): the key is used as given and must be 8 bytes. */
  function DesModeKey(key: Bytes): (r: Outcome<Bytes>)
    ensures r.Panic? <==> |key| != DesBlockSize
    ensures r.Returns? ==> r.value == key && |r.value| == DesBlockSize
  {
    if |key| != DesBlockSize then Panic(DesKeyMessage) else Returns(key)
  }

  // ---------------------------------------------------------------------
  // Xor
  // ---------------------------------------------------------------------

  /** An argument of `Xor`: a string, a byte slice, or anything else. */
  datatype XorArg = Text(s: string) | Raw(b: Bytes) | Unsupported

  /** `[]byte(s)` for text whose characters are single bytes. */
  function StringBytes(s: string): (r: Bytes)
    ensures |r| == |s| && forall i :: 0 <= i < |s| ==> r[i] == ByteOf(s[i] as int)
  {
    seq(|s|, i requires 0 <= i < |s| => ByteOf(s[i] as int))
  }

  /** The XOR of byte `i` of every slice. */
  function XorAt(slices: seq<Bytes>, i: nat): bv8
    requires forall k :: 0 <= k < |slices| ==> i < |slices[k]|
  {
    if |slices| == 0 then 0 else XorAt(slices[..|slices| - 1], i) ^ slices[|slices| - 1][i]
  }

  /** `Xor` (basic.go:151-179): panics with no arguments, gives nil when
      an argument is neither a string nor a byte slice, and otherwise
      XORs the arguments byte by byte up to the shortest one. */
  method Xor(data: seq<XorArg>) returns (r: Outcome<Option<Bytes>>)
    ensures r.Panic? <==> |data| == 0
    ensures r == Returns(None) <==> |data| > 0 && exists k :: 0 <= k < |data| && data[k].Unsupported?
    ensures r.Returns? && r.value.Some? ==>
      var out := r.value.value;
      var slices := seq(|data|, k requires 0 <= k < |data| => ArgBytes(data[k]));
      (forall k :: 0 <= k < |data| ==> |out| <= |slices[k]|)
      && (exists k :: 0 <= k < |data| && |out| == |slices[k]|)
      && forall i :: 0 <= i < |out| ==> out[i] == XorAt(slices, i)
  {
    if |data| == 0 {
      return Panic(NilDataMessage);
    }
    var slices: seq<Bytes> := [];
    var minLen := -1;
    for k := 0 to |data|
      invariant |slices| == k
      invariant forall t :: 0 <= t < k ==> !data[t].Unsupported? && slices[t] == ArgBytes(data[t])
      invariant k == 0 <==> minLen == -1
      invariant k > 0 ==> (forall t :: 0 <= t < k ==> minLen <= |slices[t]|) && exists t :: 0 <= t < k && minLen == |slices[t]|
    {
      if data[k].Unsupported? {
        return Returns(None);
      }
      slices := slices + [ArgBytes(data[k])];
      if minLen == -1 || |slices[k]| < minLen {
        minLen := |slices[k]|;
      }
    }
    assert slices == seq(|data|, k requires 0 <= k < |data| => ArgBytes(data[k]));
    var out: Bytes := Fill(0, minLen);
    for i := 0 to minLen
      invariant |out| == minLen
      invariant forall t :: 0 <= t < i ==> out[t] == XorAt(slices, t)
    {
      var acc := XorColumn(slices, i);
      out := out[i := acc];
    }
    return Returns(Some(out));
  }

  /** The inner loop of basic.go:175-177: byte `i` of every slice XORed
      together. */
  method XorColumn(slices: seq<Bytes>, i: nat) returns (acc: bv8)
    requires forall k :: 0 <= k < |slices| ==> i < |slices[k]|
    ensures acc == XorAt(slices, i)
  {
    acc := 0;
    for k := 0 to |slices|
      invariant acc == XorAt(slices[..k], i)
    {
      assert slices[..k + 1][..k] == slices[..k];
      acc := acc ^ slices[k][i];
    }
    assert slices[..|slices|] == slices;
  }

  /** The bytes of a supported argument. */
  function ArgBytes(a: XorArg): Bytes {
    match a
    case Text(s) => StringBytes(s)
    case Raw(b) => b
    case Unsupported => []
  }

  /** XOR over a concatenation splits into the XOR of the two parts. */
  lemma {:induction false} XorAtAppend(a: seq<Bytes>, b: seq<Bytes>, i: nat)
    requires forall k :: 0 <= k < |a| ==> i < |a[k]|
    requires forall k :: 0 <= k < |b| ==> i < |b[k]|
    ensures forall k :: 0 <= k < |a + b| ==> i < |(a + b)[k]|
    ensures XorAt(a + b, i) == XorAt(a, i) ^ XorAt(b, i)
    decreases |b|
  {
    if |b| > 0 {
      var b' := b[..|b| - 1];
      assert (a + b)[..|a + b| - 1] == a + b';
      assert (a + b)[|a + b| - 1] == b[|b| - 1];
      XorAtAppend(a, b', i);
      assert XorAt(a + b, i) == (XorAt(a, i) ^ XorAt(b', i)) ^ b[|b| - 1][i];
    } else {
      assert a + b == a;
    }
  }

  /** The result does not depend on the order of the arguments, and an
      argument XORed with itself cancels. */
  lemma XorAtOrder(a: seq<Bytes>, b: seq<Bytes>, i: nat)
    requires forall k :: 0 <= k < |a| ==> i < |a[k]|
    requires forall k :: 0 <= k < |b| ==> i < |b[k]|
    ensures forall k :: 0 <= k < |a + b| ==> i < |(a + b)[k]|
    ensures forall k :: 0 <= k < |b + a| ==> i < |(b + a)[k]|
    ensures XorAt(a + b, i) == XorAt(b + a, i)
    ensures a == b ==> XorAt(a + b, i) == 0
  {
    XorAtAppend(a, b, i);
    XorAtAppend(b, a, i);
  }
}
