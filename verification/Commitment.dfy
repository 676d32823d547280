/** The commitment of an L1 batch (types/src/commitment.rs). */
module Commitment {
  import opened Wrappers
  import opened Bytes
  import opened TreeTypes
  import opened LeafEnumeration

  type Digest = s: seq<byte> | |s| == 32 witness seq(32, i => 0)

  /** The trait `SerializeCommitment`: the size of a value, and its bytes. */
  datatype Encoding<!I> = Encoding(size: nat, encode: I -> seq<byte>)

  function InitialBytes(w: InitialStorageWrite): seq<byte> {
    ToLE(w.key, 32) + w.value
  }

  function RepeatedBytes(w: RepeatedStorageWrite): seq<byte> {
    ToBE(w.index, 8) + w.value
  }

  const INITIAL: Encoding<InitialStorageWrite> := Encoding(64, InitialBytes)
  const REPEATED: Encoding<RepeatedStorageWrite> := Encoding(40, RepeatedBytes)

  /** The widths of the source's types. */
  predicate InitialFits(w: InitialStorageWrite) {
    w.index < LIMB && w.key < U256_LIMIT && |w.value| == 32
  }

  predicate RepeatedFits(w: RepeatedStorageWrite) {
    w.index < LIMB && |w.value| == 32
  }

  ghost predicate Encodes<I>(e: Encoding<I>, values: seq<I>) {
    e.size > 0 && forall i :: 0 <= i < |values| ==> |e.encode(values[i])| == e.size
  }

  // ---------------------------------------------------------------- Filling the buffer

  function Chunks<I>(e: Encoding<I>, values: seq<I>): seq<byte> {
    if values == [] then [] else Chunks(e, values[..|values| - 1]) + e.encode(values[|values| - 1])
  }

  /** The length, truncated to 32 bits, then the values. */
  function Serialized<I>(e: Encoding<I>, values: seq<I>): seq<byte> {
    ToBE(|values| % U32_LIMIT, 4) + Chunks(e, values)
  }

  lemma {:induction false} ChunksSize<I>(e: Encoding<I>, values: seq<I>)
    requires Encodes(e, values)
    ensures |Chunks(e, values)| == |values| * e.size
  {
    if values != [] {
      ChunksSize(e, values[..|values| - 1]);
      assert |values| * e.size == (|values| - 1) * e.size + e.size;
    }
  }

  method CopyFromSlice(buffer: array<byte>, offset: nat, bytes: seq<byte>)
    requires offset + |bytes| <= buffer.Length
    modifies buffer
    ensures buffer[..offset + |bytes|] == old(buffer[..offset]) + bytes
    ensures buffer[offset + |bytes|..] == old(buffer[offset + |bytes|..])
  {
    for i := 0 to |bytes|
      invariant forall j :: 0 <= j < buffer.Length ==>
        buffer[j] == if offset <= j < offset + i then bytes[j - offset] else old(buffer[j])
    {
      buffer[offset + i] := bytes[i];
    }
  }

  /** Room for one more chunk, and what the list looks like with it. */
  lemma {:induction false} NextChunk<I>(e: Encoding<I>, values: seq<I>, v: nat)
    requires Encodes(e, values) && v < |values|
    ensures |e.encode(values[v])| == e.size && v * e.size + e.size == (v + 1) * e.size <= |values| * e.size
    ensures Chunks(e, values[..v + 1]) == Chunks(e, values[..v]) + e.encode(values[v])
  {
    TakeNext(values, v);
    assert (v + 1) * e.size + (|values| - v - 1) * e.size == |values| * e.size;
  }

  /** `serialize_commitments`. */
  method SerializeCommitments<I>(e: Encoding<I>, values: seq<I>) returns (input: array<byte>)
    requires Encodes(e, values)
    ensures fresh(input) && input[..] == Serialized(e, values)
  {
    hide ToBE;
    ghost var header := ToBE(|values| % U32_LIMIT, 4);
    input := new byte[|values| * e.size + 4](i => 0);
    CopyFromSlice(input, 0, ToBE(|values| % U32_LIMIT, 4));
    for v := 0 to |values|
      invariant 4 + v * e.size <= input.Length
      invariant input[..4 + v * e.size] == header + Chunks(e, values[..v])
    {
      NextChunk(e, values, v);
      CopyFromSlice(input, 4 + v * e.size, e.encode(values[v]));
    }
    TakeAll(values);
    TakeAll(input[..]);
  }

  // ---------------------------------------------------------------- Injectivity

  /** Two lists have the same bytes value by value. */
  ghost predicate SameBytes<I>(e: Encoding<I>, a: seq<I>, b: seq<I>) {
    |a| == |b| && forall i :: 0 <= i < |a| ==> e.encode(a[i]) == e.encode(b[i])
  }

  lemma {:induction false} ChunksInjective<I>(e: Encoding<I>, a: seq<I>, b: seq<I>)
    requires Encodes(e, a) && Encodes(e, b) && |a| == |b| && Chunks(e, a) == Chunks(e, b)
    ensures SameBytes(e, a, b)
  {
    if a != [] {
      var n := |a| - 1;
      ChunksSize(e, a[..n]);
      ChunksSize(e, b[..n]);
      var x, y := Chunks(e, a), Chunks(e, b);
      assert x[..n * e.size] == Chunks(e, a[..n]) && y[..n * e.size] == Chunks(e, b[..n]);
      assert x[n * e.size..] == e.encode(a[n]) && y[n * e.size..] == e.encode(b[n]);
      ChunksInjective(e, a[..n], b[..n]);
      forall i | 0 <= i < |a| ensures e.encode(a[i]) == e.encode(b[i]) {
        assert i < n ==> a[..n][i] == a[i] && b[..n][i] == b[i];
      }
    }
  }

  /** The serialized lists are equal exactly if the values are. The size of the buffer alone shows
      the number of values, so this needs no bound on it. */
  lemma {:induction false} SerializedInjective<I>(e: Encoding<I>, a: seq<I>, b: seq<I>)
    requires Encodes(e, a) && Encodes(e, b)
    ensures Serialized(e, a) == Serialized(e, b) <==> SameBytes(e, a, b)
  {
    ChunksSize(e, a);
    ChunksSize(e, b);
    if Serialized(e, a) == Serialized(e, b) {
      SameProduct(|a|, |b|, e.size);
      assert Serialized(e, a)[4..] == Chunks(e, a) && Serialized(e, b)[4..] == Chunks(e, b);
      ChunksInjective(e, a, b);
    }
    if SameBytes(e, a, b) {
      ChunksOfSameBytes(e, a, b);
    }
  }

  lemma {:induction false} ChunksOfSameBytes<I>(e: Encoding<I>, a: seq<I>, b: seq<I>)
    requires SameBytes(e, a, b)
    ensures Chunks(e, a) == Chunks(e, b)
  {
    if a != [] {
      ChunksOfSameBytes(e, a[..|a| - 1], b[..|b| - 1]);
    }
  }

  lemma HeaderFirst<I>(e: Encoding<I>, a: seq<I>)
    requires |a| < U32_LIMIT
    ensures |Serialized(e, a)| >= 4 && Serialized(e, a)[..4] == ToBE(|a|, 4)
  {
    hide ToBE, Chunks;
    assert |a| % U32_LIMIT == |a|;
  }

  lemma PrefixShowsCount<I>(e: Encoding<I>, a: seq<I>, b: seq<I>)
    requires |a| < U32_LIMIT && |b| < U32_LIMIT && Serialized(e, a) <= Serialized(e, b)
    ensures |a| == |b|
  {
    Pow256Values();
    HeaderFirst(e, a);
    HeaderFirst(e, b);
    EncodeInjective(|a|, |b|, 4);
  }

  /** With the length in front, no serialized list begins another one, as long as the length fits. */
  lemma {:induction false} SerializedPrefixFree<I>(e: Encoding<I>, a: seq<I>, b: seq<I>)
    requires Encodes(e, a) && Encodes(e, b) && |a| < U32_LIMIT && |b| < U32_LIMIT
    requires Serialized(e, a) <= Serialized(e, b)
    ensures SameBytes(e, a, b)
  {
    PrefixShowsCount(e, a, b);
    ChunksSize(e, a);
    ChunksSize(e, b);
    TakeAll(Serialized(e, b));
    SerializedInjective(e, a, b);
  }

  lemma {:induction false} ChunksPrefix<I>(e: Encoding<I>, values: seq<I>, n: nat)
    requires Encodes(e, values) && n <= |values|
    ensures n * e.size <= |Chunks(e, values)| && Chunks(e, values)[..n * e.size] == Chunks(e, values[..n])
  {
    ChunksSize(e, values[..n]);
    if n < |values| {
      ChunksPrefix(e, values[..|values| - 1], n);
      assert values[..|values| - 1][..n] == values[..n];
    } else {
      TakeAll(values);
      TakeAll(Chunks(e, values));
    }
  }

  lemma HeaderAndRest<I>(e: Encoding<I>, a: seq<I>, b: seq<I>)
    ensures Serialized(e, a) <= Serialized(e, b)
       <==> |a| % U32_LIMIT == |b| % U32_LIMIT && Chunks(e, a) <= Chunks(e, b)
  {
    Pow256Values();
    var x, y := Serialized(e, a), Serialized(e, b);
    hide ToBE, Chunks;
    assert x[..4] == ToBE(|a| % U32_LIMIT, 4) && x[4..] == Chunks(e, a);
    assert y[..4] == ToBE(|b| % U32_LIMIT, 4) && y[4..] == Chunks(e, b);
    if x <= y {
      assert x[..4] == y[..4] && x[4..] == y[4..][..|x| - 4];
      EncodeInjective(|a| % U32_LIMIT, |b| % U32_LIMIT, 4);
    }
    if |a| % U32_LIMIT == |b| % U32_LIMIT && Chunks(e, a) <= Chunks(e, b) {
      assert x == y[..|x|];
    }
  }

  /** Exactly when a serialized list begins another one: the other list goes on with a multiple of
      2^32 further values. */
  lemma {:induction false} SerializedPrefix<I>(e: Encoding<I>, a: seq<I>, b: seq<I>)
    requires Encodes(e, a) && Encodes(e, b)
    ensures Serialized(e, a) <= Serialized(e, b)
       <==> |a| % U32_LIMIT == |b| % U32_LIMIT && |a| <= |b| && SameBytes(e, a, b[..|a|])
  {
    HeaderAndRest(e, a, b);
    ChunksSize(e, a);
    ChunksSize(e, b);
    if Chunks(e, a) <= Chunks(e, b) {
      if |a| > |b| {
        SmallerProduct(|b|, |a|, e.size);
      }
      ChunksPrefix(e, b, |a|);
      ChunksInjective(e, a, b[..|a|]);
    }
    if |a| <= |b| && SameBytes(e, a, b[..|a|]) {
      ChunksPrefix(e, b, |a|);
      ChunksOfSameBytes(e, a, b[..|a|]);
    }
  }

  /** So a list of 2^32 values reads like the empty list up to the end of the length. */
  lemma LengthIsTruncated<I>(e: Encoding<I>, a: seq<I>)
    requires |a| == U32_LIMIT
    ensures Serialized(e, []) <= Serialized(e, a)
  {
    HeaderAndRest(e, [], a);
  }

  /** What the bytes of an initial write show: key and value, not the index. */
  lemma {:induction false} InitialBytesInjective(v: InitialStorageWrite, w: InitialStorageWrite)
    requires InitialFits(v) && InitialFits(w)
    ensures InitialBytes(v) == InitialBytes(w) <==> v.key == w.key && v.value == w.value
  {
    if InitialBytes(v) == InitialBytes(w) {
      assert InitialBytes(v)[..32] == ToLE(v.key, 32) && InitialBytes(w)[..32] == ToLE(w.key, 32);
      assert InitialBytes(v)[32..] == v.value && InitialBytes(w)[32..] == w.value;
      KeyWidth();
      EncodeInjective(v.key, w.key, 32);
    }
  }

  lemma {:induction false} RepeatedBytesInjective(v: RepeatedStorageWrite, w: RepeatedStorageWrite)
    requires RepeatedFits(v) && RepeatedFits(w)
    ensures RepeatedBytes(v) == RepeatedBytes(w) <==> v == w
  {
    if RepeatedBytes(v) == RepeatedBytes(w) {
      assert RepeatedBytes(v)[..8] == ToBE(v.index, 8) && RepeatedBytes(w)[..8] == ToBE(w.index, 8);
      assert RepeatedBytes(v)[8..] == v.value && RepeatedBytes(w)[8..] == w.value;
      Pow256Values();
      EncodeInjective(v.index, w.index, 8);
    }
  }

  // ---------------------------------------------------------------- Where everything stands

  /** The layout of a serialized list: the length in four bytes, most significant first, then value
      by value, each in its size. */
  lemma {:induction false} SerializedPlaces<I>(e: Encoding<I>, values: seq<I>)
    requires Encodes(e, values)
    ensures var s := Serialized(e, values);
            && |s| == 4 + |values| * e.size && FromBE(s[..4]) == |values| % 0x1_0000_0000
            && forall i :: 0 <= i < |values| ==>
                 4 <= 4 + i * e.size <= 4 + i * e.size + e.size <= |s|
                 && s[4 + i * e.size..4 + i * e.size + e.size] == e.encode(values[i])
  {
    ChunksSize(e, values);
    Pow256Values();
    DecodeEncode(|values| % U32_LIMIT, 4);
    var header, chunks := ToBE(|values| % U32_LIMIT, 4), Chunks(e, values);
    var s := header + chunks;
    assert s == Serialized(e, values) && s[..4] == header;
    hide *;
    forall i | 0 <= i < |values|
      ensures 4 <= 4 + i * e.size <= 4 + i * e.size + e.size <= |s|
      ensures s[4 + i * e.size..4 + i * e.size + e.size] == e.encode(values[i])
    {
      ChunkPlace(e, values, i);
      AfterHeader(header, chunks, i * e.size, e.size);
    }
  }

  lemma AfterHeader(header: seq<byte>, rest: seq<byte>, from: nat, size: nat)
    requires from + size <= |rest|
    ensures (header + rest)[|header| + from..|header| + from + size] == rest[from..from + size]
  {
  }

  lemma {:induction false} ChunkPlace<I>(e: Encoding<I>, values: seq<I>, i: nat)
    requires Encodes(e, values) && i < |values|
    ensures i * e.size + e.size <= |Chunks(e, values)|
    ensures Chunks(e, values)[i * e.size..i * e.size + e.size] == e.encode(values[i])
  {
    NextChunk(e, values, i);
    ChunksSize(e, values);
    ChunksSize(e, values[..i]);
    ChunksPrefix(e, values, i + 1);
    hide Chunks;
    var whole, part := Chunks(e, values), Chunks(e, values[..i]);
    assert whole[..i * e.size + e.size] == part + e.encode(values[i]);
    assert whole[i * e.size..i * e.size + e.size] == whole[..i * e.size + e.size][i * e.size..];
  }

  /** An initial write: 32 bytes of the key, least significant first, then the value. */
  lemma {:induction false} InitialWritePlaces(w: InitialStorageWrite)
    requires InitialFits(w)
    ensures INITIAL.size == 64 == |INITIAL.encode(w)| && INITIAL.encode(w)[32..] == w.value
    ensures forall i :: 0 <= i < 32 ==> INITIAL.encode(w)[i] == w.key / Pow256(i) % 256
    ensures FromBE(Reversed(INITIAL.encode(w)[..32])) == w.key
  {
    hide ToBE, FromBE, Pow256;
    var s := INITIAL.encode(w);
    assert s[..32] == ToLE(w.key, 32) && s[32..] == w.value;
    KeyWidth();
    DecodeEncode(w.key, 32);
    assert Reversed(Reversed(ToBE(w.key, 32))) == ToBE(w.key, 32);
    forall i: nat | i < 32 ensures s[i] == w.key / Pow256(i) % 256 {
      BytePlaces(w.key, 32, i);
    }
  }

  /** A repeated write: 8 bytes of the leaf index, most significant first, then the value. */
  lemma {:induction false} RepeatedWritePlaces(w: RepeatedStorageWrite)
    requires RepeatedFits(w)
    ensures REPEATED.size == 40 == |REPEATED.encode(w)| && REPEATED.encode(w)[8..] == w.value
    ensures FromBE(REPEATED.encode(w)[..8]) == w.index
  {
    hide ToBE, FromBE, Pow256;
    var s := REPEATED.encode(w);
    assert s[..8] == ToBE(w.index, 8) && s[8..] == w.value;
    Pow256Values();
    DecodeEncode(w.index, 8);
  }

  // ---------------------------------------------------------------- The batch commitment

  datatype L1BatchCommitment = L1BatchCommitment(
    lastLeafIndex: nat,
    rootHash: Digest,
    initialWrites: seq<InitialStorageWrite>,
    repeatedWrites: seq<RepeatedStorageWrite>,
    bootloaderCodeHash: Digest,
    defaultAaCodeHash: Digest)
  {
    ghost predicate Fits() {
      && lastLeafIndex < LIMB
      && (forall i :: 0 <= i < |initialWrites| ==> InitialFits(initialWrites[i]))
      && (forall i :: 0 <= i < |repeatedWrites| ==> RepeatedFits(repeatedWrites[i]))
    }

    function PassThroughBytes(): seq<byte> {
      ToBE(lastLeafIndex, 8) + rootHash
    }

    function MetaBytes(): seq<byte> {
      bootloaderCodeHash + defaultAaCodeHash
    }

    function AuxiliaryBytes(hash: seq<byte> -> Digest): seq<byte> {
      hash(Serialized(INITIAL, initialWrites)) + hash(Serialized(REPEATED, repeatedWrites))
    }

    /** Pass-through data, meta parameters and auxiliary output, hashed and concatenated. */
    function Preimage(hash: seq<byte> -> Digest): seq<byte> {
      hash(PassThroughBytes()) + hash(MetaBytes()) + hash(AuxiliaryBytes(hash))
    }

    function Hash(hash: seq<byte> -> Digest): Digest {
      hash(Preimage(hash))
    }
  }

  /** What is hashed, byte by byte: the hashes of pass-through data, meta parameters and auxiliary
      output, in this order; the leaf index, most significant byte first, before the root; the
      bootloader before the default account; the initial writes before the repeated ones. */
  lemma {:induction false} CommitmentPlaces(hash: seq<byte> -> Digest, c: L1BatchCommitment)
    requires c.Fits()
    ensures c.Hash(hash) == hash(c.Preimage(hash)) && |c.Preimage(hash)| == 96
    ensures c.Preimage(hash)[..32] == hash(c.PassThroughBytes())
    ensures c.Preimage(hash)[32..64] == hash(c.MetaBytes())
    ensures c.Preimage(hash)[64..] == hash(c.AuxiliaryBytes(hash))
    ensures |c.PassThroughBytes()| == 40 && FromBE(c.PassThroughBytes()[..8]) == c.lastLeafIndex
    ensures c.PassThroughBytes()[8..] == c.rootHash
    ensures |c.MetaBytes()| == 64 && c.MetaBytes()[..32] == c.bootloaderCodeHash
    ensures c.MetaBytes()[32..] == c.defaultAaCodeHash
    ensures |c.AuxiliaryBytes(hash)| == 64
    ensures c.AuxiliaryBytes(hash)[..32] == hash(Serialized(INITIAL, c.initialWrites))
    ensures c.AuxiliaryBytes(hash)[32..] == hash(Serialized(REPEATED, c.repeatedWrites))
  {
    Pow256Values();
    DecodeEncode(c.lastLeafIndex, 8);
    hide ToBE, FromBE, Serialized;
    assert c.PassThroughBytes()[..8] == ToBE(c.lastLeafIndex, 8);
  }

  ghost predicate NoCollision(hash: seq<byte> -> Digest, x: seq<byte>, y: seq<byte>) {
    hash(x) == hash(y) ==> x == y
  }

  /** No two corresponding inputs of the hash function collide when the two batches are committed to. */
  ghost predicate NoCollisionBetween(hash: seq<byte> -> Digest, c: L1BatchCommitment, d: L1BatchCommitment) {
    && NoCollision(hash, c.Preimage(hash), d.Preimage(hash))
    && NoCollision(hash, c.PassThroughBytes(), d.PassThroughBytes())
    && NoCollision(hash, c.MetaBytes(), d.MetaBytes())
    && NoCollision(hash, c.AuxiliaryBytes(hash), d.AuxiliaryBytes(hash))
    && NoCollision(hash, Serialized(INITIAL, c.initialWrites), Serialized(INITIAL, d.initialWrites))
    && NoCollision(hash, Serialized(REPEATED, c.repeatedWrites), Serialized(REPEATED, d.repeatedWrites))
  }

  /** What a commitment fixes: everything except the indices of initial writes. */
  ghost predicate SameBatch(c: L1BatchCommitment, d: L1BatchCommitment) {
    && c.lastLeafIndex == d.lastLeafIndex && c.rootHash == d.rootHash
    && c.bootloaderCodeHash == d.bootloaderCodeHash && c.defaultAaCodeHash == d.defaultAaCodeHash
    && c.repeatedWrites == d.repeatedWrites
    && |c.initialWrites| == |d.initialWrites|
    && forall i :: 0 <= i < |c.initialWrites| ==>
         c.initialWrites[i].key == d.initialWrites[i].key && c.initialWrites[i].value == d.initialWrites[i].value
  }

  lemma {:induction false} ThreeDigests(a: seq<byte>, b: seq<byte>, c: seq<byte>, a': seq<byte>, b': seq<byte>,
      c': seq<byte>)
    requires |a| == |a'| && |b| == |b'| && a + b + c == a' + b' + c'
    ensures a == a' && b == b' && c == c'
  {
    var x, y := a + b + c, a' + b' + c';
    assert x[..|a|] == a && y[..|a|] == a';
    assert x[|a|..|a| + |b|] == b && y[|a|..|a| + |b|] == b';
    assert x[|a| + |b|..] == c && y[|a| + |b|..] == c';
  }

  lemma {:induction false} TwoParts(a: seq<byte>, b: seq<byte>, a': seq<byte>, b': seq<byte>)
    requires |a| == |a'| && a + b == a' + b'
    ensures a == a' && b == b'
  {
    var x, y := a + b, a' + b';
    assert x[..|a|] == a && y[..|a|] == a';
    assert x[|a|..] == b && y[|a|..] == b';
  }

  lemma {:induction false} SameInitialWrites(a: seq<InitialStorageWrite>, b: seq<InitialStorageWrite>)
    requires forall i :: 0 <= i < |a| ==> InitialFits(a[i])
    requires forall i :: 0 <= i < |b| ==> InitialFits(b[i])
    ensures Serialized(INITIAL, a) == Serialized(INITIAL, b) <==>
              |a| == |b| && forall i :: 0 <= i < |a| ==> a[i].key == b[i].key && a[i].value == b[i].value
  {
    SerializedInjective(INITIAL, a, b);
    if |a| == |b| {
      forall i | 0 <= i < |a| ensures INITIAL.encode(a[i]) == INITIAL.encode(b[i]) <==>
            a[i].key == b[i].key && a[i].value == b[i].value {
        InitialBytesInjective(a[i], b[i]);
      }
    }
  }

  lemma {:induction false} SameRepeatedWrites(a: seq<RepeatedStorageWrite>, b: seq<RepeatedStorageWrite>)
    requires forall i :: 0 <= i < |a| ==> RepeatedFits(a[i])
    requires forall i :: 0 <= i < |b| ==> RepeatedFits(b[i])
    ensures Serialized(REPEATED, a) == Serialized(REPEATED, b) <==> a == b
  {
    SerializedInjective(REPEATED, a, b);
    if |a| == |b| {
      forall i | 0 <= i < |a| ensures REPEATED.encode(a[i]) == REPEATED.encode(b[i]) <==> a[i] == b[i] {
        RepeatedBytesInjective(a[i], b[i]);
      }
    }
  }

  lemma {:induction false} SamePassThrough(c: L1BatchCommitment, d: L1BatchCommitment)
    requires c.lastLeafIndex < LIMB && d.lastLeafIndex < LIMB
    ensures c.PassThroughBytes() == d.PassThroughBytes() <==>
              c.lastLeafIndex == d.lastLeafIndex && c.rootHash == d.rootHash
  {
    if c.PassThroughBytes() == d.PassThroughBytes() {
      TwoParts(ToBE(c.lastLeafIndex, 8), c.rootHash, ToBE(d.lastLeafIndex, 8), d.rootHash);
      Pow256Values();
      EncodeInjective(c.lastLeafIndex, d.lastLeafIndex, 8);
    }
  }

  lemma {:induction false} SameMeta(c: L1BatchCommitment, d: L1BatchCommitment)
    ensures c.MetaBytes() == d.MetaBytes() <==>
              c.bootloaderCodeHash == d.bootloaderCodeHash && c.defaultAaCodeHash == d.defaultAaCodeHash
  {
    if c.MetaBytes() == d.MetaBytes() {
      TwoParts(c.bootloaderCodeHash, c.defaultAaCodeHash, d.bootloaderCodeHash, d.defaultAaCodeHash);
    }
  }

  lemma {:induction false} SameAuxiliary(hash: seq<byte> -> Digest, c: L1BatchCommitment, d: L1BatchCommitment)
    requires NoCollisionBetween(hash, c, d)
    ensures c.AuxiliaryBytes(hash) == d.AuxiliaryBytes(hash) <==>
              && Serialized(INITIAL, c.initialWrites) == Serialized(INITIAL, d.initialWrites)
              && Serialized(REPEATED, c.repeatedWrites) == Serialized(REPEATED, d.repeatedWrites)
  {
    if c.AuxiliaryBytes(hash) == d.AuxiliaryBytes(hash) {
      TwoParts(hash(Serialized(INITIAL, c.initialWrites)), hash(Serialized(REPEATED, c.repeatedWrites)),
               hash(Serialized(INITIAL, d.initialWrites)), hash(Serialized(REPEATED, d.repeatedWrites)));
    }
  }

  lemma {:induction false} SamePreimage(hash: seq<byte> -> Digest, c: L1BatchCommitment, d: L1BatchCommitment)
    requires NoCollisionBetween(hash, c, d)
    ensures c.Hash(hash) == d.Hash(hash) <==>
              && c.PassThroughBytes() == d.PassThroughBytes() && c.MetaBytes() == d.MetaBytes()
              && c.AuxiliaryBytes(hash) == d.AuxiliaryBytes(hash)
  {
    if c.Hash(hash) == d.Hash(hash) {
      ThreeDigests(hash(c.PassThroughBytes()), hash(c.MetaBytes()), hash(c.AuxiliaryBytes(hash)),
                   hash(d.PassThroughBytes()), hash(d.MetaBytes()), hash(d.AuxiliaryBytes(hash)));
    }
  }

  /** Two batches have the same commitment exactly if they are the same, unless the hash function
      collides on one of the six pairs of inputs. */
  lemma {:induction false} CommitmentBinds(hash: seq<byte> -> Digest, c: L1BatchCommitment, d: L1BatchCommitment)
    requires c.Fits() && d.Fits() && NoCollisionBetween(hash, c, d)
    ensures c.Hash(hash) == d.Hash(hash) <==> SameBatch(c, d)
  {
    SamePreimage(hash, c, d);
    SamePassThrough(c, d);
    SameMeta(c, d);
    SameAuxiliary(hash, c, d);
    SameInitialWrites(c.initialWrites, d.initialWrites);
    SameRepeatedWrites(c.repeatedWrites, d.repeatedWrites);
  }

  /** The write lists that the tree reports have the widths that the commitment needs. */
  lemma {:induction false} TreeWritesFit(e: Enumeration, ops: seq<KeyedOp>)
    requires Bijective(e) && e.next + |ops| < LIMB
    ensures forall i :: 0 <= i < |InitialWrites(e, ops)| ==> InitialFits(InitialWrites(e, ops)[i])
    ensures forall i :: 0 <= i < |RepeatedWrites(e, ops)| ==> RepeatedFits(RepeatedWrites(e, ops)[i])
  {
    if ops != [] {
      var n := |ops| - 1;
      TreeWritesFit(e, ops[..n]);
      AfterBijective(e, ops[..n]);
      AfterKeys(e, ops[..n]);
      U256OfKey(ops[n].0);
    }
  }
}
