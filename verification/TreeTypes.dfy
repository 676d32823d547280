/** Keys, hashes and operations of the state tree (types/src/merkle_tree.rs). */
module TreeTypes {
  import opened Bytes

  const LIMB: nat := 0x1_0000_0000_0000_0000
  const U256_LIMIT: nat := LIMB * LIMB * LIMB * LIMB

  /** 2^64 - 2^32 + 1, the order of the field that keys and hashes are made of. */
  const FIELD_ORDER: nat := 18446744069414584321

  function ToField(n: nat): nat {
    n % FIELD_ORDER
  }

  type u64 = x: nat | x < LIMB witness 0

  /** Four field elements as raw 64-bit words, most significant first. The same shape
      serves as tree key, tree value and node hash. */
  datatype TreeKey = TreeKey(w0: u64, w1: u64, w2: u64, w3: u64)
  type TreeValue = TreeKey
  type ZkHash = TreeKey

  const DEFAULT_KEY: TreeKey := TreeKey(0, 0, 0, 0)

  datatype NodeEntry =
    | Branch(hash: ZkHash, leftHash: ZkHash, rightHash: ZkHash)
    | Leaf(hash: ZkHash)

  /** Position of a node: its level counted from the root, and its index within the level. */
  datatype LevelIndex = LevelIndex(level: nat, index: nat)

  datatype TreeOperation =
    | Write(value: TreeValue, previousValue: TreeValue)
    | Read(value: TreeValue)

  datatype TreeError = EmptyPatch

  // ---------------------------------------------------------------- Integer view

  /** `(acc << 64) + item` on a 256-bit integer. */
  function ShiftIn(acc: nat, item: u64): nat {
    (acc * LIMB) % U256_LIMIT + item
  }

  function ToU256(k: TreeKey): nat {
    ShiftIn(ShiftIn(ShiftIn(ShiftIn(0, k.w0), k.w1), k.w2), k.w3)
  }

  function FromU256(v: nat): TreeKey {
    TreeKey(v / LIMB / LIMB / LIMB % LIMB, v / LIMB / LIMB % LIMB, v / LIMB % LIMB, v % LIMB)
  }

  lemma ShiftInFits(acc: nat, item: u64, limit: nat)
    requires acc < limit && limit * LIMB <= U256_LIMIT
    ensures ShiftIn(acc, item) == acc * LIMB + item < limit * LIMB
  {
    assert acc * LIMB <= (limit - 1) * LIMB;
  }

  lemma ToU256Value(k: TreeKey)
    ensures ToU256(k) == ((k.w0 * LIMB + k.w1) * LIMB + k.w2) * LIMB + k.w3 < U256_LIMIT
  {
    ShiftInFits(0, k.w0, 1);
    ShiftInFits(k.w0, k.w1, LIMB);
    ShiftInFits(k.w0 * LIMB + k.w1, k.w2, LIMB * LIMB);
    ShiftInFits((k.w0 * LIMB + k.w1) * LIMB + k.w2, k.w3, LIMB * LIMB * LIMB);
  }

  lemma SplitLimb(high: nat, low: u64)
    ensures (high * LIMB + low) / LIMB == high && (high * LIMB + low) % LIMB == low
  {
  }

  lemma U256OfKey(k: TreeKey)
    ensures ToU256(k) < U256_LIMIT && FromU256(ToU256(k)) == k
  {
    hide ToU256;
    ToU256Value(k);
    SplitLimb((k.w0 * LIMB + k.w1) * LIMB + k.w2, k.w3);
    SplitLimb(k.w0 * LIMB + k.w1, k.w2);
    SplitLimb(k.w0, k.w1);
  }

  /** One word less. */
  lemma NextWord(v: nat, limit: nat)
    requires v < limit * LIMB
    ensures v == v / LIMB * LIMB + v % LIMB && v / LIMB < limit
  {
  }

  lemma KeyOfU256(v: nat)
    requires v < U256_LIMIT
    ensures ToU256(FromU256(v)) == v
  {
    hide ToU256;
    ToU256Value(FromU256(v));
    NextWord(v, LIMB * LIMB * LIMB);
    NextWord(v / LIMB, LIMB * LIMB);
    NextWord(v / LIMB / LIMB, LIMB);
    assert v / LIMB / LIMB / LIMB % LIMB == v / LIMB / LIMB / LIMB;
  }

  // ---------------------------------------------------------------- Byte view

  function ToBytes(k: TreeKey): (s: seq<byte>)
    ensures |s| == 32
  {
    ToBE(k.w0, 8) + ToBE(k.w1, 8) + ToBE(k.w2, 8) + ToBE(k.w3, 8)
  }

  function Word(s: seq<byte>): u64
    requires |s| == 8
  {
    EncodeDecode(s);
    Pow256Values();
    FromBE(s)
  }

  /** The source asserts the length. */
  function FromBytes(s: seq<byte>): TreeKey
    requires |s| == 32
  {
    TreeKey(Word(s[0..8]), Word(s[8..16]), Word(s[16..24]), Word(s[24..32]))
  }

  lemma KeyBytesRoundTrip(k: TreeKey)
    ensures FromBytes(ToBytes(k)) == k
  {
    Pow256Values();
    var s := ToBytes(k);
    assert s[0..8] == ToBE(k.w0, 8) && s[8..16] == ToBE(k.w1, 8) && s[16..24] == ToBE(k.w2, 8);
    assert s[24..32] == ToBE(k.w3, 8);
    DecodeEncode(k.w0, 8);
    DecodeEncode(k.w1, 8);
    DecodeEncode(k.w2, 8);
    DecodeEncode(k.w3, 8);
  }

  lemma BytesKeyRoundTrip(s: seq<byte>)
    requires |s| == 32
    ensures ToBytes(FromBytes(s)) == s
  {
    EncodeDecode(s[0..8]);
    EncodeDecode(s[8..16]);
    EncodeDecode(s[16..24]);
    EncodeDecode(s[24..32]);
    assert s == s[0..8] + s[8..16] + s[16..24] + s[24..32];
  }

  /** The integer that the tree reads a key as is that of its 32 bytes, first byte on top. */
  lemma KeyAsBytes(k: TreeKey)
    ensures ToU256(k) == FromBE(ToBytes(k))
  {
    var (a, b, c, d) := (ToBE(k.w0, 8), ToBE(k.w1, 8), ToBE(k.w2, 8), ToBE(k.w3, 8));
    Pow256Values();
    DecodeEncode(k.w0, 8);
    DecodeEncode(k.w1, 8);
    DecodeEncode(k.w2, 8);
    DecodeEncode(k.w3, 8);
    FromBEConcat(a, b);
    FromBEConcat(a + b, c);
    FromBEConcat(a + b + c, d);
    ToU256Value(k);
  }

  // ---------------------------------------------------------------- Index arithmetic

  /** `k >> n`. */
  function Shr(k: nat, n: nat): nat {
    if n == 0 then k else Shr(k, n - 1) / 2
  }

  function Pow2(n: nat): (r: nat)
    ensures r > 0
  {
    if n == 0 then 1 else 2 * Pow2(n - 1)
  }

  /** The keys a tree of the given depth can hold. */
  predicate InTree(depth: nat, k: TreeKey) {
    ToU256(k) < Pow2(depth)
  }

  lemma {:induction false} ShrBound(k: nat, n: nat, rest: nat)
    requires k < Pow2(n + rest)
    ensures Shr(k, n) < Pow2(rest)
  {
    if n > 0 {
      assert n + rest == (n - 1) + (rest + 1);
      ShrBound(k, n - 1, rest + 1);
    }
  }

  lemma {:induction false} ShrShrinks(k: nat, n: nat)
    ensures Shr(k, n) <= k
  {
    if n > 0 {
      ShrShrinks(k, n - 1);
    }
  }

  lemma {:induction false} Pow2Split(n: nat, m: nat)
    ensures Pow2(n + m) == Pow2(n) * Pow2(m)
  {
    if m > 0 {
      Pow2Split(n, m - 1);
      assert Pow2(n + m) == 2 * Pow2(n + (m - 1));
    }
  }

  lemma Pow2Limb()
    ensures Pow2(64) == LIMB
  {
    Pow256IsPow2(8);
    Pow256Values();
  }

  lemma Pow2Limit()
    ensures Pow2(256) == U256_LIMIT
  {
    Pow2Limb();
    Pow2Split(64, 64);
    Pow2Split(128, 64);
    Pow2Split(192, 64);
  }

  lemma {:induction false} Pow256IsPow2(n: nat)
    ensures Pow256(n) == Pow2(8 * n)
  {
    if n > 0 {
      Pow256IsPow2(n - 1);
      assert Pow2(8) == 256;
      Pow2Split(8 * (n - 1), 8);
      assert 8 * (n - 1) + 8 == 8 * n;
    }
  }

  lemma KeyWidth()
    ensures Pow256(32) == U256_LIMIT
  {
    Pow256IsPow2(32);
    Pow2Limit();
  }

  /** A step up the tree halves the index; `n` steps divide it by 2^n. */
  lemma {:induction false} ShrDivides(k: nat, n: nat)
    ensures Shr(k, n) == k / Pow2(n)
  {
    if n > 0 {
      ShrDivides(k, n - 1);
      DivideTwice(k, Pow2(n - 1), 2);
    }
  }

  /** The field is that of the prime 2^64 - 2^32 + 1. */
  lemma GoldilocksOrder()
    ensures FIELD_ORDER == Pow2(64) - Pow2(32) + 1 && FIELD_ORDER == 0xffff_ffff_0000_0001
  {
    Pow2Limb();
    Pow256IsPow2(4);
    Pow256Values();
  }

  /** At the depth the program uses, every key is in the tree. */
  lemma EveryKeyInTree(k: TreeKey)
    ensures InTree(256, k)
  {
    ToU256Value(k);
    Pow2Limit();
  }
}
