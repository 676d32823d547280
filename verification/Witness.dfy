/** The hash rows a prover checks for every storage access
    (`compose_witness`, merkle_tree/src/tree.rs). */
module Witness {
  import opened Wrappers
  import opened Bytes
  import opened TreeTypes
  import opened SparseTree
  import opened BatchSpec
  import opened PatchStep
  import opened LeafEnumeration

  /** One hashing step; `layer` 1 is the root's, the last layer hashes the leaf. */
  datatype StorageHashRow = StorageHashRow(
    storageAccessIdx: nat, preRoot: ZkHash, root: ZkHash, isWrite: bool, leafLayer: bool,
    preHash: ZkHash, hash: ZkHash, layer: nat, layerBit: nat, addrAcc: nat, addr: TreeKey,
    prePath: ZkHash, path: ZkHash, sibling: ZkHash)

  /** The program-hash part is there for the prover and always empty here. */
  datatype StorageUpdateTrace = StorageUpdateTrace(
    storageAccesses: seq<StorageHashRow>,
    programHashAccess: seq<StorageHashRow>,
    storageRelatedPoseidon: seq<ZkHash>)

  // ---------------------------------------------------------------- What a checker accepts

  /** `own` and its sibling hashed in the order the key's bit at `height` gives. */
  function HashUp(h: Hasher, key: nat, height: nat, own: ZkHash, sibling: ZkHash): ZkHash {
    if Shr(key, height) % 2 == 1 then h.compress(sibling, own, KindAt(height + 1))
    else h.compress(own, sibling, KindAt(height + 1))
  }

  /** Row `r` belongs to the access and hashes its path and sibling, before and after. */
  ghost predicate ValidRow(h: Hasher, depth: nat, row: StorageHashRow, key: nat, r: nat, preRoot: ZkHash, root: ZkHash)
    requires r < depth
  {
    && row.layer == r + 1 && row.preRoot == preRoot && row.root == root && (row.leafLayer <==> r == depth - 1)
    && row.hash == HashUp(h, key, depth - 1 - r, row.path, row.sibling)
    && row.preHash == HashUp(h, key, depth - 1 - r, row.prePath, row.sibling)
  }

  /** The rows of one access, root layer first: every row is valid, each row's inputs are the next
      row's outputs, and the ends are the roots and the leaves. */
  ghost predicate ValidAccess(h: Hasher, depth: nat, rows: seq<StorageHashRow>, key: nat,
      preRoot: ZkHash, root: ZkHash, oldLeaf: TreeValue, newLeaf: TreeValue)
  {
    && depth > 0 && |rows| == depth
    && (forall r :: 0 <= r < depth ==> ValidRow(h, depth, rows[r], key, r, preRoot, root))
    && rows[0].hash == root && rows[0].preHash == preRoot
    && (forall r :: 0 <= r < depth - 1 ==> rows[r].path == rows[r + 1].hash && rows[r].prePath == rows[r + 1].preHash)
    && rows[depth - 1].path == newLeaf && rows[depth - 1].prePath == oldLeaf
  }

  /** The siblings of an access by height, leaf side first. */
  ghost function Siblings(rows: seq<StorageHashRow>): seq<ZkHash> {
    seq(|rows|, height requires 0 <= height < |rows| => rows[|rows| - 1 - height].sibling)
  }

  /** Folding a leaf up a list of siblings. */
  ghost function FoldUp(h: Hasher, siblings: seq<ZkHash>, key: nat, leaf: TreeValue, height: nat): ZkHash
    requires height <= |siblings|
  {
    if height == 0 then leaf else HashUp(h, key, height - 1, FoldUp(h, siblings, key, leaf, height - 1),
                                         siblings[height - 1])
  }

  lemma {:induction false} AccessFolds(h: Hasher, depth: nat, rows: seq<StorageHashRow>, key: nat,
      preRoot: ZkHash, root: ZkHash, oldLeaf: TreeValue, newLeaf: TreeValue, height: nat)
    requires ValidAccess(h, depth, rows, key, preRoot, root, oldLeaf, newLeaf) && height <= depth
    ensures FoldUp(h, Siblings(rows), key, newLeaf, height)
         == if height == depth then root else rows[depth - 1 - height].path
    ensures FoldUp(h, Siblings(rows), key, oldLeaf, height)
         == if height == depth then preRoot else rows[depth - 1 - height].prePath
  {
    if height > 0 {
      assert ValidRow(h, depth, rows[depth - height], key, depth - height, preRoot, root);
      AccessFolds(h, depth, rows, key, preRoot, root, oldLeaf, newLeaf, height - 1);
    }
  }

  /** The new leaf folded up the siblings is the root after, the old leaf the root before. */
  lemma {:induction false} AccessIsMerkleProof(h: Hasher, depth: nat, rows: seq<StorageHashRow>, key: nat,
      preRoot: ZkHash, root: ZkHash, oldLeaf: TreeValue, newLeaf: TreeValue)
    requires ValidAccess(h, depth, rows, key, preRoot, root, oldLeaf, newLeaf)
    ensures FoldUp(h, Siblings(rows), key, newLeaf, depth) == root
    ensures FoldUp(h, Siblings(rows), key, oldLeaf, depth) == preRoot
  {
    AccessFolds(h, depth, rows, key, preRoot, root, oldLeaf, newLeaf, depth);
  }

  /** No collision where a row and a tree meet: the pair the row hashes and the pair the tree
      hashes are equal if their hashes are. */
  ghost predicate NoCollisionAt(h: Hasher, row: StorageHashRow, key: nat, m: Leaves, height: nat) {
    var idx := Shr(key, height);
    var own, sib := Node(h, m, height, idx), Node(h, m, height, NeighborIdx(idx, true));
    HashUp(h, key, height, row.prePath, row.sibling) == HashUp(h, key, height, own, sib) ==>
          row.prePath == own && row.sibling == sib
  }

  ghost predicate NoCollision(h: Hasher, rows: seq<StorageHashRow>, key: nat, m: Leaves) {
    forall r :: 0 <= r < |rows| ==> NoCollisionAt(h, rows[r], key, m, |rows| - 1 - r)
  }

  lemma {:induction false} PathNodeStep(h: Hasher, m: Leaves, key: nat, height: nat)
    ensures var idx := Shr(key, height);
            Node(h, m, height + 1, Shr(key, height + 1))
            == HashUp(h, key, height, Node(h, m, height, idx), Node(h, m, height, NeighborIdx(idx, true)))
  {
    var idx, up := Shr(key, height), Shr(key, height + 1);
    assert up == idx / 2;
    assert if idx % 2 == 1 then 2 * up + 1 == idx else 2 * up == idx;
  }

  lemma {:induction false} RowShowsPair(h: Hasher, row: StorageHashRow, key: nat, m: Leaves, height: nat)
    requires NoCollisionAt(h, row, key, m, height)
    requires row.preHash == HashUp(h, key, height, row.prePath, row.sibling)
    requires row.preHash == Node(h, m, height + 1, Shr(key, height + 1))
    ensures row.prePath == Node(h, m, height, Shr(key, height))
    ensures row.sibling == Node(h, m, height, NeighborIdx(Shr(key, height), true))
  {
    PathNodeStep(h, m, key, height);
  }

  /** Going down from a root that belongs to `m`, the rows show the nodes of `m`. */
  lemma {:induction false} RowsShowTree(h: Hasher, depth: nat, rows: seq<StorageHashRow>, key: nat,
      preRoot: ZkHash, root: ZkHash, oldLeaf: TreeValue, newLeaf: TreeValue, m: Leaves, r: nat)
    requires ValidAccess(h, depth, rows, key, preRoot, root, oldLeaf, newLeaf) && r < depth
    requires Shr(key, depth) == 0 && preRoot == Root(h, m, depth) && NoCollision(h, rows, key, m)
    ensures var height, idx := depth - 1 - r, Shr(key, depth - 1 - r);
            rows[r].prePath == Node(h, m, height, idx) && rows[r].sibling == Node(h, m, height, NeighborIdx(idx, true))
  {
    if r > 0 {
      RowsShowTree(h, depth, rows, key, preRoot, root, oldLeaf, newLeaf, m, r - 1);
      assert rows[r - 1].prePath == rows[r].preHash;
    }
    assert ValidRow(h, depth, rows[r], key, r, preRoot, root) && NoCollisionAt(h, rows[r], key, m, depth - 1 - r);
    RowShowsPair(h, rows[r], key, m, depth - 1 - r);
  }

  /** Siblings taken from a tree fold any leaf up to the node of the tree with that leaf set. */
  lemma {:induction false} FoldIsUpdatedNode(h: Hasher, siblings: seq<ZkHash>, key: nat, m: Leaves, leaf: TreeValue,
      height: nat)
    requires height <= |siblings|
    requires forall j :: 0 <= j < |siblings| ==> siblings[j] == Node(h, m, j, NeighborIdx(Shr(key, j), true))
    ensures FoldUp(h, siblings, key, leaf, height) == Node(h, m[key := leaf], height, Shr(key, height))
  {
    if height > 0 {
      FoldIsUpdatedNode(h, siblings, key, m, leaf, height - 1);
      NodeUntouched(h, m, height - 1, NeighborIdx(Shr(key, height - 1), true), key, leaf);
      PathNodeStep(h, m[key := leaf], key, height - 1);
    }
  }

  lemma {:induction false} SiblingsShowTree(h: Hasher, depth: nat, rows: seq<StorageHashRow>, key: nat,
      preRoot: ZkHash, root: ZkHash, oldLeaf: TreeValue, newLeaf: TreeValue, m: Leaves)
    requires ValidAccess(h, depth, rows, key, preRoot, root, oldLeaf, newLeaf)
    requires Shr(key, depth) == 0 && preRoot == Root(h, m, depth) && NoCollision(h, rows, key, m)
    ensures forall j :: 0 <= j < depth ==> Siblings(rows)[j] == Node(h, m, j, NeighborIdx(Shr(key, j), true))
  {
    forall j | 0 <= j < depth ensures Siblings(rows)[j] == Node(h, m, j, NeighborIdx(Shr(key, j), true)) {
      RowsShowTree(h, depth, rows, key, preRoot, root, oldLeaf, newLeaf, m, depth - 1 - j);
    }
  }

  /** Soundness of the rows: if they start at the root of a tree, then the old leaf is the tree's
      leaf at the key and the new root is the root of the tree with that leaf replaced. */
  lemma {:induction false} AccessIsSound(h: Hasher, depth: nat, rows: seq<StorageHashRow>, key: nat,
      preRoot: ZkHash, root: ZkHash, oldLeaf: TreeValue, newLeaf: TreeValue, m: Leaves)
    requires ValidAccess(h, depth, rows, key, preRoot, root, oldLeaf, newLeaf)
    requires Shr(key, depth) == 0 && preRoot == Root(h, m, depth) && NoCollision(h, rows, key, m)
    ensures oldLeaf == LeafValue(m, key) && root == Root(h, m[key := newLeaf], depth)
  {
    SiblingsShowTree(h, depth, rows, key, preRoot, root, oldLeaf, newLeaf, m);
    RowsShowTree(h, depth, rows, key, preRoot, root, oldLeaf, newLeaf, m, depth - 1);
    AccessIsMerkleProof(h, depth, rows, key, preRoot, root, oldLeaf, newLeaf);
    FoldIsUpdatedNode(h, Siblings(rows), key, m, newLeaf, depth);
  }

  // ---------------------------------------------------------------- The bits of the address

  /** `hashed_key_u256`: the bytes of the key, read from the other end than the tree reads them. */
  function LittleEndian(k: TreeKey): nat {
    FromBE(Reversed(ToBytes(k)))
  }

  function LayerBit(k: TreeKey, depth: nat, r: nat): nat
    requires r < depth
  {
    Shr(LittleEndian(k), depth - 1 - r) % 2
  }

  /** The bits so far, starting again after every 64 layers. */
  function AddrAcc(k: TreeKey, depth: nat, r: nat): nat
    requires r < depth
  {
    ToField((if r % 64 == 0 then 0 else AddrAcc(k, depth, r - 1)) * 2 + LayerBit(k, depth, r))
  }

  /** The side from which the path of the key comes at a row. */
  function PathBit(k: TreeKey, depth: nat, r: nat): nat
    requires r < depth
  {
    Shr(ToU256(k), depth - 1 - r) % 2
  }

  lemma {:induction false} ShrHalf(a: nat, n: nat)
    ensures Shr(a, n + 1) == Shr(a / 2, n)
  {
    if n > 0 {
      ShrHalf(a, n - 1);
    }
  }

  lemma {:induction false} BitsDetermine(a: nat, b: nat, n: nat)
    requires a < Pow2(n) && b < Pow2(n) && forall j :: 0 <= j < n ==> Shr(a, j) % 2 == Shr(b, j) % 2
    ensures a == b
  {
    if n > 0 {
      assert Shr(a, 0) % 2 == Shr(b, 0) % 2;
      forall j | 0 <= j < n - 1 ensures Shr(a / 2, j) % 2 == Shr(b / 2, j) % 2 {
        ShrHalf(a, j);
        ShrHalf(b, j);
        assert Shr(a, j + 1) % 2 == Shr(b, j + 1) % 2;
      }
      BitsDetermine(a / 2, b / 2, n - 1);
    }
  }

  /** Both readings of the bytes are 256-bit numbers; the tree reads them with the first byte on top. */
  lemma BothReadings(k: TreeKey)
    ensures ToU256(k) == FromBE(ToBytes(k)) < Pow2(256)
    ensures LittleEndian(k) < Pow2(256)
  {
    assert LittleEndian(k) == FromBE(Reversed(ToBytes(k)));
    hide *;
    KeyAsBytes(k);
    ToU256Value(k);
    Pow2Limit();
    EncodeDecode(Reversed(ToBytes(k)));
    Pow256IsPow2(32);
  }

  lemma {:induction false} SameFromBothEnds(s: seq<byte>)
    ensures FromBE(s) == FromBE(Reversed(s)) <==> s == Reversed(s)
  {
    EncodeDecode(s);
    EncodeDecode(Reversed(s));
  }

  /** The bits in the rows are the sides of the path, as far as the depth goes, exactly if the key
      reads the same from both ends. */
  lemma {:induction false} LayerBitsDescribePath(k: TreeKey)
    ensures (forall r :: 0 <= r < 256 ==> LayerBit(k, 256, r) == PathBit(k, 256, r))
       <==> ToBytes(k) == Reversed(ToBytes(k))
  {
    BothReadings(k);
    SameFromBothEnds(ToBytes(k));
    if forall r :: 0 <= r < 256 ==> LayerBit(k, 256, r) == PathBit(k, 256, r) {
      forall j | 0 <= j < 256 ensures Shr(LittleEndian(k), j) % 2 == Shr(ToU256(k), j) % 2 {
        assert LayerBit(k, 256, 255 - j) == PathBit(k, 256, 255 - j);
      }
      hide LittleEndian, ToU256;
      BitsDetermine(LittleEndian(k), ToU256(k), 256);
    }
  }

  lemma InField(a: nat, bit: nat)
    ensures ToField(ToField(a) * 2 + bit) == ToField(a * 2 + bit)
  {
    var q, rest := a / FIELD_ORDER, a % FIELD_ORDER * 2 + bit;
    var q' := rest / FIELD_ORDER;
    assert a * 2 + bit == (2 * q + q') * FIELD_ORDER + rest % FIELD_ORDER;
    Remainder(a * 2 + bit, 2 * q + q', rest % FIELD_ORDER, FIELD_ORDER);
  }

  /** The lowest `n` bits. */
  function LowBits(x: nat, n: nat): nat {
    x % Pow2(n)
  }

  lemma OneMoreBit(x: nat, n: nat)
    ensures LowBits(x, n + 1) == LowBits(x / 2, n) * 2 + x % 2
    ensures LowBits(x, 1) == x % 2
  {
    var h, p := x / 2, Pow2(n);
    assert Pow2(1) == 2;
    assert h == h / p * p + h % p;
    assert h / p * (2 * p) == 2 * (h / p * p);
    Remainder(x, h / p, h % p * 2 + x % 2, 2 * p);
  }

  lemma NextShr(x: nat, n: nat)
    ensures Shr(x, n + 1) == Shr(x, n) / 2
  {
  }

  /** After `j + 1` layers of a word the accumulator holds that many bits of the key, as a field element. */
  lemma {:induction false} AccumulatedBits(k: TreeKey, q: nat, j: nat)
    requires q < 4 && j < 64
    ensures AddrAcc(k, 256, 64 * q + j) == ToField(LowBits(Shr(LittleEndian(k), 255 - (64 * q + j)), j + 1))
  {
    var x, r := LittleEndian(k), 64 * q + j;
    hide LittleEndian, LowBits, ToField, Shr;
    assert r % 64 == j;
    if j > 0 {
      AccumulatedBits(k, q, j - 1);
      NextShr(x, 255 - r);
      InField(LowBits(Shr(x, 255 - r) / 2, j), LayerBit(k, 256, r));
    }
    OneMoreBit(Shr(x, 255 - r), j);
  }

  /** At the last layer of every word the accumulator is that word of the key, read from the other
      end and taken into the field. */
  lemma AddrAccIsWord(k: TreeKey, q: nat)
    requires q < 4
    ensures AddrAcc(k, 256, 64 * q + 63)
         == FromBE(Reversed(ToBytes(k)[24 - 8 * q..32 - 8 * q])) % 18446744069414584321
  {
    AccumulatedBits(k, q, 63);
    Pow2Limb();
    WordOfReading(k, q);
  }

  lemma ReversedSlice(s: seq<byte>, i: nat)
    requires |s| == 32 && i <= 24
    ensures Reversed(s)[i..i + 8] == Reversed(s[24 - i..32 - i])
  {
    hide Reversed;
    var a, b := Reversed(s)[i..i + 8], Reversed(s[24 - i..32 - i]);
    forall j | 0 <= j < 8 ensures a[j] == b[j] {
      assert a[j] == Reversed(s)[i + j] == s[31 - i - j];
      assert b[j] == s[24 - i..32 - i][7 - j];
    }
  }

  lemma WordAt(s: seq<byte>, i: nat)
    requires |s| == 32 && i <= 24
    ensures FromBE(s) / Pow256(24 - i) % Pow256(8) == FromBE(s[i..i + 8])
  {
    hide FromBE, Pow256;
    MiddleBytes(s[..i], s[i..i + 8], s[i + 8..]);
    assert s == s[..i] + s[i..i + 8] + s[i + 8..];
  }

  lemma WordOfReading(k: TreeKey, q: nat)
    requires q < 4
    ensures Shr(LittleEndian(k), 64 * (3 - q)) % LIMB == FromBE(Reversed(ToBytes(k)[24 - 8 * q..32 - 8 * q]))
  {
    var s, shift := Reversed(ToBytes(k)), 64 * (3 - q);
    assert LittleEndian(k) == FromBE(s);
    Pow256Values();
    Pow256IsPow2(24 - 8 * q);
    assert 8 * (24 - 8 * q) == shift;
    hide *;
    WordAt(s, 8 * q);
    ShrDivides(LittleEndian(k), shift);
    ReversedSlice(ToBytes(k), 8 * q);
  }

  /** Dividing and taking the remainder cut the value of some bytes out. */
  lemma MiddleBytes(high: seq<byte>, middle: seq<byte>, low: seq<byte>)
    ensures FromBE(high + middle + low) / Pow256(|low|) % Pow256(|middle|) == FromBE(middle)
  {
    hide FromBE, Pow256;
    FromBEConcat(high + middle, low);
    FromBEConcat(high, middle);
    EncodeDecode(low);
    EncodeDecode(middle);
    Quotient(FromBE(high + middle + low), FromBE(high + middle), FromBE(low), Pow256(|low|));
    Remainder(FromBE(high + middle), FromBE(high), FromBE(middle), Pow256(|middle|));
  }

  /** The bits are those of the bytes of the key with the last byte on top. */
  lemma LayerBitOfBytes(k: TreeKey, depth: nat, r: nat)
    requires r < depth
    ensures LayerBit(k, depth, r) == FromBE(Reversed(ToBytes(k))) / Pow2(depth - 1 - r) % 2
  {
    ShrDivides(LittleEndian(k), depth - 1 - r);
  }

  /** A key that does not read the same: its path comes from the right at the leaf, its bit says left. */
  lemma LayerBitMissesPath()
    ensures PathBit(TreeKey(0, 0, 0, 1), 256, 255) == 1 && LayerBit(TreeKey(0, 0, 0, 1), 256, 255) == 0
  {
    var k := TreeKey(0, 0, 0, 1);
    ToU256Value(k);
    var s := Reversed(ToBytes(k));
    ZeroBytes(8);
    assert s[31] == ToBytes(k)[0] == 0;
    hide ToBytes, Reversed, ToU256;
    LastByte(s);
  }

  lemma LastByte(s: seq<byte>)
    requires s != []
    ensures FromBE(s) % 2 == s[|s| - 1] % 2
  {
  }

  lemma {:induction false} ZeroBytes(n: nat)
    ensures forall i :: 0 <= i < n ==> ToBE(0, n)[i] == 0
  {
    if n > 0 {
      ZeroBytes(n - 1);
    }
  }

  // ---------------------------------------------------------------- Composition

  lemma {:induction false} ChunkOfFlatten<T>(groups: seq<seq<T>>, size: nat, i: nat)
    requires forall j :: 0 <= j < |groups| ==> |groups[j]| == size
    requires i < |groups|
    ensures |Flatten(groups)| == |groups| * size
    ensures 0 <= i * size <= (i + 1) * size <= |Flatten(groups)|
    ensures Flatten(groups)[i * size..(i + 1) * size] == groups[i]
  {
    hide Flatten;
    var n := |groups| - 1;
    FlattenLength(groups[..n], size);
    assert |groups| * size == n * size + size;
    assert (i + 1) * size == i * size + size;
    FlattenLast(groups);
    var init := Flatten(groups[..n]);
    if i < n {
      ChunkOfFlatten(groups[..n], size, i);
      assert (init + groups[n])[i * size..(i + 1) * size] == init[i * size..(i + 1) * size];
    } else {
      assert i * size == |init| && (i + 1) * size == |init| + |groups[n]|;
      LastSlice(init, groups[n]);
    }
  }

  lemma LastSlice<T>(init: seq<T>, last: seq<T>)
    ensures (init + last)[|init|..|init| + |last|] == last
  {
  }

  lemma FlattenLast<T>(groups: seq<seq<T>>)
    requires groups != []
    ensures Flatten(groups) == Flatten(groups[..|groups| - 1]) + groups[|groups| - 1]
  {
  }

  lemma {:induction false} FlattenLength<T>(groups: seq<seq<T>>, size: nat)
    requires forall j :: 0 <= j < |groups| ==> |groups[j]| == size
    ensures |Flatten(groups)| == |groups| * size
  {
    if groups != [] {
      var n := |groups| - 1;
      FlattenLength(groups[..n], size);
      assert |groups| * size == n * size + size;
    }
  }

  /** The row for layer `r + 1` of `depth`, from the trace of that hashing step. */
  function RowFrom(t: HashTrace, chunkIdx: nat, preRoot: ZkHash, root: ZkHash, op: KeyedOp, r: nat,
      depth: nat): StorageHashRow
    requires r < depth
  {
    StorageHashRow(chunkIdx + 1, preRoot, root, op.1.Write?, r + 1 == depth, t.preHash, t.hash, r + 1,
                   LayerBit(op.0, depth, r), AddrAcc(op.0, depth, r), op.0, t.prePath, t.path, t.sibling)
  }

  /** Output and previous output of every row, in order. */
  function RowHashes(rows: seq<StorageHashRow>): (hashes: seq<ZkHash>)
    ensures |hashes| == 2 * |rows|
  {
    if rows == [] then [] else RowHashes(rows[..|rows| - 1]) + [rows[|rows| - 1].hash, rows[|rows| - 1].preHash]
  }

  lemma RowHashesNext(rows: seq<StorageHashRow>, row: StorageHashRow)
    ensures RowHashes(rows + [row]) == RowHashes(rows) + [row.hash, row.preHash]
  {
    assert (rows + [row])[..|rows|] == rows;
  }

  lemma {:induction false} RowHashesConcat(rows: seq<StorageHashRow>, more: seq<StorageHashRow>)
    ensures RowHashes(rows + more) == RowHashes(rows) + RowHashes(more)
  {
    NothingComposed();
    hide RowHashes;
    if more == [] {
      assert rows + more == rows;
    } else {
      var n := |more| - 1;
      RowHashesConcat(rows, more[..n]);
      RowHashesNext(rows + more[..n], more[n]);
      RowHashesNext(more[..n], more[n]);
      assert rows + more[..n] + [more[n]] == rows + more && more[..n] + [more[n]] == more;
    }
  }

  /** Of every row the hash comes first, then the hash before. */
  lemma {:induction false} RowHashesAt(rows: seq<StorageHashRow>, t: nat)
    requires t < |rows|
    ensures RowHashes(rows)[2 * t] == rows[t].hash && RowHashes(rows)[2 * t + 1] == rows[t].preHash
  {
    if t < |rows| - 1 {
      RowHashesAt(rows[..|rows| - 1], t);
    }
  }

  ghost predicate AreRowsFrom(chunk: seq<HashTrace>, chunkIdx: nat, preRoot: ZkHash, root: ZkHash, op: KeyedOp,
      rows: seq<StorageHashRow>)
    requires |rows| <= |chunk|
  {
    forall r :: 0 <= r < |rows| ==> rows[r] == RowFrom(chunk[|chunk| - 1 - r], chunkIdx, preRoot, root, op, r, |chunk|)
  }

  lemma OneMoreRow(chunk: seq<HashTrace>, chunkIdx: nat, preRoot: ZkHash, root: ZkHash, op: KeyedOp,
      rows: seq<StorageHashRow>, row: StorageHashRow)
    requires |rows| < |chunk| && AreRowsFrom(chunk, chunkIdx, preRoot, root, op, rows)
    requires row == RowFrom(chunk[|chunk| - 1 - |rows|], chunkIdx, preRoot, root, op, |rows|, |chunk|)
    ensures AreRowsFrom(chunk, chunkIdx, preRoot, root, op, rows + [row])
  {
    hide RowFrom;
  }

  /** The rows of one chunk of the trace: the chunk is walked backwards, root layer first. */
  method ChunkRows(chunk: seq<HashTrace>, chunkIdx: nat, preRoot: ZkHash, rootHash: ZkHash, op: KeyedOp)
    returns (rows: seq<StorageHashRow>, poseidon: seq<ZkHash>)
    ensures |rows| == |chunk| && poseidon == RowHashes(rows)
    ensures AreRowsFrom(chunk, chunkIdx, preRoot, rootHash, op, rows)
  {
    hide LittleEndian, RowHashes;
    NothingComposed();
    rows, poseidon := [], [];
    var leafLayer, acc, key := false, 0, LittleEndian(op.0);
    for r := 0 to |chunk|
      invariant |rows| == r && leafLayer == (r == |chunk| && r > 0) && poseidon == RowHashes(rows)
      invariant acc == if r % 64 == 0 then 0 else AddrAcc(op.0, |chunk|, r - 1)
      invariant AreRowsFrom(chunk, chunkIdx, preRoot, rootHash, op, rows)
    {
      var item, layer, layerBit := chunk[|chunk| - 1 - r], r + 1, Shr(key, |chunk| - 1 - r) % 2;
      if r == |chunk| - 1 {
        leafLayer := true;
      }
      acc := ToField(acc * 2 + layerBit);
      var row := StorageHashRow(chunkIdx + 1, preRoot, rootHash, op.1.Write?, leafLayer, item.preHash, item.hash, layer,
                                layerBit, acc, op.0, item.prePath, item.path, item.sibling);
      RowHashesNext(rows, row);
      OneMoreRow(chunk, chunkIdx, preRoot, rootHash, op, rows, row);
      rows, poseidon := rows + [row], poseidon + [item.hash, item.preHash];
      if layer % 64 == 0 {
        acc := 0;
      }
    }
  }

  /** The rows of operation `i` of a batch, in the chain of roots. */
  ghost predicate IsAccess(b: Batch, ops: seq<KeyedOp>, i: nat, rows: seq<StorageHashRow>)
    requires b.Valid() && |ops| == |b.keys| && i < |ops|
  {
    && ValidAccess(b.hasher, b.depth, rows, b.Key(i), Root(b.hasher, b.After(i), b.depth),
                   Root(b.hasher, b.After(i + 1), b.depth),
                   LeafValue(b.After(i), b.Key(i)), b.values[i])
    && forall r :: 0 <= r < |rows| ==>
         && rows[r].storageAccessIdx == i + 1 && rows[r].addr == ops[i].0 && rows[r].isWrite == ops[i].1.Write?
         && rows[r].layerBit == LayerBit(ops[i].0, |rows|, r) && rows[r].addrAcc == AddrAcc(ops[i].0, |rows|, r)
  }

  lemma {:induction false} HashUpIsStep(b: Batch, i: nat, j: nat, height: nat)
    requires b.Valid() && i < |b.keys| && height < b.depth && j <= |b.keys|
    ensures var idx := b.PathIdx(i, height);
            b.NodeAfter(j, height + 1, b.PathIdx(i, height + 1))
            == HashUp(b.hasher, b.Key(i), height, b.NodeAfter(j, height, idx),
                      b.NodeAfter(j, height, NeighborIdx(idx, true)))
  {
    PathNodeStep(b.hasher, b.After(j), b.Key(i), height);
  }

  /** The row that the trace of operation `i` yields for layer `r + 1`. */
  ghost function RowOf(b: Batch, ops: seq<KeyedOp>, i: nat, r: nat): StorageHashRow
    requires b.Valid() && |ops| == |b.keys| && i < |ops| && r < b.depth
  {
    RowFrom(TraceAt(b, i, b.depth - 1 - r), i, Root(b.hasher, b.After(i), b.depth),
            Root(b.hasher, b.After(i + 1), b.depth),
            ops[i], r, b.depth)
  }

  lemma {:induction false} RowOfIsValid(b: Batch, ops: seq<KeyedOp>, i: nat, r: nat)
    requires b.Valid() && |ops| == |b.keys| && i < |ops| && r < b.depth
    ensures ValidRow(b.hasher, b.depth, RowOf(b, ops, i, r), b.Key(i), r,
                     Root(b.hasher, b.After(i), b.depth), Root(b.hasher, b.After(i + 1), b.depth))
  {
    hide Node, Root, LayerBit, AddrAcc;
    HashUpIsStep(b, i, i, b.depth - 1 - r);
    HashUpIsStep(b, i, i + 1, b.depth - 1 - r);
    b.SiblingUntouched(i, b.depth - 1 - r);
  }

  lemma {:induction false} TraceIsAccess(b: Batch, ops: seq<KeyedOp>, i: nat, rows: seq<StorageHashRow>)
    requires b.Valid() && |ops| == |b.keys| && i < |ops| && |rows| == b.depth
    requires forall r :: 0 <= r < b.depth ==> rows[r] == RowOf(b, ops, i, r)
    ensures IsAccess(b, ops, i, rows)
  {
    b.PathIdxFits(i, b.depth);
    forall r | 0 <= r < b.depth
      ensures ValidRow(b.hasher, b.depth, rows[r], b.Key(i), r, Root(b.hasher, b.After(i), b.depth),
                       Root(b.hasher, b.After(i + 1), b.depth))
    {
      RowOfIsValid(b, ops, i, r);
    }
    forall r | 0 <= r < b.depth - 1 ensures rows[r].path == rows[r + 1].hash && rows[r].prePath == rows[r + 1].preHash {
      assert b.depth - 1 - r == (b.depth - 1 - (r + 1)) + 1;
    }
    b.OwnLeaf(i);
  }

  lemma {:induction false} ChunkIsAccess(b: Batch, ops: seq<KeyedOp>, c: nat, chunk: seq<HashTrace>,
      rows: seq<StorageHashRow>)
    requires b.Valid() && |ops| == |b.keys| && c < |ops| && chunk == TraceRows(b, c, b.depth)
    requires |rows| == b.depth == |chunk|
    requires AreRowsFrom(chunk, c, Root(b.hasher, b.After(c), b.depth), Root(b.hasher, b.After(c + 1), b.depth),
                         ops[c], rows)
    ensures IsAccess(b, ops, c, rows)
  {
    hide Node, Root, LayerBit, AddrAcc, ValidAccess;
    forall r | 0 <= r < b.depth ensures rows[r] == RowOf(b, ops, c, r) {
      assert chunk[b.depth - 1 - r] == TraceAt(b, c, b.depth - 1 - r);
    }
    TraceIsAccess(b, ops, c, rows);
  }

  lemma {:induction false} TopOfTrace(b: Batch, c: nat)
    requires b.Valid() && c < |b.keys|
    ensures |TraceRows(b, c, b.depth)| == b.depth >= 1
    ensures TraceRows(b, c, b.depth)[b.depth - 1].hash == Root(b.hasher, b.After(c + 1), b.depth)
  {
    b.PathIdxFits(c, b.depth);
    assert TraceRows(b, c, b.depth)[b.depth - 1] == TraceAt(b, c, b.depth - 1);
  }

  /** One access: its rows and the root it ends with. */
  method OneAccess(chunk: seq<HashTrace>, c: nat, preRoot: ZkHash, op: KeyedOp, ghost b: Batch, ghost ops: seq<KeyedOp>)
    returns (rows: seq<StorageHashRow>, poseidon: seq<ZkHash>, rootHash: ZkHash)
    requires b.Valid() && |ops| == |b.keys| && c < |ops| && op == ops[c]
    requires chunk == TraceRows(b, c, b.depth)
    ensures |rows| == b.depth && poseidon == RowHashes(rows)
    ensures preRoot == Root(b.hasher, b.After(c), b.depth) ==> IsAccess(b, ops, c, rows)
    ensures rootHash == Root(b.hasher, b.After(c + 1), b.depth)
  {
    hide *;
    TopOfTrace(b, c);
    rootHash := chunk[|chunk| - 1].hash;
    rows, poseidon := ChunkRows(chunk, c, preRoot, rootHash, op);
    if preRoot == Root(b.hasher, b.After(c), b.depth) {
      ChunkIsAccess(b, ops, c, chunk, rows);
    }
  }

  ghost function TraceGroups(b: Batch): (groups: seq<seq<HashTrace>>)
    requires b.Valid()
    ensures |groups| == |b.keys| && forall i :: 0 <= i < |b.keys| ==> groups[i] == TraceRows(b, i, b.depth)
  {
    seq(|b.keys|, i requires 0 <= i < |b.keys| => TraceRows(b, i, b.depth))
  }

  function AccessRows(rows: seq<StorageHashRow>, i: nat, size: nat): seq<StorageHashRow> {
    if i * size <= (i + 1) * size <= |rows| then rows[i * size..(i + 1) * size] else []
  }

  /** The trace of a batch: the rows of all accesses, one after the other. The accesses are chained:
      each starts at the root the previous one ends with, the first at `preRoot`, which has to be the
      root before the batch. */
  ghost predicate IsUpdateTrace(b: Batch, ops: seq<KeyedOp>, preRoot: ZkHash, trace: StorageUpdateTrace)
    requires b.Valid() && |ops| == |b.keys|
  {
    && |trace.storageAccesses| == |ops| * b.depth && trace.programHashAccess == []
    && trace.storageRelatedPoseidon == RowHashes(trace.storageAccesses)
    && forall i :: 0 <= i < |ops| && (i > 0 || preRoot == Root(b.hasher, b.base, b.depth)) ==>
         IsAccess(b, ops, i, AccessRows(trace.storageAccesses, i, b.depth))
  }

  /** What that says of a single row: row `r` of operation `i` belongs to layer `r + 1`, to the key of
      the operation and to the roots around it, and its hashes stand in the list of all hashes. */
  lemma {:induction false} RowsInFull(b: Batch, ops: seq<KeyedOp>, preRoot: ZkHash, trace: StorageUpdateTrace,
      i: nat, r: nat)
    requires b.Valid() && |ops| == |b.keys| && IsUpdateTrace(b, ops, preRoot, trace)
    requires i < |ops| && r < b.depth && (i > 0 || preRoot == Root(b.hasher, b.base, b.depth))
    ensures 0 <= i * b.depth <= i * b.depth + r < |trace.storageAccesses|
    ensures |trace.storageAccesses| == |ops| * b.depth && trace.programHashAccess == []
    ensures |trace.storageRelatedPoseidon| == 2 * |trace.storageAccesses|
    ensures var t := i * b.depth + r;
            var row := trace.storageAccesses[t];
            && row.storageAccessIdx == i + 1 && row.layer == r + 1 && (row.leafLayer <==> r + 1 == b.depth)
            && row.addr == ops[i].0 && row.isWrite == ops[i].1.Write?
            && row.layerBit == LayerBit(ops[i].0, b.depth, r) && row.addrAcc == AddrAcc(ops[i].0, b.depth, r)
            && row.preRoot == Node(b.hasher, b.After(i), b.depth, 0)
            && row.root == Node(b.hasher, b.After(i + 1), b.depth, 0)
            && (r == 0 ==> row.hash == row.root && row.preHash == row.preRoot)
            && (r + 1 == b.depth ==> row.path == b.values[i] && row.prePath == LeafValue(b.After(i), b.Key(i)))
            && trace.storageRelatedPoseidon[2 * t] == row.hash && trace.storageRelatedPoseidon[2 * t + 1] == row.preHash
  {
    var rows, t := trace.storageAccesses, i * b.depth + r;
    hide RowHashes, Node, LayerBit, AddrAcc;
    RowPlace(|ops|, b.depth, i);
    assert rows[t] == AccessRows(rows, i, b.depth)[r];
    RowHashesAt(rows, t);
    assert ValidRow(b.hasher, b.depth, rows[t], b.Key(i), r, Root(b.hasher, b.After(i), b.depth),
                    Root(b.hasher, b.After(i + 1), b.depth));
  }

  lemma RowPlace(n: nat, depth: nat, i: nat)
    requires i < n
    ensures 0 <= i * depth && i * depth + depth == (i + 1) * depth <= n * depth
  {
    assert n * depth == (i + 1) * depth + (n - i - 1) * depth;
  }

  lemma {:induction false} FlatAccesses(groups: seq<seq<StorageHashRow>>, size: nat, i: nat)
    requires (forall j :: 0 <= j < |groups| ==> |groups[j]| == size) && i < |groups|
    ensures |Flatten(groups)| == |groups| * size && AccessRows(Flatten(groups), i, size) == groups[i]
  {
    ChunkOfFlatten(groups, size, i);
  }

  lemma FlattenNext<T>(groups: seq<seq<T>>, last: seq<T>)
    ensures Flatten(groups + [last]) == Flatten(groups) + last
  {
    assert (groups + [last])[..|groups|] == groups;
  }

  /** `compose_witness`. */
  method ComposeWitness(preRoot0: ZkHash, hashTraces: seq<HashTrace>, ops: seq<KeyedOp>, rootTreeDepth: nat,
      ghost b: Batch)
    returns (trace: StorageUpdateTrace)
    requires b.Valid() && rootTreeDepth == b.depth && |ops| == |b.keys|
    requires hashTraces == Flatten(TraceGroups(b))
    ensures IsUpdateTrace(b, ops, preRoot0, trace)
  {
    hide IsAccess, Root, Node, Flatten, RowHashes;
    var preRoot, storageAccesses, storageRelatedPoseidon := preRoot0, [], [];
    ghost var accesses: seq<seq<StorageHashRow>> := [];
    NothingComposed();
    for c := 0 to |ops|
      invariant preRoot == if c == 0 then preRoot0 else Root(b.hasher, b.After(c), b.depth)
      invariant |accesses| == c && storageAccesses == Flatten(accesses)
      invariant storageRelatedPoseidon == RowHashes(storageAccesses)
      invariant forall i :: 0 <= i < c ==> |accesses[i]| == b.depth
      invariant forall i :: 0 <= i < c && (i > 0 || preRoot0 == Root(b.hasher, b.base, b.depth)) ==>
            IsAccess(b, ops, i, accesses[i])
    {
      ChunkOfFlatten(TraceGroups(b), rootTreeDepth, c);
      var rows, poseidon, rootHash :=
        OneAccess(hashTraces[c * rootTreeDepth..(c + 1) * rootTreeDepth], c, preRoot, ops[c], b, ops);
      RowHashesConcat(storageAccesses, rows);
      FlattenNext(accesses, rows);
      accesses := accesses + [rows];
      storageAccesses, storageRelatedPoseidon := storageAccesses + rows, storageRelatedPoseidon + poseidon;
      preRoot := rootHash;
    }
    AllAccesses(accesses, rootTreeDepth);
    trace := StorageUpdateTrace(storageAccesses[..|ops| * rootTreeDepth], storageAccesses[|ops| * rootTreeDepth..],
                                storageRelatedPoseidon);
    assert trace.storageAccesses == storageAccesses;
  }

  lemma NothingComposed()
    ensures Flatten<StorageHashRow>([]) == [] && RowHashes([]) == []
  {
  }

  lemma {:induction false} AllAccesses(groups: seq<seq<StorageHashRow>>, size: nat)
    requires forall j :: 0 <= j < |groups| ==> |groups[j]| == size
    ensures |Flatten(groups)| == |groups| * size
    ensures forall i :: 0 <= i < |groups| ==> AccessRows(Flatten(groups), i, size) == groups[i]
  {
    FlattenLength(groups, size);
    forall i | 0 <= i < |groups| ensures AccessRows(Flatten(groups), i, size) == groups[i] {
      FlatAccesses(groups, size, i);
    }
  }
}
