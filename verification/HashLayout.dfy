/** What the tree hash feeds its compression function, byte for byte. */
module HashLayout {
  import opened Cbor
  import opened Sums
  import opened Blake3
  import Quantization

  // ----- Cutting -----

  /** `ps` cuts `data`: joined they are `data`, all but the last have `size` bytes, and the last has at
      most as many and is empty only when there is no data. */
  predicate Cuts(ps: seq<bytes>, data: bytes, size: nat) {
    && ps != [] && Concat(ps) == data
    && (forall i | 0 <= i < |ps| - 1 :: |ps[i]| == size)
    && |ps[|ps| - 1]| <= size && (ps[|ps| - 1] == [] ==> data == [])
  }

  lemma {:induction false} ConcatFirst(ps: seq<bytes>)
    requires ps != []
    ensures Concat(ps) == ps[0] + Concat(ps[1..])
  {
    var n := |ps| - 1;
    if n > 0 {
      ConcatFirst(ps[..n]);
      assert ps[..n][1..] == ps[1..][..n - 1];
      var (a, b, c) := (ps[0], Concat(ps[..n][1..]), ps[n]);
      assert (a + b) + c == a + (b + c);
    }
  }

  lemma CutRest(ps: seq<bytes>, data: bytes, size: nat)
    requires size > 0 && Cuts(ps, data, size) && |ps| > 1
    ensures |data| > size && ps[0] == data[..size] && Cuts(ps[1..], data[size..], size)
  {
    hide Concat;
    ConcatFirst(ps);
    var rest := ps[1..];
    assert data == ps[0] + Concat(rest);
    assert data[size..] == Concat(rest);
    LastIsInside(rest);
    assert rest[|rest| - 1] == ps[|ps| - 1];
  }

  lemma LastIsInside(ps: seq<bytes>)
    requires ps != []
    ensures |Concat(ps)| >= |ps[|ps| - 1]|
  {
  }

  lemma ConcatOne(ps: seq<bytes>)
    requires |ps| == 1
    ensures Concat(ps) == ps[0]
  {
  }

  /** `Pieces` is the one way to cut. */
  lemma {:induction false} PiecesIff(ps: seq<bytes>, data: bytes, size: nat)
    requires size > 0
    ensures Cuts(ps, data, size) <==> ps == Pieces(data, size)
    decreases |data|
  {
    hide Concat;
    var cut := Pieces(data, size);
    if |data| <= size {
      ConcatOne(cut);
    } else {
      PiecesIff(cut[1..], data[size..], size);
      ConcatFirst(cut);
      assert cut[1..] == Pieces(data[size..], size);
      assert forall i | 0 < i < |cut| :: cut[i] == cut[1..][i - 1];
      assert Cuts(cut, data, size);
    }
    if Cuts(ps, data, size) {
      if |ps| == 1 {
        ConcatOne(ps);
      } else {
        CutRest(ps, data, size);
        PiecesIff(ps[1..], data[size..], size);
        assert ps == [ps[0]] + ps[1..];
      }
    }
  }

  // ----- Words -----

  /** A word is written low byte first. */
  lemma WordBytes(w: nat)
    requires w < 0x1_0000_0000
    ensures var r := LittleEndian4(w); [r[3], r[2], r[1], r[0]] == BigEndian(w, 4)
  {
    var r := LittleEndian4(w);
    assert BigEndian(w / 0x100_0000, 1) == [r[3]];
    assert w / 0x1_0000 / 256 == w / 0x100_0000;
    assert BigEndian(w / 0x1_0000, 2) == [r[3], r[2]];
    assert w / 0x100 / 256 == w / 0x1_0000;
    assert BigEndian(w / 0x100, 3) == [r[3], r[2], r[1]];
  }

  lemma WordOfBytes(a: byte, b: byte, c: byte, d: byte)
    ensures LittleEndian4(a + 0x100 * b + 0x1_0000 * c + 0x100_0000 * d) == [a, b, c, d]
  {
    var w := a + 0x100 * b + 0x1_0000 * c + 0x100_0000 * d;
    assert w / 0x100 == b + 0x100 * c + 0x1_0000 * d;
    assert w / 0x1_0000 == c + 0x100 * d;
    assert w / 0x100_0000 == d;
  }

  lemma {:induction false} PackAt(words: seq<nat>, i: nat)
    requires i < |words|
    ensures Pack(words)[4 * i..4 * i + 4] == LittleEndian4(words[i])
    decreases |words|
  {
    hide LittleEndian4;
    var n := |words| - 1;
    var front, last := Pack(words[..n]), LittleEndian4(words[n]);
    assert Pack(words) == front + last && |front| == 4 * n;
    if i < n {
      PackAt(words[..n], i);
      assert (front + last)[4 * i..4 * i + 4] == front[4 * i..4 * i + 4];
    } else {
      assert (front + last)[4 * i..4 * i + 4] == last;
    }
  }

  /** The words of a block, written out again, are the block and zeros up to its full length. */
  lemma WordsAreTheBlock(block: bytes)
    requires |block| <= BLOCK_LEN
    ensures |Words(block)| == 16 && Pack(Words(block)) == block + seq(BLOCK_LEN - |block|, i => 0)
  {
    hide Pack, LittleEndian4;
    var packed, padded := Pack(Words(block)), block + seq(BLOCK_LEN - |block|, i => 0);
    forall j | 0 <= j < BLOCK_LEN ensures packed[j] == padded[j] {
      var i := j / 4;
      PackAt(Words(block), i);
      WordOfBytes(ByteAt(block, 4 * i), ByteAt(block, 4 * i + 1), ByteAt(block, 4 * i + 2), ByteAt(block, 4 * i + 3));
      assert packed[j] == packed[4 * i..4 * i + 4][j - 4 * i];
    }
  }

  // ----- Chunks and parents -----

  /** `cvs` is the chain of values the blocks of one chunk produce, the last block left out. */
  ghost predicate Chains(m: Mode, blocks: seq<bytes>, counter: nat, cvs: seq<seq<nat>>)
    requires YieldsState(m.compress)
  {
    && |cvs| == |blocks| > 0 && cvs[0] == m.key
    && forall i | 1 <= i < |cvs| ::
         cvs[i] == m.compress(cvs[i - 1], Words(blocks[i - 1]), counter, 64, m.base | (if i == 1 then 1 else 0))[..8]
  }

  lemma {:induction false} ChainIs(m: Mode, blocks: seq<bytes>, counter: nat, cvs: seq<seq<nat>>, k: nat)
    requires YieldsState(m.compress) && Chains(m, blocks, counter, cvs) && k < |cvs|
    ensures cvs[k] == ChunkCv(m, blocks, counter, k)
  {
    hide Words;
    if k > 0 {
      ChainIs(m, blocks, counter, cvs, k - 1);
    }
  }

  /** A chunk: its blocks in order, each under the value of the ones before it; the first carries flag
      1 and the last flag 2 and its own length. */
  lemma ChunkIsAChain(m: Mode, chunk: bytes, counter: nat, blocks: seq<bytes>, cvs: seq<seq<nat>>)
    requires YieldsState(m.compress) && Cuts(blocks, chunk, 64) && Chains(m, blocks, counter, cvs)
    ensures var last := |blocks| - 1;
      Tree(m, [chunk], counter)
      == Output(cvs[last], Words(blocks[last]), counter, |blocks[last]|,
                m.base | (if last == 0 then 1 else 0) | 2)
  {
    hide Words, Pieces, Cuts;
    PiecesIff(blocks, chunk, 64);
    ChainIs(m, blocks, counter, cvs, |blocks| - 1);
  }

  lemma {:induction false} PowerIsPow2(k: nat)
    ensures IsPow2(Quantization.Pow2(k))
  {
    if k > 0 {
      PowerIsPow2(k - 1);
    }
  }

  /** Two or more chunks: the left subtree takes the largest power of two below their number; its value
      comes first, then that of the right subtree, under flag 4. */
  lemma TreeIsAParent(m: Mode, chunks: seq<bytes>, first: nat, k: nat)
    requires YieldsState(m.compress) && Quantization.Pow2(k) < |chunks| <= 2 * Quantization.Pow2(k)
    ensures var half := Quantization.Pow2(k);
      var left, right := Tree(m, chunks[..half], first), Tree(m, chunks[half..], first + half);
      Tree(m, chunks, first)
      == Output(m.key,
                m.compress(left.cv, left.words, left.counter, left.length, left.flags)[..8]
                + m.compress(right.cv, right.words, right.counter, right.length, right.flags)[..8],
                0, 64, m.base | 4)
  {
    hide Quantization.Pow2, Tree;
    var half := Quantization.Pow2(k);
    PowerIsPow2(k);
    LeftSizeIs(|chunks|, half);
    TreeSplits(m, chunks, first, half);
  }

  lemma TreeSplits(m: Mode, chunks: seq<bytes>, first: nat, half: nat)
    requires YieldsState(m.compress) && |chunks| >= 2 && half == LeftSize(|chunks|)
    ensures Tree(m, chunks, first)
         == ParentOutput(m, Cv(m, Tree(m, chunks[..half], first)), Cv(m, Tree(m, chunks[half..], first + half)))
  {
    hide ChunkOutput, ParentOutput, Cv, LeftSize, IsPow2;
  }

  // ----- Output and keys -----

  /** Output block `block` is the state of the root compressed with that counter under flag 8, word by
      word, each low byte first. */
  lemma OutputIsTheRootState(m: Mode, root: Output, block: nat, i: nat)
    requires YieldsState(m.compress) && i < 16
    ensures Stream(m, root, 64 * block + 4 * i, 4)
         == LittleEndian4(m.compress(root.cv, root.words, block, root.length, root.flags | 8)[i])
  {
    hide Pack, LittleEndian4;
    var state := m.compress(root.cv, root.words, block, root.length, root.flags | 8);
    var piece := Stream(m, root, 64 * block + 4 * i, 4);
    PackAt(state, i);
    forall k | 0 <= k < 4 ensures piece[k] == LittleEndian4(state[i])[k] {
      var at := 64 * block + 4 * i + k;
      assert at / BLOCK_LEN == block && at % BLOCK_LEN == 4 * i + k;
      assert piece[k] == StreamByte(m, root, at) == StreamBlock(m, root, block)[4 * i + k];
      assert StreamBlock(m, root, block) == Pack(state);
      assert piece[k] == Pack(state)[4 * i + k] == Pack(state)[4 * i..4 * i + 4][k];
    }
  }

  /** A key is eight words, and every node of a keyed hash carries flag 16; a plain one none. */
  lemma KeyIsItsWords(f: Compress, key: bytes)
    requires |key| == 32
    ensures |KeyedMode(f, key).key| == 8 && Pack(KeyedMode(f, key).key) == key
    ensures KeyedMode(f, key).base == 16 && PlainMode(f).base == 0 && KeyedMode(f, key).compress == f
  {
    hide Words, Pack;
    WordsAreTheBlock(key);
    PackPrefix(Words(key), 8);
    assert (key + seq(BLOCK_LEN - |key|, i => 0))[..32] == key;
  }
}
