/** BLAKE3 tree hashing over any compression function: stack, tree and output. */
module Blake3 {
  // The left-full tree is that of section 2.1 of the BLAKE3 specification, the extendable output
  // that of section 2.6.

  import opened Cbor
  import opened Commons

  const CHUNK_START: bv8 := 1
  const CHUNK_END: bv8 := 2
  const PARENT: bv8 := 4
  const ROOT: bv8 := 8
  const KEYED_HASH: bv8 := 16
  const BLOCK_LEN := 64
  const CHUNK_LEN := 1024
  const KEY_LEN := 32

  const IV: seq<nat> :=
    [0x6A09E667, 0xBB67AE85, 0x3C6EF372, 0xA54FF53A, 0x510E527F, 0x9B05688C, 0x1F83D9AB, 0x5BE0CD19]

  /** From a chaining value, block words, counter, block length and flags to the 16 state words. */
  type Compress = (seq<nat>, seq<nat>, nat, nat, bv8) -> seq<nat>

  ghost predicate YieldsState(f: Compress) {
    forall cv, words, counter, length, flags :: |f(cv, words, counter, length, flags)| == 16
  }

  /** How a hash is set up: the compression function, the key words and the flags on every node. */
  datatype Mode = Mode(compress: Compress, key: seq<nat>, base: bv8)

  /** A node before finalization: everything the compression function is about to be given. */
  datatype Output = Output(cv: seq<nat>, words: seq<nat>, counter: nat, length: nat, flags: bv8)

  /** The chaining value of a node: the first eight state words. */
  function Cv(m: Mode, o: Output): seq<nat>
    requires YieldsState(m.compress)
  {
    m.compress(o.cv, o.words, o.counter, o.length, o.flags)[..8]
  }

  // ----- Words and blocks -----

  function ByteAt(block: bytes, i: nat): byte { if i < |block| then block[i] else 0 }

  /** The sixteen little-endian words of a block padded with zeros. */
  function Words(block: bytes): seq<nat> {
    seq(16, i requires 0 <= i < 16 =>
      ByteAt(block, 4 * i) + 0x100 * ByteAt(block, 4 * i + 1)
      + 0x1_0000 * ByteAt(block, 4 * i + 2) + 0x100_0000 * ByteAt(block, 4 * i + 3))
  }

  /** The pieces of `data`, each `size` bytes but the last; one empty piece if there is no data. */
  function Pieces(data: bytes, size: nat): (ps: seq<bytes>)
    requires size > 0
    ensures |ps| > 0
    decreases |data|
  {
    if |data| <= size then [data] else [data[..size]] + Pieces(data[size..], size)
  }

  /** The chaining value after the first `k` blocks of a chunk. */
  function ChunkCv(m: Mode, blocks: seq<bytes>, counter: nat, k: nat): seq<nat>
    requires YieldsState(m.compress) && k <= |blocks|
  {
    if k == 0 then m.key
    else
      var start := if k == 1 then CHUNK_START else 0;
      m.compress(ChunkCv(m, blocks, counter, k - 1), Words(blocks[k - 1]), counter, BLOCK_LEN, m.base | start)[..8]
  }

  /** The node of a chunk: its last block, carrying the end flag. */
  function ChunkOutput(m: Mode, chunk: bytes, counter: nat): Output
    requires YieldsState(m.compress)
  {
    var blocks := Pieces(chunk, BLOCK_LEN);
    var last := |blocks| - 1;
    var start := if last == 0 then CHUNK_START else 0;
    Output(ChunkCv(m, blocks, counter, last), Words(blocks[last]), counter, |blocks[last]|, m.base | start | CHUNK_END)
  }

  function ParentOutput(m: Mode, left: seq<nat>, right: seq<nat>): Output {
    Output(m.key, left + right, 0, BLOCK_LEN, m.base | PARENT)
  }

  // ----- Powers of two -----

  predicate IsPow2(p: nat) { p == 1 || (p > 0 && p % 2 == 0 && IsPow2(p / 2)) }

  /** The lowest set bit of `c`. */
  function LowBit(c: nat): (p: nat)
    requires c > 0
    ensures 0 < p <= c && IsPow2(p)
  {
    if c % 2 == 1 then 1 else 2 * LowBit(c / 2)
  }

  /** The largest power of two below `n`: the chunks of the left subtree of a tree of `n`. */
  function LeftSize(n: nat): (p: nat)
    requires n >= 2
    ensures IsPow2(p) && p < n <= 2 * p
  {
    if n == 2 then 1 else 2 * LeftSize((n + 1) / 2)
  }

  lemma {:induction false} Pow2Between(p: nat, q: nat, n: nat)
    requires IsPow2(p) && IsPow2(q) && p < n <= 2 * p && q < n <= 2 * q
    ensures p == q
    decreases p
  {
    if p > 1 && q > 1 {
      Pow2Between(p / 2, q / 2, (n + 1) / 2);
    }
  }

  lemma LeftSizeIs(n: nat, p: nat)
    requires IsPow2(p) && p < n <= 2 * p
    ensures n >= 2 && LeftSize(n) == p
  {
    Pow2Between(p, LeftSize(n), n);
  }

  lemma {:induction false} LowBitOfOddMultiple(size: nat, k: nat)
    requires IsPow2(size) && k % 2 == 1
    ensures size * k > 0 && LowBit(size * k) == size
    decreases size
  {
    if size == 1 {
      assert size * k == k;
    } else {
      var half := size / 2;
      LowBitOfOddMultiple(half, k);
      assert size * k == 2 * (half * k);
    }
  }

  /** Clearing the lowest set bit leaves a number whose lowest set bit is higher. */
  lemma {:induction false} NextLowBit(c: nat)
    requires c > 0
    ensures c - LowBit(c) > 0 ==> LowBit(c - LowBit(c)) >= 2 * LowBit(c)
  {
    if c % 2 == 0 {
      NextLowBit(c / 2);
      var d := c / 2 - LowBit(c / 2);
      assert c - LowBit(c) == 2 * d;
    }
  }

  // ----- The tree -----

  /** The left-full binary tree over `chunks`, the first of which has number `first`. */
  function Tree(m: Mode, chunks: seq<bytes>, first: nat): Output
    requires YieldsState(m.compress) && |chunks| > 0
    decreases |chunks|
  {
    if |chunks| == 1 then ChunkOutput(m, chunks[0], first)
    else
      var left := LeftSize(|chunks|);
      ParentOutput(m, Cv(m, Tree(m, chunks[..left], first)), Cv(m, Tree(m, chunks[left..], first + left)))
  }

  /** The tree over chunks `from` to `to`. */
  function Subtree(m: Mode, chunks: seq<bytes>, from: nat, to: nat): Output
    requires YieldsState(m.compress) && from < to <= |chunks|
  {
    Tree(m, chunks[from..to], from)
  }

  lemma SubtreeSplits(m: Mode, chunks: seq<bytes>, from: nat, mid: nat, to: nat)
    requires YieldsState(m.compress) && from < mid < to <= |chunks|
    requires IsPow2(mid - from) && to - mid <= mid - from
    ensures Subtree(m, chunks, from, to)
         == ParentOutput(m, Cv(m, Subtree(m, chunks, from, mid)), Cv(m, Subtree(m, chunks, mid, to)))
  {
    hide ChunkOutput, ParentOutput, Cv, IsPow2, LeftSize;
    LeftSizeIs(to - from, mid - from);
    assert chunks[from..to][..mid - from] == chunks[from..mid];
    assert chunks[from..to][mid - from..] == chunks[mid..to];
  }

  /** After `c` chunks: one perfect subtree for each binary digit of `c`, the largest first. */
  function Stack(m: Mode, chunks: seq<bytes>, c: nat): seq<seq<nat>>
    requires YieldsState(m.compress) && c <= |chunks|
  {
    if c == 0 then []
    else
      var p := LowBit(c);
      Stack(m, chunks, c - p) + [Cv(m, Subtree(m, chunks, c - p, c))]
  }

  /** The number of binary digits 1 in `c`. */
  function Ones(c: nat): nat { if c == 0 then 0 else c % 2 + Ones(c / 2) }

  lemma {:induction false} OnesOfLowBit(c: nat)
    requires c > 0
    ensures Ones(c) == Ones(c - LowBit(c)) + 1
  {
    if c % 2 == 0 {
      OnesOfLowBit(c / 2);
      var d := c / 2 - LowBit(c / 2);
      assert c - LowBit(c) == 2 * d;
    }
  }

  lemma {:induction false} StackHeight(m: Mode, chunks: seq<bytes>, c: nat)
    requires YieldsState(m.compress) && c <= |chunks|
    ensures |Stack(m, chunks, c)| == Ones(c)
  {
    hide Subtree, Cv, LowBit;
    if c > 0 {
      OnesOfLowBit(c);
      StackHeight(m, chunks, c - LowBit(c));
    }
  }

  // ----- The incremental hash as it runs -----

  method ChunkNode(m: Mode, chunk: bytes, counter: nat) returns (o: Output)
    requires YieldsState(m.compress)
    ensures o == ChunkOutput(m, chunk, counter)
  {
    hide Words, Pieces;
    var cv := m.key;
    var blocks := Pieces(chunk, BLOCK_LEN);
    var last := |blocks| - 1;
    for index := 0 to last
      invariant cv == ChunkCv(m, blocks, counter, index)
    {
      var flags := m.base | (if index == 0 then CHUNK_START else 0);
      cv := m.compress(cv, Words(blocks[index]), counter, BLOCK_LEN, flags)[..8];
    }
    o := Output(cv, Words(blocks[last]), counter, |blocks[last]|,
                m.base | (if last == 0 then CHUNK_START else 0) | CHUNK_END);
  }

  lemma StackTop(m: Mode, chunks: seq<bytes>, c: nat)
    requires YieldsState(m.compress) && 0 < c <= |chunks|
    ensures var s := Stack(m, chunks, c);
      && |s| > 0 && s[..|s| - 1] == Stack(m, chunks, c - LowBit(c))
      && s[|s| - 1] == Cv(m, Subtree(m, chunks, c - LowBit(c), c))
  {
  }

  lemma OneIsPow2()
    ensures IsPow2(1)
  {
  }

  lemma DoublePow2(size: nat)
    requires IsPow2(size)
    ensures IsPow2(2 * size)
  {
    assert (2 * size) / 2 == size;
  }

  lemma Halve(size: nat, h: nat, n: nat)
    requires h > 0 && size * (2 * h) == n
    ensures 2 * size <= n && size * (2 * h - 1) == n - size && (2 * size) * h == n
  {
    assert size * h >= size;
  }

  /** Pushes chunk number `counter`: merges while the number of chunks is even, then pushes. */
  method PushChunk(m: Mode, ghost chunks: seq<bytes>, counter: nat, leaf: seq<nat>, stack: seq<seq<nat>>)
    returns (pushed: seq<seq<nat>>)
    requires YieldsState(m.compress) && counter < |chunks|
    requires stack == Stack(m, chunks, counter)
    requires leaf == Cv(m, Subtree(m, chunks, counter, counter + 1))
    ensures pushed == Stack(m, chunks, counter + 1)
  {
    hide Stack, Subtree, Cv, IsPow2, LowBit, ParentOutput;
    var cv, total := leaf, counter + 1;
    OneIsPow2();
    pushed := stack;
    ghost var size: nat := 1;
    while total % 2 == 0
      invariant total > 0 && IsPow2(size) && size * total == counter + 1
      invariant size <= counter + 1 && pushed == Stack(m, chunks, counter + 1 - size)
      invariant cv == Cv(m, Subtree(m, chunks, counter + 1 - size, counter + 1))
      decreases total
    {
      ghost var mid := counter + 1 - size;
      assert total == 2 * (total / 2);
      Halve(size, total / 2, counter + 1);
      DoublePow2(size);
      LowBitOfOddMultiple(size, total - 1);
      StackTop(m, chunks, mid);
      var top := pushed[|pushed| - 1];
      pushed := pushed[..|pushed| - 1];
      SubtreeSplits(m, chunks, mid - size, mid, counter + 1);
      cv := Cv(m, ParentOutput(m, top, cv));
      total := total / 2;
      size := 2 * size;
    }
    LowBitOfOddMultiple(size, total);
    StackTop(m, chunks, counter + 1);
    pushed := pushed + [cv];
    ghost var full := Stack(m, chunks, counter + 1);
    assert full == full[..|full| - 1] + [full[|full| - 1]];
  }

  /** The incremental hash computes the root of the left-full tree over the chunks. */
  method RootOutput(m: Mode, data: bytes) returns (o: Output)
    requires YieldsState(m.compress)
    ensures o == Tree(m, Pieces(data, CHUNK_LEN), 0)
  {
    hide Tree, ChunkOutput, Cv, Pieces;
    var chunks := Pieces(data, CHUNK_LEN);
    var n := |chunks|;
    var stack: seq<seq<nat>> := [];
    assert Stack(m, chunks, 0) == [];
    for counter := 0 to n - 1
      invariant stack == Stack(m, chunks, counter)
    {
      hide Stack;
      var node := ChunkNode(m, chunks[counter], counter);
      LeafTree(m, chunks, counter);
      stack := PushChunk(m, chunks, counter, Cv(m, node), stack);
    }
    o := ChunkNode(m, chunks[n - 1], n - 1);
    LeafTree(m, chunks, n - 1);
    o := FoldStack(m, chunks, stack, o);
    assert chunks[0..n] == chunks;
  }

  lemma LeafTree(m: Mode, chunks: seq<bytes>, i: nat)
    requires YieldsState(m.compress) && i < |chunks|
    ensures Subtree(m, chunks, i, i + 1) == ChunkOutput(m, chunks[i], i)
  {
    hide ChunkOutput;
    assert chunks[i..i + 1] == [chunks[i]];
  }

  /** Folds the stack into the last chunk, right to left. */
  method FoldStack(m: Mode, ghost chunks: seq<bytes>, pending: seq<seq<nat>>, last: Output) returns (o: Output)
    requires YieldsState(m.compress) && |chunks| > 0
    requires pending == Stack(m, chunks, |chunks| - 1)
    requires last == Subtree(m, chunks, |chunks| - 1, |chunks|)
    ensures o == Subtree(m, chunks, 0, |chunks|)
  {
    hide Subtree, Cv;
    ghost var n := |chunks|;
    ghost var c: nat := n - 1;
    var stack := pending;
    o := last;
    while stack != []
      invariant c < n && stack == Stack(m, chunks, c)
      invariant o == Subtree(m, chunks, c, n)
      invariant c > 0 ==> n - c <= LowBit(c)
      decreases |stack|
    {
      ghost var p := LowBit(c);
      StackTop(m, chunks, c);
      NextLowBit(c);
      SubtreeSplits(m, chunks, c - p, c, n);
      var top := stack[|stack| - 1];
      stack := stack[..|stack| - 1];
      o := ParentOutput(m, top, Cv(m, o));
      c := c - p;
    }
    assert c == 0 by { if c > 0 { StackTop(m, chunks, c); } }
  }

  // ----- Extendable output -----

  function LittleEndian4(w: nat): (r: bytes)
    ensures |r| == 4
  {
    [w % 256, w / 0x100 % 256, w / 0x1_0000 % 256, w / 0x100_0000 % 256]
  }

  function Pack(words: seq<nat>): (r: bytes)
    ensures |r| == 4 * |words|
  {
    if words == [] then [] else Pack(words[..|words| - 1]) + LittleEndian4(words[|words| - 1])
  }

  lemma {:induction false} PackPrefix(words: seq<nat>, k: nat)
    requires k <= |words|
    ensures Pack(words)[..4 * k] == Pack(words[..k])
    decreases |words|
  {
    if k == |words| {
      assert words[..k] == words;
    } else {
      PackPrefix(words[..|words| - 1], k);
      assert words[..|words| - 1][..k] == words[..k];
    }
  }

  /** Block `index` of the output stream of a root node. */
  function StreamBlock(m: Mode, root: Output, index: nat): (r: bytes)
    requires YieldsState(m.compress)
    ensures |r| == BLOCK_LEN
  {
    Pack(m.compress(root.cv, root.words, index, root.length, root.flags | ROOT))
  }

  function StreamByte(m: Mode, root: Output, k: nat): byte
    requires YieldsState(m.compress)
  {
    StreamBlock(m, root, k / BLOCK_LEN)[k % BLOCK_LEN]
  }

  /** Bytes `offset` to `offset + length` of the output stream. */
  function Stream(m: Mode, root: Output, offset: nat, length: nat): (r: bytes)
    requires YieldsState(m.compress)
    ensures |r| == length
  {
    seq<byte>(length, k requires 0 <= k < length => StreamByte(m, root, offset + k))
  }

  /** Reading at an offset is reading from the start and dropping; adjacent reads concatenate. */
  lemma StreamIsSeekable(m: Mode, root: Output, offset: nat, length: nat, more: nat)
    requires YieldsState(m.compress)
    ensures Stream(m, root, 0, offset + length)[offset..] == Stream(m, root, offset, length)
    ensures Stream(m, root, offset, length) + Stream(m, root, offset + length, more)
         == Stream(m, root, offset, length + more)
  {
    hide StreamByte;
  }

  lemma StreamExtends(m: Mode, root: Output, first: nat, count: nat)
    requires YieldsState(m.compress)
    ensures Stream(m, root, BLOCK_LEN * first, BLOCK_LEN * count) + StreamBlock(m, root, first + count)
         == Stream(m, root, BLOCK_LEN * first, BLOCK_LEN * (count + 1))
  {
    hide StreamBlock;
    var block := StreamBlock(m, root, first + count);
    var start := BLOCK_LEN * (first + count);
    forall k | 0 <= k < BLOCK_LEN ensures StreamByte(m, root, start + k) == block[k] {
      assert (start + k) / BLOCK_LEN == first + count && (start + k) % BLOCK_LEN == k;
    }
    assert Stream(m, root, start, BLOCK_LEN) == block;
    StreamIsSeekable(m, root, BLOCK_LEN * first, BLOCK_LEN * count, BLOCK_LEN);
  }

  /** Starts at the block that holds `offset`, produces whole blocks and cuts out the range. */
  method Xof(m: Mode, data: bytes, offset: nat, length: nat) returns (r: bytes)
    requires YieldsState(m.compress)
    ensures r == Stream(m, Tree(m, Pieces(data, CHUNK_LEN), 0), offset, length)
  {
    hide Stream, StreamBlock, Tree;
    var root := RootOutput(m, data);
    var first := offset / BLOCK_LEN;
    var skip := offset % BLOCK_LEN;
    var block := first;
    var produced: bytes := [];
    assert produced == Stream(m, root, BLOCK_LEN * first, 0);
    while |produced| < skip + length
      invariant first <= block && |produced| == BLOCK_LEN * (block - first)
      invariant produced == Stream(m, root, BLOCK_LEN * first, BLOCK_LEN * (block - first))
      decreases skip + length - |produced|
    {
      StreamExtends(m, root, first, block - first);
      BlockIs(m, root, block);
      produced := produced + Pack(m.compress(root.cv, root.words, block, root.length, root.flags | ROOT));
      block := block + 1;
    }
    StreamSlice(m, root, BLOCK_LEN * first, |produced|, skip, length);
    r := produced[skip..skip + length];
  }

  lemma BlockIs(m: Mode, root: Output, block: nat)
    requires YieldsState(m.compress)
    ensures StreamBlock(m, root, block)
         == Pack(m.compress(root.cv, root.words, block, root.length, root.flags | ROOT))
  {
  }

  lemma StreamSlice(m: Mode, root: Output, start: nat, total: nat, skip: nat, length: nat)
    requires YieldsState(m.compress) && skip + length <= total
    ensures Stream(m, root, start, total)[skip..skip + length] == Stream(m, root, start + skip, length)
  {
    hide StreamByte;
    var whole := Stream(m, root, start, total);
    var part := Stream(m, root, start + skip, length);
    forall k | 0 <= k < length ensures whole[skip..skip + length][k] == part[k] {
      assert whole[skip + k] == StreamByte(m, root, start + (skip + k));
    }
  }

  // ----- With and without a key -----

  function PlainMode(f: Compress): Mode { Mode(f, IV, 0) }

  /** The eight words of a 32-byte key, and its flag on every node. */
  function KeyedMode(f: Compress, key: bytes): Mode
    requires |key| == KEY_LEN
  {
    Mode(f, Words(key)[..8], KEYED_HASH)
  }

  /** The (keyed) output from byte `offset`; a key that is not 32 bytes long is refused. */
  method KeyedXof(f: Compress, data: bytes, key: Option<bytes>, offset: nat, length: nat)
    returns (r: Option<bytes>)
    requires YieldsState(f)
    ensures r.None? <==> key.Some? && |key.value| != KEY_LEN
    ensures r.Some? ==>
      var m := if key.Some? then KeyedMode(f, key.value) else PlainMode(f);
      r.value == Stream(m, Tree(m, Pieces(data, CHUNK_LEN), 0), offset, length)
  {
    hide Tree, Stream, Pieces;
    if key.Some? && |key.value| != KEY_LEN {
      return None;
    }
    var m := if key.Some? then KeyedMode(f, key.value) else PlainMode(f);
    var output := Xof(m, data, offset, length);
    return Some(output);
  }

  // ----- The plain 32-byte hash -----

  lemma RootCounterIsZero(m: Mode, chunks: seq<bytes>)
    requires YieldsState(m.compress) && |chunks| > 0
    ensures Tree(m, chunks, 0).counter == 0
  {
  }

  /** The plain hash gives the root its own counter; it is the first half of output block 0. */
  method Hash(f: Compress, data: bytes) returns (r: bytes)
    requires YieldsState(f)
    ensures r == Stream(PlainMode(f), Tree(PlainMode(f), Pieces(data, CHUNK_LEN), 0), 0, 32)
  {
    hide Tree, Stream, Pack, Pieces;
    var m := PlainMode(f);
    var o := RootOutput(m, data);
    var state := m.compress(o.cv, o.words, o.counter, o.length, o.flags | ROOT);
    r := Pack(state[..8]);
    RootCounterIsZero(m, Pieces(data, CHUNK_LEN));
    PackPrefix(state, 8);
    FirstHalf(m, o);
  }

  lemma FirstHalf(m: Mode, root: Output)
    requires YieldsState(m.compress)
    ensures Stream(m, root, 0, 32) == StreamBlock(m, root, 0)[..32]
  {
    hide StreamBlock;
    var stream, block := Stream(m, root, 0, 32), StreamBlock(m, root, 0);
    forall k | 0 <= k < 32 ensures stream[k] == block[k] {
      assert k / BLOCK_LEN == 0 && k % BLOCK_LEN == k;
      assert stream[k] == StreamByte(m, root, k);
    }
  }
}
