/** Cutting a file into blocks, the leaves built from the blocks, and the blocks
    read back for proofs.  The hash is a parameter; where a property needs it,
    it is assumed injective. */
module Chunking {
  import opened Wrappers
  import opened Collections
  import opened Numerals

  type Bytes = seq<Byte>

  type Digest = seq<Byte>

  ghost predicate Injective<A(!new), B>(h: A -> B) {
    forall x, y {:trigger h(x), h(y)} :: h(x) == h(y) ==> x == y
  }

  /** Block `i` of a file: up to `size` bytes from offset i * size. */
  function Block(content: Bytes, size: nat, i: nat): (b: Bytes)
    ensures |b| <= size
  {
    BlockBounds(size, i);
    content[Min(i * size, |content|)..Min((i + 1) * size, |content|)]
  }

  lemma BlockBounds(size: nat, i: nat)
    ensures 0 <= i * size <= (i + 1) * size == i * size + size
  {
  }

  /** strconv.FormatInt in base ten. */
  function FormatInt(i: int): string {
    if i < 0 then "-" + Decimal(0 - i) else Decimal(i)
  }

  /** A number's form has no leading zero, and a sign exactly if it is negative. */
  lemma FormatIntIs(i: int)
    ensures var s := FormatInt(i);
            s != "" &&
            var digits := if i < 0 then s[1..] else s;
            && (i < 0 <==> s[0] == '-')
            && digits != "" && (forall k :: 0 <= k < |digits| ==> '0' <= digits[k] <= '9')
            && (digits[0] == '0' ==> |digits| == 1)
            && ParseDigits(digits) == Some(if i < 0 then 0 - i else i)
  {
    var n := if i < 0 then 0 - i else i;
    DecimalIs(Decimal(n), n);
    assert i < 0 ==> FormatInt(i)[1..] == Decimal(n);
  }

  /** The text that is hashed into a leaf. */
  function LeafText(index: int, block: Bytes): string {
    FormatInt(index) + Hex(block)
  }

  /** The leaf array for a file said to have `fileSize` bytes: one slot more than
      whole blocks, and an empty slot where no block starts. */
  function Leaves(content: Bytes, size: nat, fileSize: nat, h: string -> Digest): (leaves: seq<Option<Digest>>)
    requires size > 0
    ensures |leaves| == fileSize / size + 1
  {
    seq(fileSize / size + 1, i requires 0 <= i =>
      if i * size < fileSize then Some(h(LeafText(i, Block(content, size, i)))) else None)
  }

  class File {
    const content: Bytes
    var pos: nat

    constructor (content: Bytes)
      ensures this.content == content && pos == 0
    {
      this.content, pos := content, 0;
    }

    /** Reads up to `n` bytes from the current position. */
    method Read(n: nat) returns (chunk: Bytes)
      modifies this
      ensures chunk == content[Min(old(pos), |content|)..Min(old(pos) + n, |content|)]
      ensures pos == old(pos) + |chunk|
    {
      chunk := content[Min(pos, |content|)..Min(pos + n, |content|)];
      pos := pos + |chunk|;
    }

    method Seek(to: nat)
      modifies this
      ensures pos == to
    {
      pos := to;
    }
  }

  lemma DivideExact(k: nat, size: nat)
    requires size > 0
    ensures k * size / size == k
  {
    DivisionIs(k * size, size, k, 0);
  }

  lemma DivisionIs(a: nat, size: nat, q: nat, r: nat)
    requires size > 0 && r < size && a == q * size + r
    ensures a / size == q && a % size == r
  {
    var d := a / size - q;
    assert d * size == r - a % size;
    Scaled(1, if d > 0 then d else 1, size);
    Scaled(if d < 0 then d else -1, -1, size);
  }

  lemma Scaled(a: int, b: int, size: nat)
    requires a <= b
    ensures a * size <= b * size
  {
  }

  /** A block that starts inside the file belongs to a slot of the leaf array. */
  lemma SlotExists(k: nat, size: nat, fileSize: nat)
    requires size > 0 && k * size < fileSize
    ensures k <= fileSize / size
  {
    if k > fileSize / size {
      Scaled(fileSize / size + 1, k, size);
    }
  }

  lemma BlockIs(content: Bytes, size: nat, i: nat)
    ensures 0 <= i * size
    ensures Block(content, size, i) == content[Min(i * size, |content|)..Min(i * size + size, |content|)]
  {
    BlockBounds(size, i);
  }

  /** Builds the leaf array of a file block by block, and leaves the file's
      position as it was.  The tree itself is built from these leaves. */
  method CreateMerkleTree(blockSize: nat, fileSize: nat, file: File, h: string -> Digest)
    returns (leaves: seq<Option<Digest>>)
    requires blockSize > 0
    modifies file
    ensures leaves == Leaves(file.content, blockSize, fileSize, h)
    ensures |leaves| == fileSize / blockSize + 1
    ensures forall i :: 0 <= i < |leaves| ==>
              var from, to, length := i * blockSize, i * blockSize + blockSize, |file.content|;
              leaves[i] ==
              if from >= fileSize then None
              else if from >= length then Some(h(LeafText(i, [])))
              else Some(h(LeafText(i, file.content[from..if to <= length then to else length])))
    ensures file.pos == old(file.pos)
  {
    hide Block, LeafText;
    var current := file.pos;
    file.Seek(0);
    var data := new Option<Digest>[fileSize / blockSize + 1](_ => None);
    ghost var want := Leaves(file.content, blockSize, fileSize, h);
    var i := 0;
    ghost var k := 0;
    while i < fileSize
      invariant 0 <= i == k * blockSize && 0 <= k
      invariant file.pos == Min(i, |file.content|)
      invariant forall j :: 0 <= j < k && j < |want| ==> data[j] == want[j]
      invariant forall j :: k <= j < data.Length ==> data[j] == None
      decreases fileSize - i
    {
      var firstX := file.Read(blockSize);
      BlockBounds(blockSize, k);
      BlockIs(file.content, blockSize, k);
      DivideExact(k, blockSize);
      SlotExists(k, blockSize, fileSize);
      data[i / blockSize] := Some(h(LeafText(i / blockSize, firstX)));
      assert want[k] == data[k];
      i := i + blockSize;
      k := k + 1;
    }
    file.Seek(current);
    forall j | k <= j < data.Length ensures want[j] == None {
      Scaled(k, j, blockSize);
    }
    leaves := data[..];
    forall j | 0 <= j < |leaves|
      ensures 0 <= j * blockSize
      ensures Block(file.content, blockSize, j) ==
              file.content[Min(j * blockSize, |file.content|)..Min(j * blockSize + blockSize, |file.content|)]
    {
      BlockIs(file.content, blockSize, j);
    }
  }

  /** What is hashed into a leaf: first the block's number in its one form without a
      leading zero, */
  lemma LeafTextNumber(i: nat, block: Bytes)
    ensures var text := LeafText(i, block);
            var m := |text| - 2 * |block|;
            && 0 < m <= |text| && (forall k :: 0 <= k < m ==> '0' <= text[k] <= '9')
            && (text[0] == '0' ==> m == 1) && ParseDigits(text[..m]) == Some(i)
  {
    var text, m := LeafText(i, block), |Decimal(i)|;
    assert text == Decimal(i) + Hex(block);
    DecimalIs(Decimal(i), i);
    hide *;
    assert text[..m] == Decimal(i);
    assert forall k :: 0 <= k < m ==> text[k] == Decimal(i)[k];
  }

  /** and then each byte of the block as two lower-case hexadecimal digits. */
  lemma LeafTextByte(i: nat, block: Bytes, k: nat)
    requires k < |block|
    ensures var text := LeafText(i, block);
            var m := |text| - 2 * |block|;
            && m >= 0
            && var hi, lo := text[m + 2 * k], text[m + 2 * k + 1];
               && ('0' <= hi <= '9' || 'a' <= hi <= 'f') && ('0' <= lo <= '9' || 'a' <= lo <= 'f')
               && 16 * (if hi <= '9' then hi as int - '0' as int else hi as int - 'a' as int + 10)
                  + (if lo <= '9' then lo as int - '0' as int else lo as int - 'a' as int + 10) == block[k]
  {
    var text := LeafText(i, block);
    assert text == Decimal(i) + Hex(block);
    hide *;
    HexIs(block, k);
    var m := |Decimal(i)|;
    assert text[m + 2 * k] == Hex(block)[2 * k] && text[m + 2 * k + 1] == Hex(block)[2 * k + 1];
  }

  // ----------------------------------------------------- leaves determine content

  lemma LeafTextInjective(index: int, a: Bytes, b: Bytes)
    requires LeafText(index, a) == LeafText(index, b)
    ensures a == b
  {
    var p := FormatInt(index);
    assert (p + Hex(a))[|p|..] == Hex(a) && (p + Hex(b))[|p|..] == Hex(b);
    HexInjective(a, b);
  }

  lemma LeafAt(content: Bytes, size: nat, h: string -> Digest, i: nat)
    requires size > 0 && i * size < |content|
    ensures i < |Leaves(content, size, |content|, h)|
    ensures Leaves(content, size, |content|, h)[i] == Some(h(LeafText(i, Block(content, size, i))))
  {
    SlotExists(i, size, |content|);
  }

  /** Every slot but the last holds a leaf; the last is empty exactly if the file
      is a number of whole blocks. */
  lemma ExtraSlot(content: Bytes, size: nat, h: string -> Digest)
    requires size > 0
    ensures var leaves := Leaves(content, size, |content|, h);
            && (leaves[|leaves| - 1].None? <==> |content| % size == 0)
            && forall i :: 0 <= i < |leaves| - 1 ==> leaves[i].Some?
  {
    var q := |content| / size;
    assert |content| == q * size + |content| % size;
    forall i | 0 <= i < q ensures i * size < |content| {
      Scaled(i + 1, q, size);
      BlockBounds(size, i);
    }
  }

  lemma SameLeafSameBlock(a: Bytes, b: Bytes, size: nat, h: string -> Digest, i: nat)
    requires size > 0 && Injective(h)
    requires Leaves(a, size, |a|, h) == Leaves(b, size, |b|, h) && i * size < |a|
    ensures i * size < |b| && Block(a, size, i) == Block(b, size, i)
  {
    LeafAt(a, size, h, i);
    var leaf := Leaves(b, size, |b|, h)[i];
    assert leaf.Some?;
    LeafTextInjective(i, Block(a, size, i), Block(b, size, i));
  }

  lemma BlockCount(length: nat, size: nat) returns (n: nat)
    requires size > 0
    ensures n * size >= length && (n > 0 ==> (n - 1) * size < length)
  {
    var q, r := length / size, length % size;
    assert length == q * size + r;
    n := if r == 0 then q else q + 1;
    BlockBounds(size, q);
    if q > 0 {
      BlockBounds(size, q - 1);
    }
  }

  lemma BlockLength(content: Bytes, size: nat, i: nat)
    requires i * size <= |content|
    ensures |Block(content, size, i)| == Min(size, |content| - i * size)
  {
    BlockBounds(size, i);
  }

  lemma SameLeavesNotLonger(a: Bytes, b: Bytes, size: nat, h: string -> Digest)
    requires size > 0 && Injective(h)
    requires Leaves(a, size, |a|, h) == Leaves(b, size, |b|, h)
    ensures |a| <= |b|
  {
    hide Leaves, Block;
    var n := BlockCount(|a|, size);
    if n > 0 {
      SameLeafSameBlock(a, b, size, h, n - 1);
      BlockLength(a, size, n - 1);
      BlockLength(b, size, n - 1);
      BlockBounds(size, n - 1);
    }
  }

  lemma ByteInBlock(content: Bytes, size: nat, p: nat)
    requires size > 0 && p < |content|
    ensures var i := p / size;
            i * size < |content| && p - i * size < |Block(content, size, i)| &&
            0 <= p - i * size && Block(content, size, i)[p - i * size] == content[p]
  {
    var i := p / size;
    assert p == i * size + p % size;
    BlockBounds(size, i);
  }

  /** Two files with the same leaf array are the same, byte for byte. */
  lemma LeavesDetermineContent(a: Bytes, b: Bytes, size: nat, h: string -> Digest)
    requires size > 0 && Injective(h)
    requires Leaves(a, size, |a|, h) == Leaves(b, size, |b|, h)
    ensures a == b
  {
    hide Leaves, Block;
    SameLeavesNotLonger(a, b, size, h);
    SameLeavesNotLonger(b, a, size, h);
    forall p | 0 <= p < |a| ensures a[p] == b[p] {
      ByteInBlock(a, size, p);
      ByteInBlock(b, size, p);
      SameLeafSameBlock(a, b, size, h, p / size);
    }
  }

  /** Two leaves of one file can only be equal if the later one is the file's
      short last block and its number is longer by twice the missing bytes; so
      among whole blocks every leaf is found at its own index only. */
  lemma EqualLeavesOnlyAtShortEnd(content: Bytes, size: nat, i: nat, j: nat)
    requires size > 0 && i < j && j * size < |content|
    requires LeafText(i, Block(content, size, i)) == LeafText(j, Block(content, size, j))
    ensures (j + 1) * size > |content|
    ensures |Decimal(j)| == |Decimal(i)| + 2 * (size - |Block(content, size, j)|) > |Decimal(i)|
  {
    BlockBounds(size, i);
    BlockBounds(size, j);
    Scaled(i + 1, j, size);
    var s, t := Decimal(i), Decimal(j);
    var a, b := Hex(Block(content, size, i)), Hex(Block(content, size, j));
    assert |s + a| == |t + b|;
    if |s| == |t| {
      assert s == (s + a)[..|s|] && t == (t + b)[..|t|];
      DecimalInjective(i, j);
    }
  }

  /** Block `j`'s hexadecimal form begins with the digits by which the number of
      block `i` is longer, and goes on with block `i`. */
  predicate Spelled(content: Bytes, size: nat, j: nat, i: nat) {
    var s, t := Decimal(j), Decimal(i);
    && |s| < |t| && t[..|s|] == s
    && Hex(Block(content, size, j)) == t[|s|..] + Hex(Block(content, size, i))
  }

  /** Two blocks of one file have the same hash input exactly in that case. */
  lemma SameLeafTextIffSpelled(content: Bytes, size: nat, j: nat, i: nat)
    requires size > 0 && j < i && i * size < |content|
    ensures LeafText(j, Block(content, size, j)) == LeafText(i, Block(content, size, i)) <==>
            Spelled(content, size, j, i)
  {
    hide Decimal, Hex, Block;
    var s, t := Decimal(j), Decimal(i);
    var a, b := Hex(Block(content, size, j)), Hex(Block(content, size, i));
    if s + a == t + b {
      EqualLeavesOnlyAtShortEnd(content, size, j, i);
      assert (t + b)[..|s|] == s && (t + b)[|s|..] == a;
      assert (t + b)[|s|..] == t[|s|..] + b;
    }
    if Spelled(content, size, j, i) {
      assert t == s + t[|s|..];
      assert s + (t[|s|..] + b) == (s + t[|s|..]) + b;
    }
  }

  /** Only a short last block can be spelled out by an earlier one. */
  lemma WholeBlocksNotSpelled(content: Bytes, size: nat, j: nat, i: nat)
    requires size > 0 && j < i && (i + 1) * size <= |content|
    ensures !Spelled(content, size, j, i)
  {
    BlockBounds(size, i);
    if Spelled(content, size, j, i) {
      SameLeafTextIffSpelled(content, size, j, i);
      EqualLeavesOnlyAtShortEnd(content, size, j, i);
    }
  }

  /** Such a file exists: block 1 of 0234 and the last block 102 of 34, in
      hexadecimal, are both hashed as 10234. */
  lemma LeafSharedAtShortEnd()
    ensures var content := seq(205, k => if k == 2 then 2 else 0x34 as Byte);
            LeafText(1, Block(content, 2, 1)) == LeafText(102, Block(content, 2, 102))
  {
    var content := seq(205, k => if k == 2 then 2 else 0x34 as Byte);
    assert Block(content, 2, 1) == [2, 0x34] && Block(content, 2, 102) == [0x34];
    assert Hex([0x34]) == "34" by {
      assert [0x34][1..] == [];
    }
    assert Hex([2, 0x34]) == "0234" by {
      assert [2, 0x34][1..] == [0x34];
    }
    assert Decimal(1) == "1" && Decimal(10) == "10" && Decimal(102) == "102";
    assert "1" + "0234" == "102" + "34";
  }

  // ----------------------------------------------------------- blocks and content

  /** The first `n` blocks one after the other. */
  function Blocks(content: Bytes, size: nat, n: nat): Bytes {
    if n == 0 then [] else Blocks(content, size, n - 1) + Block(content, size, n - 1)
  }

  lemma {:induction false} BlocksArePrefix(content: Bytes, size: nat, n: nat)
    ensures n * size >= 0 && Blocks(content, size, n) == content[..Min(n * size, |content|)]
  {
    if n > 0 {
      BlocksArePrefix(content, size, n - 1);
      BlockBounds(size, n - 1);
    }
  }

  lemma MinIsLast(a: int, b: int)
    requires b <= a
    ensures Min(a, b) == b
  {
  }

  /** The blocks of a file in order are the file. */
  lemma BlocksConcatenate(content: Bytes, size: nat)
    requires size > 0
    ensures Blocks(content, size, |content| / size + 1) == content
  {
    hide *;
    var q := |content| / size;
    assert |content| == q * size + |content| % size;
    BlockBounds(size, q);
    BlocksArePrefix(content, size, q + 1);
    MinIsLast((q + 1) * size, |content|);
    assert content[..|content|] == content;
  }
}
