/** The files on disk, and how pieces and trees are read from them in the single
    file layout and in the layout of one file per block. */
module Archive {
  import opened Wrappers
  import opened Collections
  import opened Numerals
  import opened Chunking

  /** One directory <storage>/<fid>: its files by name, and whether it holds a directory. */
  datatype Dir = Dir(files: map<string, Bytes>, subdirectory: bool)

  /** The storage root: the directories, and the tree files directly under the root. */
  datatype Storage = Storage(dirs: map<string, Dir>, trees: map<string, Bytes>)

  datatype ReadError = NotExist | EndOfFile | NegativeOffset

  function FileName(fid: string): string { fid + ".jkl" }

  function TreeName(fid: string): string { fid + ".tree" }

  function BlockFileName(index: int): string { FormatInt(index) + ".jkl" }

  function ReadFile(s: Storage, fid: string, name: string): Option<Bytes> {
    if fid in s.dirs && name in s.dirs[fid].files then Some(s.dirs[fid].files[name]) else None
  }

  function Zeros(n: nat): Bytes {
    seq(n, _ => 0)
  }

  /** Up to `n` bytes at an offset; an end of file is an error only if nothing was read. */
  function ReadAt(content: Bytes, n: nat, offset: int): Result<Bytes, ReadError> {
    if offset < 0 then Failure(NegativeOffset)
    else if n > 0 && offset >= |content| then Failure(EndOfFile)
    else Success(content[Min(offset, |content|)..Min(offset + n, |content|)])
  }

  /** SingleCellArchive.GetPiece. */
  function SinglePiece(s: Storage, fid: string, index: int, blockSize: nat): Result<Bytes, ReadError> {
    match ReadFile(s, fid, FileName(fid))
    case None => Failure(NotExist)
    case Some(content) => ReadAt(content, blockSize, index * blockSize)
  }

  /** A legacy block is read into a full-size buffer, which is not trimmed. */
  function LegacyPiece(block: Bytes, blockSize: nat): Result<Bytes, ReadError> {
    if blockSize > 0 && block == [] then Failure(EndOfFile)
    else Success(block[..Min(blockSize, |block|)] + Zeros(blockSize - Min(blockSize, |block|)))
  }

  /** HybridCellArchive.GetPiece: the block's own file if there is one. */
  function HybridPiece(s: Storage, fid: string, index: int, blockSize: nat): Result<Bytes, ReadError> {
    match ReadFile(s, fid, BlockFileName(index))
    case Some(block) => LegacyPiece(block, blockSize)
    case None => SinglePiece(s, fid, index, blockSize)
  }

  /** HybridCellArchive.RetrieveTree: the tree file at the root if there is one. */
  function HybridTree(s: Storage, fid: string): Option<Bytes> {
    if TreeName(fid) in s.trees then Some(s.trees[TreeName(fid)])
    else ReadFile(s, fid, TreeName(fid))
  }

  // ------------------------------------------------------------ what a read returns

  /** The bytes of the file <fid>/<fid>.jkl from index * size on, at most `size` of
      them; an error if there is no file, or no byte there. */
  lemma SinglePieceIs(s: Storage, fid: string, index: int, size: nat)
    requires size > 0
    ensures var r, name := SinglePiece(s, fid, index, size), fid + ".jkl";
            if fid !in s.dirs || name !in s.dirs[fid].files then r == Failure(NotExist)
            else
              var content, from := s.dirs[fid].files[name], index * size;
              if index < 0 then r == Failure(NegativeOffset)
              else if from >= |content| then r == Failure(EndOfFile)
              else r == Success(content[from..if from + size <= |content| then from + size else |content|])
  {
    if index < 0 {
      Scaled(index, -1, size);
    } else {
      Scaled(0, index, size);
    }
  }

  /** If the piece has a file <fid>/<number>.jkl of its own, `size` bytes: those of
      that file and zeros after them; an error if that file is empty.  If not, the
      piece of the single file, whose last piece is not padded. */
  lemma HybridPieceIs(s: Storage, fid: string, index: nat, number: string, size: nat)
    requires size > 0
    requires number != "" && (forall k :: 0 <= k < |number| ==> '0' <= number[k] <= '9')
    requires (number[0] == '0' ==> |number| == 1) && ParseDigits(number) == Some(index)
    ensures var r := HybridPiece(s, fid, index, size);
            if fid in s.dirs && number + ".jkl" in s.dirs[fid].files then
              var block := s.dirs[fid].files[number + ".jkl"];
              if block == [] then r == Failure(EndOfFile)
              else
                && r.Success? && |r.value| == size
                && forall k :: 0 <= k < size ==> r.value[k] == if k < |block| then block[k] else 0
            else r == SinglePiece(s, fid, index, size)
  {
    DecimalIs(number, index);
    assert BlockFileName(index) == number + ".jkl";
  }

  /** The tree file <fid>.tree at the root if there is one, or else the one in the
      file's directory. */
  lemma HybridTreeIs(s: Storage, fid: string)
    ensures HybridTree(s, fid) ==
            if fid + ".tree" in s.trees then Some(s.trees[fid + ".tree"])
            else if fid in s.dirs && fid + ".tree" in s.dirs[fid].files then Some(s.dirs[fid].files[fid + ".tree"])
            else None
  {
  }

  /** Reading piece by piece gives the file's blocks. */
  lemma PieceIsBlock(s: Storage, fid: string, content: Bytes, i: nat, blockSize: nat)
    requires ReadFile(s, fid, FileName(fid)) == Some(content)
    requires blockSize > 0 && i * blockSize < |content|
    ensures SinglePiece(s, fid, i, blockSize) == Success(Block(content, blockSize, i))
  {
    BlockBounds(blockSize, i);
  }

  /** Position of the leaf that a proof for a piece is made for, as the tree
      library looks it up; without it no proof can be made. */
  function FindLeaf(leaves: seq<Option<Digest>>, leaf: Digest): (r: Option<nat>)
    ensures r.Some? ==> r.value < |leaves| && leaves[r.value] == Some(leaf)
    ensures r.Some? ==> forall j :: 0 <= j < r.value ==> leaves[j] != Some(leaf)
    ensures r.None? ==> Some(leaf) !in leaves
  {
    if leaves == [] then None
    else if leaves[0] == Some(leaf) then Some(0)
    else
      match FindLeaf(leaves[1..], leaf)
      case None => None
      case Some(k) => Some(k + 1)
  }

  /** The leaf that a proof for a piece uses (GenerateMerkleProof). */
  function ProofLeaf(index: int, item: Bytes, h: string -> Digest): Digest {
    h(LeafText(index, item))
  }

  /** For a stored file and its own leaf array, every piece that exists hashes to
      the leaf at its index, so a proof can be made for it; a piece past the end
      cannot be read.  For an injective hash the proof is for that very leaf if
      and only if no earlier block spells the piece out, as none does for a piece
      of full size. */
  lemma StoredPieceMatchesLeaf(
      s: Storage, fid: string, content: Bytes, i: nat, blockSize: nat, h: string -> Digest)
    requires ReadFile(s, fid, FileName(fid)) == Some(content) && blockSize > 0
    ensures i * blockSize >= |content| ==> SinglePiece(s, fid, i, blockSize) == Failure(EndOfFile)
    ensures i * blockSize < |content| ==>
              var piece := SinglePiece(s, fid, i, blockSize);
              var leaves := Leaves(content, blockSize, |content|, h);
              && piece.Success?
              && i < |leaves| && leaves[i] == Some(ProofLeaf(i, piece.value, h))
              && FindLeaf(leaves, ProofLeaf(i, piece.value, h)).Some?
              && (Injective(h) ==>
                    (FindLeaf(leaves, ProofLeaf(i, piece.value, h)) == Some(i) <==>
                     forall j: nat :: j < i ==> !Spelled(content, blockSize, j, i)))
    ensures (i + 1) * blockSize <= |content| ==> forall j: nat :: j < i ==> !Spelled(content, blockSize, j, i)
  {
    if i * blockSize < |content| {
      PieceIsBlock(s, fid, content, i, blockSize);
      LeafAt(content, blockSize, h, i);
      hide SinglePiece, ReadFile, Leaves, LeafText, Block, Spelled, FindLeaf;
      var leaves, leaf := Leaves(content, blockSize, |content|, h), h(LeafText(i, Block(content, blockSize, i)));
      assert leaves[i] == Some(leaf);
      if Injective(h) {
        forall j: nat | j < i ensures leaves[j] == Some(leaf) <==> Spelled(content, blockSize, j, i) {
          EarlierLeafIffSpelled(content, blockSize, h, j, i);
        }
      }
    }
    forall j: nat | (i + 1) * blockSize <= |content| && j < i ensures !Spelled(content, blockSize, j, i) {
      WholeBlocksNotSpelled(content, blockSize, j, i);
    }
  }

  lemma EarlierLeafIffSpelled(content: Bytes, size: nat, h: string -> Digest, j: nat, i: nat)
    requires size > 0 && Injective(h) && j < i && i * size < |content|
    requires i < |Leaves(content, size, |content|, h)|
    ensures Leaves(content, size, |content|, h)[j] == Some(h(LeafText(i, Block(content, size, i)))) <==>
            Spelled(content, size, j, i)
  {
    hide Leaves, LeafText, Block, Spelled;
    Scaled(j, i, size);
    LeafAt(content, size, h, j);
    SameLeafTextIffSpelled(content, size, j, i);
  }

  /** The first pieces of a stored file, one after the other. */
  function PiecesRead(s: Storage, fid: string, blockSize: nat, n: nat): Option<Bytes> {
    if n == 0 then Some([])
    else
      match (PiecesRead(s, fid, blockSize, n - 1), SinglePiece(s, fid, n - 1, blockSize))
      case (Some(front), Success(piece)) => Some(front + piece)
      case _ => None
  }

  lemma {:induction false} PiecesAreBlocks(s: Storage, fid: string, content: Bytes, blockSize: nat, n: nat)
    requires ReadFile(s, fid, FileName(fid)) == Some(content) && blockSize > 0
    requires n > 0 ==> (n - 1) * blockSize < |content|
    ensures PiecesRead(s, fid, blockSize, n) == Some(Blocks(content, blockSize, n))
  {
    if n > 0 {
      if n > 1 {
        Scaled(n - 2, n - 1, blockSize);
      }
      PiecesAreBlocks(s, fid, content, blockSize, n - 1);
      PieceIsBlock(s, fid, content, n - 1, blockSize);
    }
  }

  lemma PieceExists(s: Storage, fid: string, content: Bytes, blockSize: nat, n: nat, i: nat)
    requires ReadFile(s, fid, FileName(fid)) == Some(content) && blockSize > 0
    requires n * blockSize >= |content| && (n > 0 ==> (n - 1) * blockSize < |content|)
    ensures SinglePiece(s, fid, i, blockSize).Success? <==> i < n
  {
    if i < n {
      Scaled(i, n - 1, blockSize);
      PieceIsBlock(s, fid, content, i, blockSize);
    } else {
      Scaled(n, i, blockSize);
    }
  }

  /** All the pieces of a stored file, in order, are the file. */
  lemma PiecesConcatenate(s: Storage, fid: string, content: Bytes, blockSize: nat) returns (n: nat)
    requires ReadFile(s, fid, FileName(fid)) == Some(content) && blockSize > 0
    ensures PiecesRead(s, fid, blockSize, n) == Some(content)
    ensures forall i: nat :: SinglePiece(s, fid, i, blockSize).Success? <==> i < n
  {
    hide SinglePiece, Blocks, PiecesRead, ReadFile;
    n := BlockCount(|content|, blockSize);
    PiecesAreBlocks(s, fid, content, blockSize, n);
    BlocksArePrefix(content, blockSize, n);
    assert content[..|content|] == content;
    forall i: nat ensures SinglePiece(s, fid, i, blockSize).Success? <==> i < n {
      PieceExists(s, fid, content, blockSize, n, i);
    }
  }

  // -------------------------------------------------------------------- writing

  /** What a file holds after data is written over it: the code does not truncate
      it, so what the old content has beyond the data stays. */
  function Overwrite(before: Bytes, data: Bytes): Bytes {
    data + if |before| > |data| then before[|data|..] else []
  }

  /** WriteFileToDisk, for an upload or a download. */
  function AfterWrite(s: Storage, fid: string, data: Bytes): Storage {
    var dir := if fid in s.dirs then s.dirs[fid] else Dir(map[], false);
    var before := if FileName(fid) in dir.files then dir.files[FileName(fid)] else [];
    s.(dirs := s.dirs[fid := dir.(files := dir.files[FileName(fid) := Overwrite(before, data)])])
  }

  /** Writing a file changes <fid>/<fid>.jkl and nothing else: the data comes first,
      and what was there beyond it stays. */
  lemma AfterWriteIs(s: Storage, fid: string, data: Bytes)
    ensures var s', name := AfterWrite(s, fid, data), fid + ".jkl";
            && s'.trees == s.trees && s'.dirs.Keys == s.dirs.Keys + {fid}
            && (forall d :: d in s.dirs && d != fid ==> s'.dirs[d] == s.dirs[d])
            && s'.dirs[fid].subdirectory == (fid in s.dirs && s.dirs[fid].subdirectory)
            && s'.dirs[fid].files.Keys == (if fid in s.dirs then s.dirs[fid].files.Keys else {}) + {name}
            && (forall n :: n in s'.dirs[fid].files && n != name ==> s'.dirs[fid].files[n] == s.dirs[fid].files[n])
            && var stored := s'.dirs[fid].files[name];
               var before := if fid in s.dirs && name in s.dirs[fid].files then s.dirs[fid].files[name] else [];
               && |stored| == (if |before| > |data| then |before| else |data|)
               && forall k :: 0 <= k < |stored| ==> stored[k] == if k < |data| then data[k] else before[k]
  {
  }

  function Before(s: Storage, fid: string): Bytes {
    match ReadFile(s, fid, FileName(fid))
    case Some(content) => content
    case None => []
  }

  predicate SameBlock(a: Bytes, b: Bytes, size: nat, i: nat) {
    Block(a, size, i) == Block(b, size, i)
  }

  lemma OverwrittenBlock(before: Bytes, data: Bytes, size: nat, i: nat)
    requires size > 0 && i * size < |data| && (|before| <= |data| || |data| % size == 0)
    ensures SameBlock(Overwrite(before, data), data, size, i)
  {
    var stored := Overwrite(before, data);
    if |before| > |data| {
      WholeBlockInside(|data|, size, i);
      BlockIs(stored, size, i);
      BlockIs(data, size, i);
      assert stored[i * size..i * size + size] == data[i * size..i * size + size];
    } else {
      assert stored == data;
    }
  }

  lemma LastBlockLonger(before: Bytes, data: Bytes, size: nat) returns (last: nat)
    requires size > 0 && |before| > |data| && |data| % size != 0
    ensures last * size < |data| && !SameBlock(Overwrite(before, data), data, size, last)
  {
    last := |data| / size;
    assert |data| == last * size + |data| % size;
    BlockLength(Overwrite(before, data), size, last);
    BlockLength(data, size, last);
  }

  lemma WholeBlockInside(length: nat, size: nat, i: nat)
    requires size > 0 && length % size == 0 && i * size < length
    ensures i * size + size <= length
  {
    var q := length / size;
    assert length == q * size;
    if i >= q {
      Scaled(q, i, size);
    } else {
      Scaled(i + 1, q, size);
      BlockBounds(size, i);
    }
  }

  /** Whether a proof for a piece is one for the leaf at its index. */
  predicate Provable(s: Storage, fid: string, leaves: seq<Option<Digest>>, i: nat, size: nat, h: string -> Digest) {
    var piece := SinglePiece(s, fid, i, size);
    piece.Success? && i < |leaves| && leaves[i] == Some(ProofLeaf(i, piece.value, h))
  }

  lemma ProvableIfSame(s: Storage, fid: string, data: Bytes, i: nat, size: nat, h: string -> Digest)
    requires size > 0 && Injective(h) && i * size < |data|
    ensures Provable(AfterWrite(s, fid, data), fid, Leaves(data, size, |data|, h), i, size, h) <==>
            SameBlock(Overwrite(Before(s, fid), data), data, size, i)
  {
    var stored := Overwrite(Before(s, fid), data);
    assert ReadFile(AfterWrite(s, fid, data), fid, FileName(fid)) == Some(stored);
    hide AfterWrite, Overwrite, ReadFile, SinglePiece, Leaves, LeafText, Block;
    PieceIsBlock(AfterWrite(s, fid, data), fid, stored, i, size);
    LeafAt(data, size, h, i);
    if LeafText(i, Block(stored, size, i)) == LeafText(i, Block(data, size, i)) {
      LeafTextInjective(i, Block(stored, size, i), Block(data, size, i));
    }
  }

  /** After data is written, every piece of it is read back and hashes to the leaf
      made from it, for an injective hash, if and only if the file there before was
      not longer or the data is a number of whole blocks. */
  lemma WrittenPiecesMatch(s: Storage, fid: string, data: Bytes, size: nat, h: string -> Digest)
    requires size > 0 && Injective(h)
    ensures (forall i: nat :: i * size < |data| ==>
               Provable(AfterWrite(s, fid, data), fid, Leaves(data, size, |data|, h), i, size, h)) <==>
            |Before(s, fid)| <= |data| || |data| % size == 0
  {
    hide Provable, SameBlock, AfterWrite, Overwrite, Before, Leaves;
    var before := Before(s, fid);
    if |before| <= |data| || |data| % size == 0 {
      forall i: nat | i * size < |data|
        ensures Provable(AfterWrite(s, fid, data), fid, Leaves(data, size, |data|, h), i, size, h)
      {
        OverwrittenBlock(before, data, size, i);
        ProvableIfSame(s, fid, data, i, size, h);
      }
    } else {
      var last := LastBlockLonger(before, data, size);
      ProvableIfSame(s, fid, data, last, size, h);
    }
  }
}
