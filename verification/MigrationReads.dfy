/** Reads while a directory is being migrated: pieces and trees stay the same
    from before the first operation until after the last. */
module MigrationReads {
  import opened Wrappers
  import opened Collections
  import opened Numerals
  import opened Chunking
  import opened Archive
  import opened MigrationMachine

  /** A directory in the layout of one file per block, and the tree of its file. */
  datatype Legacy = Legacy(fid: string, blocks: seq<Bytes>, tree: Bytes)

  predicate HasCorruptPrefix(name: string) {
    |name| >= |CORRUPT_PREFIX| && name[..|CORRUPT_PREFIX|] == CORRUPT_PREFIX
  }

  /** The tree was made from the blocks, and equal roots mean equal files. */
  ghost predicate Sound(h: Hashing, l: Legacy) {
    && Atoi(l.fid).None? && !HasCorruptPrefix(l.fid)
    && |l.blocks| <= INT64_MAX
    && h.treeRoot(l.tree) == Some(h.rootOf(Flatten(l.blocks)))
    && Injective(h.rootOf)
  }

  /** Roots built from an injective hash by an injective tree determine the file. */
  lemma RootsDetermineFiles(size: nat, hash: string -> Digest, tree: seq<Option<Digest>> -> Digest)
    requires size > 0 && Injective(hash) && Injective(tree)
    ensures Injective((x: Bytes) => tree(Leaves(x, size, |x|, hash)))
  {
    var rootOf := (x: Bytes) => tree(Leaves(x, size, |x|, hash));
    forall x, y | rootOf(x) == rootOf(y) ensures x == y {
      LeavesDetermineContent(x, y, size, hash);
    }
  }

  predicate AllThere(l: Legacy, dir: Dir) {
    forall i :: 0 <= i < |l.blocks| ==> BlockFileName(i) in dir.files
  }

  predicate BlocksRight(l: Legacy, dir: Dir) {
    forall i :: 0 <= i < |l.blocks| && BlockFileName(i) in dir.files ==> dir.files[BlockFileName(i)] == l.blocks[i]
  }

  predicate GluedWhole(l: Legacy, dir: Dir) {
    FileName(l.fid) in dir.files && dir.files[FileName(l.fid)] == Flatten(l.blocks)
  }

  /** What a reader may find: the blocks there are the right ones, and a block is
      missing only once the glued file is complete. */
  predicate Readable(l: Legacy, fs: Storage) {
    && l.fid in fs.dirs
    && BlocksRight(l, fs.dirs[l.fid])
    && (AllThere(l, fs.dirs[l.fid]) || GluedWhole(l, fs.dirs[l.fid]))
    && HybridTree(fs, l.fid) == Some(l.tree)
  }

  predicate Stable(l: Legacy, s: State) {
    l.fid in s.fs.dirs ==>
      var dir := s.fs.dirs[l.fid];
      && Readable(l, s.fs)
      && match s.phase
         case Gluing(fid, _, _, _, _) => fid == l.fid ==> AllThere(l, dir)
         case Checking(fid, _) => fid == l.fid ==> TreeName(fid) !in s.fs.trees
         case Cleaning(fid, names, _) =>
           fid == l.fid ==> GluedWhole(l, dir) && TreeName(fid) !in s.fs.trees &&
                            forall n :: n in names ==> IsBlockName(n)
         case _ => true
  }

  lemma NamesApart(l: Legacy, name: string)
    requires Atoi(l.fid).None? && |l.blocks| <= INT64_MAX
    requires !IsBlockName(name)
    ensures forall i :: 0 <= i < |l.blocks| ==> BlockFileName(i) != name
  {
    forall i | 0 <= i < |l.blocks| ensures BlockFileName(i) != name {
      BlockNameCodec(i);
    }
  }

  lemma GluedFileApart(h: Hashing, l: Legacy)
    requires Sound(h, l)
    ensures !IsBlockName(FileName(l.fid)) && !IsBlockName(TreeName(l.fid)) && FileName(l.fid) != TreeName(l.fid)
    ensures forall i :: 0 <= i < |l.blocks| ==> BlockFileName(i) != FileName(l.fid)
    ensures forall i :: 0 <= i < |l.blocks| ==> BlockFileName(i) != TreeName(l.fid)
  {
    DataNames(l.fid);
    NamesApart(l, FileName(l.fid));
    NamesApart(l, TreeName(l.fid));
  }

  lemma WriteGluedStable(h: Hashing, l: Legacy, s: State, fid: string, content: Bytes)
    requires Sound(h, l) && Stable(l, s) && fid in s.fs.dirs
    requires fid == l.fid ==> AllThere(l, s.fs.dirs[fid])
    ensures var fs' := WithFile(s.fs, fid, FileName(fid), content);
            l.fid in fs'.dirs ==> Readable(l, fs') && (fid == l.fid ==> AllThere(l, fs'.dirs[fid]))
  {
    GluedFileApart(h, l);
  }

  lemma BeginStable(h: Hashing, l: Legacy, s: State, fid: string, rest: seq<string>)
    requires Sound(h, l) && Stable(l, s) && s.phase.Looping?
    ensures Stable(l, BeginDir(s.fs, fid, rest))
  {
    if fid in s.fs.dirs && FileName(fid) !in s.fs.dirs[fid].files {
      WriteGluedStable(h, l, s, fid, []);
    }
  }

  lemma GlueStable(h: Hashing, l: Legacy, s: State)
    requires Sound(h, l) && Stable(l, s) && s.phase.Gluing?
    ensures Stable(l, GlueMore(s))
  {
    var Gluing(fid, i, offset, count, rest) := s.phase;
    if fid in s.fs.dirs && FileName(fid) in s.fs.dirs[fid].files && BlockFileName(i) in s.fs.dirs[fid].files {
      var block := s.fs.dirs[fid].files[BlockFileName(i)];
      if offset < |block| {
        WriteGluedStable(h, l, s, fid, s.fs.dirs[fid].files[FileName(fid)] + [block[offset]]);
      }
    }
  }

  lemma MoveStable(h: Hashing, l: Legacy, s: State)
    requires Sound(h, l) && Stable(l, s) && s.phase.MovingTree?
    ensures Stable(l, Advanced(h, s))
  {
    GluedFileApart(h, l);
    if TreeName(s.phase.fid) == TreeName(l.fid) {
      TreeNameInjective(s.phase.fid, l.fid);
    }
  }

  lemma CheckStable(h: Hashing, l: Legacy, s: State)
    requires Sound(h, l) && Stable(l, s) && s.phase.Checking?
    ensures Stable(l, Advanced(h, s))
  {
    assert (CORRUPT_PREFIX + s.phase.fid)[..|CORRUPT_PREFIX|] == CORRUPT_PREFIX;
  }

  /** A passed check means that the glued file is complete. */
  lemma PassedIsWhole(h: Hashing, l: Legacy, s: State)
    requires Sound(h, l) && Stable(l, s) && s.phase.Checking? && s.phase.fid == l.fid
    requires Passes(h, s.fs, l.fid)
    ensures GluedWhole(l, s.fs.dirs[l.fid])
  {
    var dir := s.fs.dirs[l.fid];
    assert dir.files[TreeName(l.fid)] == l.tree;
    assert h.rootOf(dir.files[FileName(l.fid)]) == h.rootOf(Flatten(l.blocks));
  }

  lemma CleanStable(h: Hashing, l: Legacy, s: State)
    requires Sound(h, l) && Stable(l, s) && s.phase.Cleaning?
    ensures Stable(l, Advanced(h, s))
  {
    GluedFileApart(h, l);
    var names := s.phase.names;
    if names != [] {
      assert names == [names[0]] + names[1..];
    }
  }

  lemma StepStable(h: Hashing, l: Legacy, s: State, e: Event)
    requires Sound(h, l) && Stable(l, s) && Enabled(h, s, e)
    ensures Stable(l, Apply(h, s, e))
  {
    match e
    case ListBlocks(names) => if s.phase.fid == l.fid { PassedIsWhole(h, l, s); }
    case Advance =>
      match s.phase {
        case Looping(rest) => if rest != [] { BeginStable(h, l, s, rest[0], rest[1..]); }
        case Gluing(_, _, _, _, _) => GlueStable(h, l, s);
        case MovingTree(_, _) => MoveStable(h, l, s);
        case Checking(_, _) => CheckStable(h, l, s);
        case Cleaning(_, _, _) => CleanStable(h, l, s);
      }
    case _ =>
  }

  lemma {:induction false} AlwaysStable(h: Hashing, l: Legacy, fs: Storage, run: seq<Event>)
    requires Sound(h, l) && Readable(l, fs) && Valid(h, fs, run)
    ensures Stable(l, Exec(h, fs, run))
  {
    hide Sound, Enabled, Apply, Readable;
    if run != [] {
      AlwaysStable(h, l, fs, run[..|run| - 1]);
      StepStable(h, l, Exec(h, fs, run[..|run| - 1]), run[|run| - 1]);
    }
  }

  // ------------------------------------------------------------- what readers get

  lemma {:induction false} ConcatOffset(blocks: seq<Bytes>, size: nat, i: nat)
    requires i < |blocks| && forall j :: 0 <= j <= i ==> |blocks[j]| == size
    ensures |Flatten(blocks)| >= (i + 1) * size
    ensures Flatten(blocks)[i * size..(i + 1) * size] == blocks[i]
  {
    var n := |blocks| - 1;
    BlockBounds(size, i);
    if i == n {
      ConcatLength(blocks[..n], size);
      assert i * size + size == (i + 1) * size;
    } else {
      ConcatOffset(blocks[..n], size, i);
    }
  }

  lemma {:induction false} ConcatLength(blocks: seq<Bytes>, size: nat)
    requires forall j :: 0 <= j < |blocks| ==> |blocks[j]| == size
    ensures |Flatten(blocks)| == |blocks| * size
  {
    if blocks != [] {
      ConcatLength(blocks[..|blocks| - 1], size);
      BlockBounds(size, |blocks| - 1);
    }
  }

  lemma ReadableBlock(l: Legacy, fs: Storage, i: nat, size: nat)
    requires Atoi(l.fid).None? && Readable(l, fs) && size > 0
    requires i < |l.blocks| && forall j :: 0 <= j <= i ==> |l.blocks[j]| == size
    ensures HybridPiece(fs, l.fid, i, size) == Success(l.blocks[i])
  {
    var dir := fs.dirs[l.fid];
    if BlockFileName(i) in dir.files {
      assert dir.files[BlockFileName(i)] == l.blocks[i];
      assert l.blocks[i][..size] + Zeros(0) == l.blocks[i];
    } else {
      ConcatOffset(l.blocks, size, i);
      BlockBounds(size, i);
    }
  }

  /** At every point of every history of runs, stops and restarts, as long as the
      directory has its name, each whole block is read back as it was before the
      migration, and so is the tree. */
  lemma ReadsAreStable(h: Hashing, l: Legacy, fs: Storage, run: seq<Event>, i: nat, size: nat)
    requires Sound(h, l) && Readable(l, fs) && Valid(h, fs, run) && size > 0
    requires i < |l.blocks| && forall j :: 0 <= j <= i ==> |l.blocks[j]| == size
    requires l.fid in Exec(h, fs, run).fs.dirs
    ensures HybridPiece(Exec(h, fs, run).fs, l.fid, i, size) == HybridPiece(fs, l.fid, i, size) == Success(l.blocks[i])
    ensures HybridTree(Exec(h, fs, run).fs, l.fid) == HybridTree(fs, l.fid) == Some(l.tree)
  {
    AlwaysStable(h, l, fs, run);
    ReadableBlock(l, fs, i, size);
    ReadableBlock(l, Exec(h, fs, run).fs, i, size);
  }

  /** The last block reads the same from its own file and from the glued file
      exactly if it is a whole block: a legacy read pads a short one with zeros. */
  lemma ShortLastBlockReadsDiffer(blocks: seq<Bytes>, size: nat, i: nat)
    requires i == |blocks| - 1 && 0 < |blocks[i]| <= size
    requires forall j :: 0 <= j < i ==> |blocks[j]| == size
    ensures ReadAt(Flatten(blocks), size, i * size) == Success(blocks[i])
    ensures LegacyPiece(blocks[i], size) == ReadAt(Flatten(blocks), size, i * size) <==> |blocks[i]| == size
  {
    BlockBounds(size, i);
    ConcatLength(blocks[..i], size);
    assert Flatten(blocks) == Flatten(blocks[..i]) + blocks[i];
    assert Flatten(blocks)[i * size..|Flatten(blocks)|] == blocks[i];
    assert |LegacyPiece(blocks[i], size).value| == size;
    assert |blocks[i]| == size ==> blocks[i][..size] + Zeros(0) == blocks[i];
  }

  // ------------------------------------------------------- an uninterrupted run

  function NamesTo(n: nat): set<string> {
    set i | 0 <= i < n :: BlockFileName(i)
  }

  lemma {:induction false} NamesToSize(n: nat)
    ensures |NamesTo(n)| == n
  {
    if n > 0 {
      NamesToSize(n - 1);
      assert NamesTo(n) == NamesTo(n - 1) + {BlockFileName(n - 1)};
      forall i | 0 <= i < n - 1 ensures BlockFileName(i) != BlockFileName(n - 1) {
        if BlockFileName(i) == BlockFileName(n - 1) {
          BlockNameInjective(i, n - 1);
        }
      }
    }
  }

  /** Not yet glued: the block names are exactly those of the blocks. */
  predicate Untouched(l: Legacy, dir: Dir) {
    FileName(l.fid) !in dir.files && !dir.subdirectory && BlockNames(dir) == NamesTo(|l.blocks|)
  }

  /** Half way through gluing: whole blocks, then part of the next one. */
  predicate PartlyGlued(l: Legacy, dir: Dir, i: nat, offset: nat) {
    && FileName(l.fid) in dir.files && i <= |l.blocks|
    && (i == |l.blocks| ==> offset == 0)
    && (i < |l.blocks| ==> offset <= |l.blocks[i]|)
    && dir.files[FileName(l.fid)] ==
       Flatten(l.blocks[..i]) + if i < |l.blocks| then l.blocks[i][..offset] else []
  }

  predicate OnCourse(l: Legacy, s: State) {
    && l.fid in s.fs.dirs
    && var dir := s.fs.dirs[l.fid];
       match s.phase
       case Gluing(fid, i, offset, count, _) =>
         if fid == l.fid then count == |l.blocks| && PartlyGlued(l, dir, i, offset)
         else Untouched(l, dir) || GluedWhole(l, dir)
       case MovingTree(fid, _) => GluedWhole(l, dir) || (fid != l.fid && Untouched(l, dir))
       case Checking(fid, _) => GluedWhole(l, dir) || (fid != l.fid && Untouched(l, dir))
       case Cleaning(fid, _, _) => GluedWhole(l, dir) || (fid != l.fid && Untouched(l, dir))
       case _ => Untouched(l, dir) || GluedWhole(l, dir)
  }

  lemma BeginOnCourse(h: Hashing, l: Legacy, s: State, fid: string, rest: seq<string>)
    requires Sound(h, l) && OnCourse(l, s) && s.phase.Looping?
    ensures OnCourse(l, BeginDir(s.fs, fid, rest))
  {
    NamesToSize(|l.blocks|);
    assert l.blocks[..0] == [];
    if |l.blocks| > 0 {
      assert l.blocks[0][..0] == [];
    }
  }

  lemma ConcatNext(blocks: seq<Bytes>, i: nat)
    requires i < |blocks|
    ensures Flatten(blocks[..i + 1]) == Flatten(blocks[..i]) + blocks[i]
  {
    assert blocks[..i + 1][..i] == blocks[..i];
  }

  lemma ByteGlued(l: Legacy, dir: Dir, dir': Dir, i: nat, offset: nat)
    requires PartlyGlued(l, dir, i, offset) && i < |l.blocks| && offset < |l.blocks[i]|
    requires FileName(l.fid) in dir'.files
    requires dir'.files[FileName(l.fid)] == dir.files[FileName(l.fid)] + [l.blocks[i][offset]]
    ensures PartlyGlued(l, dir', i, offset + 1)
  {
    hide Flatten;
    var block := l.blocks[i];
    assert block[..offset + 1] == block[..offset] + [block[offset]];
  }

  lemma BlockGlued(l: Legacy, dir: Dir, i: nat, offset: nat)
    requires PartlyGlued(l, dir, i, offset)
    ensures i < |l.blocks| && offset == |l.blocks[i]| ==> PartlyGlued(l, dir, i + 1, 0)
    ensures i == |l.blocks| ==> GluedWhole(l, dir)
  {
    hide Flatten;
    if i < |l.blocks| && offset == |l.blocks[i]| {
      assert l.blocks[i][..offset] == l.blocks[i];
      ConcatNext(l.blocks, i);
      assert i + 1 < |l.blocks| ==> l.blocks[i + 1][..0] == [];
    } else {
      assert i == |l.blocks| ==> l.blocks[..i] == l.blocks;
    }
  }

  lemma GlueOnCourse(h: Hashing, l: Legacy, s: State)
    requires Sound(h, l) && Stable(l, s) && OnCourse(l, s) && s.phase.Gluing?
    ensures OnCourse(l, GlueMore(s))
  {
    var Gluing(fid, i, offset, count, rest) := s.phase;
    if fid == l.fid {
      var dir := s.fs.dirs[l.fid];
      hide PartlyGlued, GluedWhole;
      BlockGlued(l, dir, i, offset);
      GluedFileNext(l, s);
    }
  }

  lemma GluedFileNext(l: Legacy, s: State)
    requires s.phase.Gluing? && s.phase.fid == l.fid && l.fid in s.fs.dirs
    requires AllThere(l, s.fs.dirs[l.fid]) && BlocksRight(l, s.fs.dirs[l.fid])
    requires s.phase.count == |l.blocks| && PartlyGlued(l, s.fs.dirs[l.fid], s.phase.i, s.phase.offset)
    ensures var (i, offset) := (s.phase.i, s.phase.offset);
            var s' := GlueMore(s);
            if i == |l.blocks| then s' == s.(phase := MovingTree(l.fid, s.phase.rest))
            else if offset == |l.blocks[i]| then s' == s.(phase := s.phase.(i := i + 1, offset := 0))
            else s'.phase == s.phase.(offset := offset + 1) && l.fid in s'.fs.dirs &&
                 PartlyGlued(l, s'.fs.dirs[l.fid], i, offset + 1)
  {
    hide Flatten;
    var i, offset, dir := s.phase.i, s.phase.offset, s.fs.dirs[l.fid];
    if i < |l.blocks| && offset < |l.blocks[i]| {
      ByteGlued(l, dir, GlueMore(s).fs.dirs[l.fid], i, offset);
    }
  }

  lemma MoveOnCourse(h: Hashing, l: Legacy, s: State)
    requires Sound(h, l) && Stable(l, s) && OnCourse(l, s) && s.phase.MovingTree?
    ensures OnCourse(l, Advanced(h, s))
  {
    GluedFileApart(h, l);
  }

  lemma CheckOnCourse(h: Hashing, l: Legacy, s: State)
    requires Sound(h, l) && Stable(l, s) && OnCourse(l, s) && s.phase.Checking?
    ensures OnCourse(l, Advanced(h, s))
  {
    GluedFileApart(h, l);
    if s.phase.fid == l.fid {
      assert s.fs.dirs[l.fid].files[TreeName(l.fid)] == l.tree;
      assert Passes(h, s.fs, l.fid);
    }
  }

  lemma CleanOnCourse(h: Hashing, l: Legacy, s: State)
    requires Sound(h, l) && Stable(l, s) && OnCourse(l, s) && s.phase.Cleaning?
    ensures OnCourse(l, Advanced(h, s))
  {
    GluedFileApart(h, l);
    if s.phase.names != [] {
      assert s.phase.names == [s.phase.names[0]] + s.phase.names[1..];
    }
  }

  lemma StepOnCourse(h: Hashing, l: Legacy, s: State, e: Event)
    requires Sound(h, l) && Stable(l, s) && OnCourse(l, s) && Enabled(h, s, e) && !e.Stop?
    ensures OnCourse(l, Apply(h, s, e))
  {
    match e
    case Advance =>
      match s.phase {
        case Looping(rest) => if rest != [] { BeginOnCourse(h, l, s, rest[0], rest[1..]); }
        case Gluing(_, _, _, _, _) => GlueOnCourse(h, l, s);
        case MovingTree(_, _) => MoveOnCourse(h, l, s);
        case Checking(_, _) => CheckOnCourse(h, l, s);
        case Cleaning(_, _, _) => CleanOnCourse(h, l, s);
        case _ =>
      }
    case _ =>
  }

  /** Without a stop, a directory holding exactly its blocks is never renamed: at
      every point it is still untouched, being glued, or completely glued. */
  lemma {:induction false} UninterruptedStaysOnCourse(h: Hashing, l: Legacy, fs: Storage, run: seq<Event>)
    requires Sound(h, l) && Readable(l, fs) && Untouched(l, fs.dirs[l.fid])
    requires Valid(h, fs, run) && Stop !in run
    ensures OnCourse(l, Exec(h, fs, run))
  {
    hide Sound, Enabled, Apply;
    if run != [] {
      var front := run[..|run| - 1];
      UninterruptedStaysOnCourse(h, l, fs, front);
      AlwaysStable(h, l, fs, front);
      StepOnCourse(h, l, Exec(h, fs, front), run[|run| - 1]);
    }
  }

  // ------------------------------------------------- directories that lose their name

  /** In a directory's check, its glued file passes exactly if it is whole. */
  lemma PassesExactlyIfWhole(h: Hashing, l: Legacy, s: State)
    requires Sound(h, l) && Stable(l, s) && s.phase.Checking? && s.phase.fid == l.fid && l.fid in s.fs.dirs
    ensures Passes(h, s.fs, l.fid) <==> GluedWhole(l, s.fs.dirs[l.fid])
  {
    assert s.fs.dirs[l.fid].files[TreeName(l.fid)] == l.tree;
    if Passes(h, s.fs, l.fid) {
      PassedIsWhole(h, l, s);
    }
  }

  /** An intact directory is marked as corrupted exactly by a check that finds a
      glued file which is not the whole one, unless the new name is taken; and it
      takes a stop for gluing to leave such a file behind. */
  lemma RenamedExactly(h: Hashing, l: Legacy, fs: Storage, run: seq<Event>, e: Event)
    requires Sound(h, l) && Readable(l, fs) && Valid(h, fs, run) && Enabled(h, Exec(h, fs, run), e)
    requires l.fid in Exec(h, fs, run).fs.dirs
    ensures var s := Exec(h, fs, run);
            l.fid !in Apply(h, s, e).fs.dirs <==>
            && e.Advance? && s.phase.Checking? && s.phase.fid == l.fid
            && !GluedWhole(l, s.fs.dirs[l.fid]) && "corrupted-" + l.fid !in s.fs.dirs
    ensures Untouched(l, fs.dirs[l.fid]) && l.fid !in Apply(h, Exec(h, fs, run), e).fs.dirs ==> Stop in run
  {
    AlwaysStable(h, l, fs, run);
    var s := Exec(h, fs, run);
    if s.phase.Checking? && s.phase.fid == l.fid {
      PassesExactlyIfWhole(h, l, s);
      assert CORRUPT_PREFIX + l.fid != l.fid by {
        assert |CORRUPT_PREFIX + l.fid| > |l.fid|;
      }
    }
    if Untouched(l, fs.dirs[l.fid]) && Stop !in run {
      UninterruptedStaysOnCourse(h, l, fs, run);
    }
  }

  lemma Then(h: Hashing, fs: Storage, run: seq<Event>, e: Event) returns (longer: seq<Event>)
    requires Valid(h, fs, run) && Enabled(h, Exec(h, fs, run), e)
    ensures longer == run + [e] && Valid(h, fs, longer)
    ensures Exec(h, fs, longer) == Apply(h, Exec(h, fs, run), e)
  {
    longer := run + [e];
    Extend(h, fs, run, e);
  }

  /** Such a history exists for every directory: a stop right after the glued file
      was created, and a rerun. */
  lemma StoppedGluingIsRenamed(h: Hashing, l: Legacy, fs: Storage) returns (run: seq<Event>)
    requires Sound(h, l) && Readable(l, fs) && Untouched(l, fs.dirs[l.fid])
    requires fs.dirs.Keys == {l.fid} && Flatten(l.blocks) != []
    ensures Valid(h, fs, run) && l.fid !in Exec(h, fs, run).fs.dirs
    ensures "corrupted-" + l.fid in Exec(h, fs, run).fs.dirs
  {
    var fid := l.fid;
    var created := WithFile(fs, fid, FileName(fid), []);
    assert Valid(h, fs, []) && Exec(h, fs, []) == State(fs, Idle);
    hide *;
    LoneListing(fs, fid);
    LoneListing(created, fid);
    CreateSteps(h, l, fs);
    run := Then(h, fs, [], Start([fid]));
    run := Then(h, fs, run, Advance);
    run := Then(h, fs, run, Stop);
    run := Then(h, fs, run, Start([fid]));
    run := Then(h, fs, run, Advance);
    run := Then(h, fs, run, Advance);
    AlwaysStable(h, l, fs, run);
    var s := Exec(h, fs, run);
    PassesExactlyIfWhole(h, l, s);
    EmptyIsRenamed(h, l, s);
    run := Then(h, fs, run, Advance);
  }

  lemma LoneListing(fs: Storage, fid: string)
    ensures fs.dirs.Keys == {fid} ==> Enumerates([fid], fs.dirs.Keys)
  {
  }

  lemma CreateSteps(h: Hashing, l: Legacy, fs: Storage)
    requires l.fid in fs.dirs && FileName(l.fid) !in fs.dirs[l.fid].files && !fs.dirs[l.fid].subdirectory
    requires FileName(l.fid) != TreeName(l.fid) && Enumerates([l.fid], fs.dirs.Keys)
    ensures var fid := l.fid;
            var created := WithFile(fs, fid, FileName(fid), []);
            var gluing := Gluing(fid, 0, 0, |BlockNames(fs.dirs[fid])|, []);
            && Enabled(h, State(fs, Idle), Start([fid]))
            && Apply(h, State(fs, Idle), Start([fid])) == State(fs, Looping([fid]))
            && Enabled(h, State(fs, Looping([fid])), Advance)
            && Apply(h, State(fs, Looping([fid])), Advance) == State(created, gluing)
            && Enabled(h, State(created, gluing), Stop)
            && Apply(h, State(created, gluing), Stop) == State(created, Idle)
    ensures var fid := l.fid;
            var created := WithFile(fs, fid, FileName(fid), []);
            var moved := MoveTree(created, fid);
            && Enabled(h, State(created, Idle), Start([fid]))
            && Apply(h, State(created, Idle), Start([fid])) == State(created, Looping([fid]))
            && Enabled(h, State(created, Looping([fid])), Advance)
            && Apply(h, State(created, Looping([fid])), Advance) == State(created, MovingTree(fid, []))
            && Enabled(h, State(created, MovingTree(fid, [])), Advance)
            && Apply(h, State(created, MovingTree(fid, [])), Advance) == State(moved, Checking(fid, []))
            && moved.dirs.Keys == fs.dirs.Keys && moved.dirs[fid].files[FileName(fid)] == []
  {
    hide IsBlockName;
    assert [l.fid][1..] == [];
    assert WithFile(fs, l.fid, FileName(l.fid), []).dirs.Keys == fs.dirs.Keys;
  }

  lemma EmptyIsRenamed(h: Hashing, l: Legacy, s: State)
    requires l.fid in s.fs.dirs && s.fs.dirs.Keys == {l.fid} && s.phase == Checking(l.fid, [])
    requires Passes(h, s.fs, l.fid) <==> GluedWhole(l, s.fs.dirs[l.fid])
    requires FileName(l.fid) in s.fs.dirs[l.fid].files && s.fs.dirs[l.fid].files[FileName(l.fid)] == []
    requires Flatten(l.blocks) != []
    ensures Enabled(h, s, Advance)
    ensures l.fid !in Apply(h, s, Advance).fs.dirs && CORRUPT_PREFIX + l.fid in Apply(h, s, Advance).fs.dirs
  {
    hide Flatten, Passes;
    assert |CORRUPT_PREFIX + l.fid| > |l.fid|;
  }
}
