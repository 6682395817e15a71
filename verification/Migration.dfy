/** Migration as the code runs it: a loop over the directories, each glued block
    by block, checked against its tree, and cleaned or marked.  A ghost run
    records every file operation as a step of the machine. */
module Migration {
  import opened Wrappers
  import opened Collections
  import opened Numerals
  import opened Chunking
  import opened Archive
  import opened MigrationMachine
  import opened MigrationReads

  datatype MigrateError = NoDirectory | HasDirectory | MissingFile

  /** The blocks from number `i` on, up to the first that is missing. */
  function GlueFrom(dir: Dir, i: nat, count: nat): Bytes
    decreases count - i
  {
    if i >= count || BlockFileName(i) !in dir.files then []
    else dir.files[BlockFileName(i)] + GlueFrom(dir, i + 1, count)
  }

  lemma GlueFromStep(dir: Dir, i: nat, count: nat)
    ensures GlueFrom(dir, i, count) ==
            if i >= count || BlockFileName(i) !in dir.files then []
            else dir.files[BlockFileName(i)] + GlueFrom(dir, i + 1, count)
  {
  }

  predicate AllBlocks(dir: Dir, i: nat, count: nat) {
    forall j :: i <= j < count ==> BlockFileName(j) in dir.files
  }

  function AfterGlue(fs: Storage, fid: string): Storage {
    if fid in fs.dirs && FileName(fid) !in fs.dirs[fid].files && !fs.dirs[fid].subdirectory
    then WithFile(fs, fid, FileName(fid), GlueFrom(fs.dirs[fid], 0, |BlockNames(fs.dirs[fid])|))
    else fs
  }

  function AfterClean(fs: Storage, fid: string): Storage
    requires fid in fs.dirs
  {
    var dir := fs.dirs[fid];
    if dir.subdirectory then fs
    else fs.(dirs := fs.dirs[fid := dir.(files := dir.files - BlockNames(dir))])
  }

  function AfterCheck(h: Hashing, fs: Storage, fid: string): Storage {
    if Passes(h, fs, fid) then AfterClean(fs, fid) else MarkCorrupted(fs, fid)
  }

  // --------------------------------------------- the stages, in terms of names and bytes

  /** Gluing goes from one number to the next, in their shortest decimal form, and
      ends at the first that has no file or at the count. */
  lemma GlueFromIs(dir: Dir, i: nat, count: nat, number: string)
    requires Shortest(number) && NumberOf(number) == i
    ensures GlueFrom(dir, i, count) ==
            if i < count && number + ".jkl" in dir.files
            then dir.files[number + ".jkl"] + GlueFrom(dir, i + 1, count) else []
  {
    ShortestIs(number, i);
    assert BlockFileName(i) == number + ".jkl";
  }

  /** Gluing adds <fid>.jkl to a directory that has neither it nor a directory, and
      changes nothing else. */
  lemma AfterGlueIs(fs: Storage, fid: string)
    ensures var fs', name := AfterGlue(fs, fid), fid + ".jkl";
            if fid in fs.dirs && name !in fs.dirs[fid].files && !fs.dirs[fid].subdirectory then
              var glued := GlueFrom(fs.dirs[fid], 0, |BlockNames(fs.dirs[fid])|);
              fs' == Storage(fs.dirs[fid := Dir(fs.dirs[fid].files[name := glued], false)], fs.trees)
            else fs' == fs
  {
  }

  /** The tree file <fid>.tree at the root is moved into the directory. */
  lemma MoveTreeIs(fs: Storage, fid: string)
    ensures var fs', name := MoveTree(fs, fid), fid + ".tree";
            if fid in fs.dirs && name in fs.trees then
              var dir := fs.dirs[fid];
              var dirs := fs.dirs[fid := Dir(dir.files[name := fs.trees[name]], dir.subdirectory)];
              fs' == Storage(dirs, fs.trees - {name})
            else fs' == fs
  {
  }

  /** A directory whose <fid>.jkl has the root that <fid>.tree has loses the files
      with the names of blocks, unless it holds a directory; any other is renamed by
      putting "corrupted-" in front, unless that name is taken. */
  lemma AfterCheckIs(h: Hashing, fs: Storage, fid: string)
    ensures var fs', file, tree := AfterCheck(h, fs, fid), fid + ".jkl", fid + ".tree";
            if fid !in fs.dirs then fs' == fs
            else
              var dir, marked := fs.dirs[fid], "corrupted-" + fid;
              if file in dir.files && tree in dir.files &&
                 h.treeRoot(dir.files[tree]) == Some(h.rootOf(dir.files[file]))
              then
                && fs'.trees == fs.trees && fs'.dirs.Keys == fs.dirs.Keys
                && (forall d :: d in fs.dirs && d != fid ==> fs'.dirs[d] == fs.dirs[d])
                && fs'.dirs[fid].subdirectory == dir.subdirectory
                && (forall n :: n in fs'.dirs[fid].files <==>
                      n in dir.files && (dir.subdirectory || !exists s: string :: n == s + ".jkl" && Atoi(s).Some?))
                && (forall n :: n in fs'.dirs[fid].files ==> fs'.dirs[fid].files[n] == dir.files[n])
              else if marked in fs.dirs then fs' == fs
              else fs' == Storage((fs.dirs - {fid})[marked := dir], fs.trees)
  {
    if fid in fs.dirs {
      forall n: string ensures IsBlockName(n) <==> exists s: string :: n == s + ".jkl" && Atoi(s).Some? {
        IsBlockNameIs(n);
      }
      hide IsBlockName;
    }
  }

  /** Migrating a directory is gluing it, moving its tree and checking it, and all
      directories are migrated in turn. */
  lemma MigrateAllIs(h: Hashing, fs: Storage, fid: string, rest: seq<string>)
    ensures MigrateAll(h, fs, []) == fs
    ensures MigrateAll(h, fs, [fid] + rest) ==
            MigrateAll(h, AfterCheck(h, MoveTree(AfterGlue(fs, fid), fid), fid), rest)
  {
    assert ([fid] + rest)[1..] == rest;
  }

  /** What migrating one directory does to the storage. */
  function MigrateOne(h: Hashing, fs: Storage, fid: string): Storage {
    AfterCheck(h, MoveTree(AfterGlue(fs, fid), fid), fid)
  }

  function MigrateAll(h: Hashing, fs: Storage, fids: seq<string>): Storage
    decreases |fids|
  {
    if fids == [] then fs else MigrateAll(h, MigrateOne(h, fs, fids[0]), fids[1..])
  }

  /** The glued file does not have the name of a block, which it would be copied
      onto itself as, without end. */
  ghost predicate NotItsOwnBlock(fid: string) {
    forall i: nat :: BlockFileName(i) != FileName(fid)
  }

  lemma GluedNameIsBlockName(fid: string, i: nat)
    ensures BlockFileName(i) == FileName(fid) <==> fid == Decimal(i)
  {
    assert BlockFileName(i)[..|BlockFileName(i)| - 4] == Decimal(i);
    assert FileName(fid)[..|FileName(fid)| - 4] == fid;
  }

  /** That is so if and only if the directory's name is not the decimal form of a number. */
  lemma NotItsOwnBlockIff(fid: string)
    ensures NotItsOwnBlock(fid) <==> !exists i: nat :: fid == Decimal(i)
  {
    hide BlockFileName, FileName, Decimal;
    if NotItsOwnBlock(fid) {
      forall i: nat ensures fid != Decimal(i) {
        assert BlockFileName(i) != FileName(fid);
        GluedNameIsBlockName(fid, i);
      }
    } else {
      var i: nat :| BlockFileName(i) == FileName(fid);
      GluedNameIsBlockName(fid, i);
    }
  }

  /** So it is for file ids, and for every name that does not begin with a digit. */
  lemma NamesAreNotNumbers(fid: string)
    requires fid != "" && DigitValue(fid[0]).None?
    ensures NotItsOwnBlock(fid)
  {
    forall i: nat ensures BlockFileName(i) != FileName(fid) {
      GluedNameIsBlockName(fid, i);
      ParseDecimal(i);
      NotDigits(fid);
    }
  }

  class Migrator {
    const h: Hashing
    ghost const start: Storage
    var fs: Storage
    ghost var run: seq<Event>

    constructor (h: Hashing, fs: Storage)
      ensures this.h == h && this.fs == fs && start == fs && At(Idle)
    {
      this.h, this.fs, start := h, fs, fs;
      run := [];
    }

    /** The storage is what the recorded operations made of the first one. */
    ghost predicate At(phase: Phase)
      reads this
    {
      Valid(h, start, run) && Exec(h, start, run) == State(fs, phase)
    }

    method GetBlockFileNames(fid: string) returns (r: Result<seq<string>, MigrateError>)
      ensures r.Failure? <==> fid !in fs.dirs || fs.dirs[fid].subdirectory
      ensures r.Success? ==> Enumerates(r.value, BlockNames(fs.dirs[fid]))
    {
      if fid !in fs.dirs {
        return Failure(NoDirectory);
      }
      if fs.dirs[fid].subdirectory {
        return Failure(HasDirectory);
      }
      var all := Keys(fs.dirs[fid].files);
      var names: seq<string> := [];
      for i := 0 to |all|
        invariant forall n :: n in names <==> n in all[..i] && IsBlockName(n)
        invariant forall i, j :: 0 <= i < j < |names| ==> names[i] != names[j]
      {
        assert all[..i + 1] == all[..i] + [all[i]];
        if IsBlockName(all[i]) {
          assert all[i] !in all[..i];
          names := names + [all[i]];
        }
      }
      assert all[..|all|] == all;
      r := Success(names);
    }

    /** Copies block `i` onto the end of the glued file. */
    method Combine(fid: string, i: nat, ghost count: nat, ghost rest: seq<string>)
      returns (r: Result<(), MigrateError>)
      requires At(Gluing(fid, i, 0, count, rest)) && i < count
      requires fid in fs.dirs && FileName(fid) in fs.dirs[fid].files && BlockFileName(i) != FileName(fid)
      modifies this`fs, this`run
      ensures old(run) <= run
      ensures r.Failure? <==> BlockFileName(i) !in old(fs).dirs[fid].files
      ensures r.Failure? ==> fs == old(fs) && At(MovingTree(fid, rest))
      ensures r.Success? ==>
                var files := old(fs).dirs[fid].files;
                && At(Gluing(fid, i + 1, 0, count, rest))
                && fs == WithFile(old(fs), fid, FileName(fid), files[FileName(fid)] + files[BlockFileName(i)])
    {
      hide Exec, Valid;
      var files := fs.dirs[fid].files;
      if BlockFileName(i) !in files {
        Extend(h, start, run, Advance);
        run := run + [Advance];
        return Failure(MissingFile);
      }
      var src := files[BlockFileName(i)];
      var offset := 0;
      assert files[FileName(fid)] + src[..0] == files[FileName(fid)];
      WriteTwice(fs, fid, FileName(fid), files[FileName(fid)], files[FileName(fid)]);
      while offset < |src|
        invariant 0 <= offset <= |src|
        invariant At(Gluing(fid, i, offset, count, rest)) && old(run) <= run
        invariant fs == WithFile(old(fs), fid, FileName(fid), files[FileName(fid)] + src[..offset])
      {
        assert src[..offset + 1] == src[..offset] + [src[offset]];
        assert files[FileName(fid)] + src[..offset + 1] == (files[FileName(fid)] + src[..offset]) + [src[offset]];
        WriteTwice(old(fs), fid, FileName(fid), files[FileName(fid)] + src[..offset],
                   files[FileName(fid)] + src[..offset + 1]);
        Extend(h, start, run, Advance);
        fs := WithFile(fs, fid, FileName(fid), fs.dirs[fid].files[FileName(fid)] + [src[offset]]);
        run := run + [Advance];
        offset := offset + 1;
      }
      assert src[..offset] == src;
      Extend(h, start, run, Advance);
      run := run + [Advance];
      r := Success(());
    }

    /** Glues the blocks from 0 to `blockCount` - 1 in number order; at the first
        missing block it stops and leaves what it has glued so far. */
    method GlueBlocks(fid: string, blockCount: nat, ghost rest: seq<string>)
      returns (r: Result<(), MigrateError>)
      requires fid in fs.dirs && FileName(fid) !in fs.dirs[fid].files && NotItsOwnBlock(fid)
      requires blockCount == |BlockNames(fs.dirs[fid])|
      requires !fs.dirs[fid].subdirectory && At(Looping([fid] + rest))
      modifies this`fs, this`run
      ensures old(run) <= run && At(MovingTree(fid, rest))
      ensures fs == WithFile(old(fs), fid, FileName(fid), GlueFrom(old(fs).dirs[fid], 0, blockCount))
      ensures r.Success? <==> AllBlocks(old(fs).dirs[fid], 0, blockCount)
    {
      hide At, WithFile, IsBlockName, GlueFrom, FileName, BlockFileName;
      ghost var dir := fs.dirs[fid];
      ghost var glued: Bytes := [];
      CreateFile(fid, rest);
      WrittenFile(old(fs), fid, FileName(fid), []);
      for i := 0 to blockCount
        invariant At(Gluing(fid, i, 0, blockCount, rest)) && old(run) <= run
        invariant fs == WithFile(old(fs), fid, FileName(fid), glued)
        invariant GlueFrom(dir, 0, blockCount) == glued + GlueFrom(dir, i, blockCount)
        invariant AllBlocks(dir, 0, i)
      {
        GlueFromStep(dir, i, blockCount);
        WrittenFile(old(fs), fid, FileName(fid), glued);
        assert BlockFileName(i) != FileName(fid);
        var copied := Combine(fid, i, blockCount, rest);
        if copied.Failure? {
          assert glued + [] == glued;
          return copied;
        }
        ghost var block := dir.files[BlockFileName(i)];
        WriteTwice(old(fs), fid, FileName(fid), glued, glued + block);
        glued := glued + block;
      }
      GlueFromStep(dir, blockCount, blockCount);
      assert glued + [] == glued;
      FinishGluing(fid, blockCount, rest);
      r := Success(());
    }

    /** Creates the empty glued file. */
    method CreateFile(fid: string, ghost rest: seq<string>)
      requires fid in fs.dirs && FileName(fid) !in fs.dirs[fid].files
      requires !fs.dirs[fid].subdirectory && At(Looping([fid] + rest))
      modifies this`fs, this`run
      ensures old(run) <= run && At(Gluing(fid, 0, 0, |BlockNames(old(fs).dirs[fid])|, rest))
      ensures fs == WithFile(old(fs), fid, FileName(fid), [])
    {
      hide Exec, Valid, IsBlockName;
      Extend(h, start, run, Advance);
      fs := WithFile(fs, fid, FileName(fid), []);
      run := run + [Advance];
    }

    ghost method FinishGluing(fid: string, blockCount: nat, rest: seq<string>)
      requires At(Gluing(fid, blockCount, 0, blockCount, rest))
      modifies this`run
      ensures old(run) <= run && At(MovingTree(fid, rest))
    {
      hide Exec, Valid;
      Extend(h, start, run, Advance);
      run := run + [Advance];
    }

    method HandleGlueing(fid: string, ghost rest: seq<string>)
      requires At(Looping([fid] + rest)) && NotItsOwnBlock(fid)
      modifies this`fs, this`run
      ensures old(run) <= run && At(MovingTree(fid, rest))
      ensures fs == AfterGlue(old(fs), fid)
    {
      if !(fid in fs.dirs && FileName(fid) in fs.dirs[fid].files) {
        var names := GetBlockFileNames(fid);
        if names.Success? {
          EnumerationSize(names.value, BlockNames(fs.dirs[fid]));
          var glued := GlueBlocks(fid, |names.value|, rest);
          return;
        }
      }
      hide Exec, Valid;
      Extend(h, start, run, Advance);
      run := run + [Advance];
    }

    method HandleTree(fid: string, ghost rest: seq<string>)
      requires At(MovingTree(fid, rest))
      modifies this`fs, this`run
      ensures old(run) <= run && At(Checking(fid, rest))
      ensures fs == MoveTree(old(fs), fid)
    {
      hide Exec, Valid;
      Extend(h, start, run, Advance);
      run := run + [Advance];
      if TreeName(fid) in fs.trees && fid in fs.dirs {
        fs := WithFile(fs, fid, TreeName(fid), fs.trees[TreeName(fid)]).(trees := fs.trees - {TreeName(fid)});
      }
    }

    /** Removes every block file, and nothing else. */
    method CleanOld(fid: string, ghost rest: seq<string>) returns (r: Result<(), MigrateError>)
      requires At(Checking(fid, rest)) && Passes(h, fs, fid)
      modifies this`fs, this`run
      ensures old(run) <= run && At(Looping(rest))
      ensures fs == AfterClean(old(fs), fid) && (r.Failure? <==> old(fs).dirs[fid].subdirectory)
    {
      hide Exec, Valid, IsBlockName, GluedMatches;
      var names := GetBlockFileNames(fid);
      if names.Failure? {
        Extend(h, start, run, Advance);
        run := run + [Advance];
        return Failure(names.error);
      }
      ghost var dir := fs.dirs[fid];
      var list := names.value;
      Extend(h, start, run, ListBlocks(list));
      run := run + [ListBlocks(list)];
      assert list[0..] == list;
      assert dir.files - Removed(list, 0) == dir.files;
      assert fs.dirs[fid := dir] == fs.dirs;
      for i := 0 to |list|
        invariant At(Cleaning(fid, list[i..], rest)) && old(run) <= run
        invariant fid in fs.dirs
        invariant fs == old(fs).(dirs := old(fs).dirs[fid := dir.(files := dir.files - Removed(list, i))])
      {
        RemoveNext(list, i, dir);
        Extend(h, start, run, Advance);
        fs := WithoutFile(fs, fid, list[i]);
        run := run + [Advance];
      }
      assert Removed(list, |list|) == BlockNames(dir);
      assert list[|list|..] == [];
      Extend(h, start, run, Advance);
      run := run + [Advance];
      r := Success(());
    }

    method HandleCheck(fid: string, ghost rest: seq<string>)
      requires At(Checking(fid, rest))
      modifies this`fs, this`run
      ensures old(run) <= run && At(Looping(rest))
      ensures fs == AfterCheck(h, old(fs), fid)
    {
      if Passes(h, fs, fid) {
        var cleaned := CleanOld(fid, rest);
      } else {
        hide Exec, Valid;
        Extend(h, start, run, Advance);
        fs := MarkCorrupted(fs, fid);
        run := run + [Advance];
      }
    }

    /** Migrates every directory listed at the start, one after the other; each of
        those that hold exactly their blocks is completed. */
    method Migrate() returns (fids: seq<string>)
      requires At(Idle)
      requires forall d :: d in fs.dirs ==> NotItsOwnBlock(d)
      modifies this`fs, this`run
      ensures old(run) <= run && At(Idle)
      ensures Enumerates(fids, old(fs).dirs.Keys) && fs == MigrateAll(h, old(fs), fids)
      ensures forall l :: Sound(h, l) && Readable(l, old(fs)) && Untouched(l, old(fs).dirs[l.fid]) ==>
                Migrated(l, fs)
      ensures forall fid: string, blocks: seq<Bytes>, tree: Bytes | IntactDirectory(h, old(fs), fid, blocks, tree) ::
                fid in fs.dirs && fid + ".tree" !in fs.trees &&
                var files := fs.dirs[fid].files;
                && fid + ".jkl" in files && files[fid + ".jkl"] == Flatten(blocks)
                && fid + ".tree" in files && files[fid + ".tree"] == tree
                && forall s: string :: s + ".jkl" in files ==> Atoi(s).None?
    {
      hide At, NotItsOwnBlock, AfterGlue, AfterCheck, MoveTree;
      fids := ListDirs();
      var i := 0;
      assert fids[0..] == fids;
      while i < |fids|
        invariant 0 <= i <= |fids| && At(Looping(fids[i..])) && old(run) <= run
        invariant MigrateAll(h, fs, fids[i..]) == MigrateAll(h, old(fs), fids)
      {
        var fid := fids[i];
        assert fid in fids && fids[i..] == [fid] + fids[i + 1..];
        HandleGlueing(fid, fids[i + 1..]);
        HandleTree(fid, fids[i + 1..]);
        HandleCheck(fid, fids[i + 1..]);
        i := i + 1;
      }
      assert fids[i..] == [];
      Finish();
      forall l | Sound(h, l) && Readable(l, old(fs)) && Untouched(l, old(fs).dirs[l.fid])
        ensures Migrated(l, fs)
      {
        MigratesEveryDirectory(h, l, old(fs), fids);
      }
      MigratesEach(h, old(fs), fids);
    }

    method ListDirs() returns (fids: seq<string>)
      requires At(Idle)
      modifies this`run
      ensures old(run) <= run && At(Looping(fids)) && Enumerates(fids, fs.dirs.Keys)
    {
      hide Exec, Valid;
      fids := Keys(fs.dirs);
      Extend(h, start, run, Start(fids));
      run := run + [Start(fids)];
    }

    ghost method Finish()
      requires At(Looping([]))
      modifies this`run
      ensures old(run) <= run && At(Idle)
    {
      hide Exec, Valid;
      Extend(h, start, run, Advance);
      run := run + [Advance];
    }
  }

  function Removed(names: seq<string>, i: nat): set<string>
    requires i <= |names|
  {
    set j | 0 <= j < i :: names[j]
  }

  lemma RemoveNext(names: seq<string>, i: nat, dir: Dir)
    requires i < |names| && forall j, k :: 0 <= j < k < |names| ==> names[j] != names[k]
    requires forall n :: n in names ==> n in dir.files
    ensures names[i..] != [] && names[i..][0] == names[i] && names[i..][1..] == names[i + 1..]
    ensures names[i] in dir.files - Removed(names, i)
    ensures dir.files - Removed(names, i) - {names[i]} == dir.files - Removed(names, i + 1)
  {
    assert Removed(names, i + 1) == Removed(names, i) + {names[i]};
  }

  // ------------------------------------------------------- what gluing produces

  /** Gluing succeeds exactly on directories whose block names are the numbers
      from 0 without a gap, each in its shortest form. */
  lemma GluesExactlyIfNumbered(dir: Dir)
    requires |BlockNames(dir)| <= INT64_MAX
    ensures AllBlocks(dir, 0, |BlockNames(dir)|) <==> BlockNames(dir) == NamesTo(|BlockNames(dir)|)
  {
    hide IsBlockName;
    var n := |BlockNames(dir)|;
    if AllBlocks(dir, 0, n) {
      forall i | 0 <= i < n ensures BlockFileName(i) in BlockNames(dir) {
        BlockNameCodec(i);
      }
      NamesToSize(n);
      SubsetOfSameSize(NamesTo(n), BlockNames(dir));
    }
    if BlockNames(dir) == NamesTo(n) {
      forall j | 0 <= j < n ensures BlockFileName(j) in dir.files {
        assert BlockFileName(j) in NamesTo(n);
      }
    }
  }

  lemma ShortestNames(name: string, n: nat)
    ensures name in NamesTo(n) <==>
            exists number: string :: Shortest(number) && NumberOf(number) < n && name == number + ".jkl"
  {
    hide Shortest, Decimal, ParseDigits;
    if name in NamesTo(n) {
      var i :| 0 <= i < n && name == BlockFileName(i);
      ShortestIs(Decimal(i), i);
      assert NumberOf(Decimal(i)) < n && name == Decimal(i) + ".jkl";
    }
    if number: string :| Shortest(number) && NumberOf(number) < n && name == number + ".jkl" {
      ShortestIs(number, 0);
      assert name == BlockFileName(NumberOf(number));
    }
  }

  /** In terms of names: gluing finds every block if and only if the names of blocks
      are the numbers below their count, in their shortest form, before ".jkl". */
  lemma GluesExactlyIfShortest(dir: Dir)
    requires |BlockNames(dir)| <= INT64_MAX
    ensures AllBlocks(dir, 0, |BlockNames(dir)|) <==>
            forall name :: name in BlockNames(dir) <==>
              exists number: string ::
                Shortest(number) && NumberOf(number) < |BlockNames(dir)| && name == number + ".jkl"
  {
    var n := |BlockNames(dir)|;
    GluesExactlyIfNumbered(dir);
    hide *;
    forall name
      ensures name in NamesTo(n) <==>
              exists number: string :: Shortest(number) && NumberOf(number) < n && name == number + ".jkl"
    {
      ShortestNames(name, n);
    }
  }

  /** Gluing finds every block if and only if each shortest number below the count
      has a file. */
  lemma AllBlocksIs(dir: Dir, count: nat)
    ensures AllBlocks(dir, 0, count) <==>
            forall number: string :: Shortest(number) && NumberOf(number) < count ==> number + ".jkl" in dir.files
  {
    hide Shortest, Decimal, ParseDigits;
    if AllBlocks(dir, 0, count) {
      forall number: string | Shortest(number) && NumberOf(number) < count
        ensures number + ".jkl" in dir.files
      {
        ShortestIs(number, 0);
        assert BlockFileName(NumberOf(number)) in dir.files;
      }
    } else {
      var i :| 0 <= i < count && BlockFileName(i) !in dir.files;
      ShortestIs(Decimal(i), i);
      assert NumberOf(Decimal(i)) < count && Decimal(i) + ".jkl" !in dir.files;
    }
  }

  lemma SubsetOfSameSize<T>(a: set<T>, b: set<T>)
    requires a <= b && |a| == |b|
    ensures a == b
  {
    assert |b - a| == |b| - |a|;
  }

  /** Whatever order the names are listed in, blocks are glued in number order. */
  lemma {:induction false} GluedInNumberOrder(l: Legacy, dir: Dir, i: nat)
    requires AllThere(l, dir) && BlocksRight(l, dir) && i <= |l.blocks|
    ensures Flatten(l.blocks[..i]) + GlueFrom(dir, i, |l.blocks|) == Flatten(l.blocks)
    decreases |l.blocks| - i
  {
    if i < |l.blocks| {
      GluedInNumberOrder(l, dir, i + 1);
      ConcatNext(l.blocks, i);
      Reassociate(Flatten(l.blocks[..i]), l.blocks[i], GlueFrom(dir, i + 1, |l.blocks|));
    } else {
      assert l.blocks[..i] == l.blocks;
      assert Flatten(l.blocks) + [] == Flatten(l.blocks);
    }
  }

  lemma Reassociate(a: Bytes, b: Bytes, c: Bytes)
    ensures a + (b + c) == (a + b) + c
  {
  }

  /** After gluing and moving the tree, a directory of exactly its blocks passes. */
  lemma GluedDirectoryPasses(h: Hashing, l: Legacy, fs: Storage)
    requires Sound(h, l) && Readable(l, fs) && Untouched(l, fs.dirs[l.fid])
    ensures var fs' := MoveTree(AfterGlue(fs, l.fid), l.fid);
            && Passes(h, fs', l.fid) && GluedWhole(l, fs'.dirs[l.fid])
            && TreeName(l.fid) !in fs'.trees && ReadFile(fs', l.fid, TreeName(l.fid)) == Some(l.tree)
            && !fs'.dirs[l.fid].subdirectory
            && BlockNames(fs'.dirs[l.fid]) == BlockNames(fs.dirs[l.fid])
  {
    hide IsBlockName;
    NamesToSize(|l.blocks|);
    GluedFileApart(h, l);
    forall i | 0 <= i < |l.blocks| ensures BlockFileName(i) in fs.dirs[l.fid].files {
      assert BlockFileName(i) in NamesTo(|l.blocks|);
    }
    GluedInNumberOrder(l, fs.dirs[l.fid], 0);
    assert l.blocks[..0] == [] && Flatten(l.blocks[..0]) == [];
    assert [] + GlueFrom(fs.dirs[l.fid], 0, |l.blocks|) == GlueFrom(fs.dirs[l.fid], 0, |l.blocks|);
  }

  /** Whole blocks, except for a last one that may be short. */
  predicate BlocksOfSize(blocks: seq<Bytes>, size: nat) {
    forall i :: 0 <= i < |blocks| ==>
      0 < |blocks[i]| <= size && (i + 1 < |blocks| ==> |blocks[i]| == size)
  }

  /** The pieces of the complete glued file are the blocks. */
  lemma GluedPiecesAreBlocks(l: Legacy, fs: Storage, size: nat, i: nat)
    requires l.fid in fs.dirs && GluedWhole(l, fs.dirs[l.fid])
    requires BlocksOfSize(l.blocks, size) && i < |l.blocks|
    ensures SinglePiece(fs, l.fid, i, size) == Success(l.blocks[i])
  {
    if i == |l.blocks| - 1 {
      ShortLastBlockReadsDiffer(l.blocks, size, i);
    } else {
      ConcatOffset(l.blocks, size, i);
      BlockBounds(size, i);
    }
  }

  /** The whole file is glued, its tree is beside it, and no block is left. */
  predicate Migrated(l: Legacy, fs: Storage) {
    && l.fid in fs.dirs && GluedWhole(l, fs.dirs[l.fid])
    && BlockNames(fs.dirs[l.fid]) == {}
    && TreeName(l.fid) !in fs.trees
    && HybridTree(fs, l.fid) == ReadFile(fs, l.fid, TreeName(l.fid)) == Some(l.tree)
  }

  /** The pieces of a migrated file are its blocks. */
  lemma MigratedPieces(l: Legacy, fs: Storage, size: nat)
    requires Migrated(l, fs) && BlocksOfSize(l.blocks, size)
    ensures forall i :: 0 <= i < |l.blocks| ==> SinglePiece(fs, l.fid, i, size) == Success(l.blocks[i])
  {
    forall i | 0 <= i < |l.blocks| ensures SinglePiece(fs, l.fid, i, size) == Success(l.blocks[i]) {
      GluedPiecesAreBlocks(l, fs, size, i);
    }
  }

  /** Migrating a directory of exactly its blocks. */
  lemma MigratesWholeDirectory(h: Hashing, l: Legacy, fs: Storage)
    requires Sound(h, l) && Readable(l, fs) && Untouched(l, fs.dirs[l.fid])
    ensures Migrated(l, MigrateOne(h, fs, l.fid))
  {
    hide AfterGlue, MoveTree, Passes, IsBlockName, Flatten;
    GluedDirectoryPasses(h, l, fs);
    GluedFileApart(h, l);
    var moved := MoveTree(AfterGlue(fs, l.fid), l.fid).dirs[l.fid];
    assert TreeName(l.fid) in moved.files && TreeName(l.fid) !in BlockNames(moved);
    assert MigrateOne(h, fs, l.fid).dirs[l.fid].files[TreeName(l.fid)] == l.tree;
  }

  // ----------------------------------------------------------- all directories

  /** The same directory, and the same tree file for it. */
  predicate SameFor(fid: string, a: Storage, b: Storage) {
    && fid in a.dirs && fid in b.dirs && a.dirs[fid] == b.dirs[fid]
    && (TreeName(fid) in a.trees <==> TreeName(fid) in b.trees)
    && (TreeName(fid) in a.trees ==> a.trees[TreeName(fid)] == b.trees[TreeName(fid)])
  }

  /** Migrating one directory does not touch another. */
  lemma MigrateOneFrame(h: Hashing, fs: Storage, g: string, fid: string)
    requires g != fid && fid in fs.dirs && !HasCorruptPrefix(fid)
    ensures SameFor(fid, fs, MigrateOne(h, fs, g))
  {
    hide GlueFrom, BlockNames, Passes;
    if TreeName(g) == TreeName(fid) {
      TreeNameInjective(g, fid);
    }
    assert (CORRUPT_PREFIX + g)[..|CORRUPT_PREFIX|] == CORRUPT_PREFIX;
    var glued := AfterGlue(fs, g);
    assert SameFor(fid, fs, glued);
    var moved := MoveTree(glued, g);
    assert SameFor(fid, fs, moved);
  }

  lemma {:induction false} StaysMigrated(h: Hashing, l: Legacy, fs: Storage, fids: seq<string>)
    requires Sound(h, l) && Migrated(l, fs) && l.fid !in fids
    ensures Migrated(l, MigrateAll(h, fs, fids))
    decreases |fids|
  {
    if fids != [] {
      MigrateOneFrame(h, fs, fids[0], l.fid);
      hide MigrateOne;
      StaysMigrated(h, l, MigrateOne(h, fs, fids[0]), fids[1..]);
    }
  }

  /** A migration completes every directory of exactly its blocks, in whatever
      order and beside whatever other directories it is listed. */
  lemma {:induction false} MigratesEveryDirectory(h: Hashing, l: Legacy, fs: Storage, fids: seq<string>)
    requires Sound(h, l) && Readable(l, fs) && Untouched(l, fs.dirs[l.fid])
    requires l.fid in fids && forall i, j :: 0 <= i < j < |fids| ==> fids[i] != fids[j]
    ensures Migrated(l, MigrateAll(h, fs, fids))
    decreases |fids|
  {
    var after := MigrateOne(h, fs, fids[0]);
    if fids[0] == l.fid {
      MigratesWholeDirectory(h, l, fs);
      StaysMigrated(h, l, after, fids[1..]);
    } else {
      MigrateOneFrame(h, fs, fids[0], l.fid);
      hide MigrateOne;
      MigratesEveryDirectory(h, l, after, fids[1..]);
    }
  }

  // ---------------------------------------------- the whole of it, in names and bytes

  /** A directory in the layout of one file per block, whose tree has the root of the
      blocks one after the other: the file of block i is named by i's shortest form,
      and no other name is taken for a block's. */
  ghost predicate IntactDirectory(h: Hashing, fs: Storage, fid: string, blocks: seq<Bytes>, tree: Bytes) {
    && fid in fs.dirs && !("corrupted-" <= fid) && Atoi(fid).None?
    && |blocks| <= 9223372036854775807
    && !fs.dirs[fid].subdirectory && fid + ".jkl" !in fs.dirs[fid].files
    && (forall s: string :: Shortest(s) && NumberOf(s) < |blocks| ==>
          s + ".jkl" in fs.dirs[fid].files && fs.dirs[fid].files[s + ".jkl"] == blocks[NumberOf(s)])
    && (forall s: string :: s + ".jkl" in fs.dirs[fid].files && Atoi(s).Some? ==>
          Shortest(s) && NumberOf(s) < |blocks|)
    && (if fid + ".tree" in fs.trees then fs.trees[fid + ".tree"] == tree
        else fid + ".tree" in fs.dirs[fid].files && fs.dirs[fid].files[fid + ".tree"] == tree)
    && h.treeRoot(tree) == Some(h.rootOf(Flatten(blocks))) && Injective(h.rootOf)
  }

  lemma IntactIsLegacy(h: Hashing, fs: Storage, fid: string, blocks: seq<Bytes>, tree: Bytes)
    requires IntactDirectory(h, fs, fid, blocks, tree)
    ensures var l := Legacy(fid, blocks, tree);
            Sound(h, l) && Readable(l, fs) && Untouched(l, fs.dirs[fid])
  {
    var l, dir := Legacy(fid, blocks, tree), fs.dirs[fid];
    assert HasCorruptPrefix(fid) ==> "corrupted-" <= fid;
    hide Shortest, Decimal, ParseDigits, Flatten;
    forall i | 0 <= i < |blocks| ensures BlockFileName(i) in dir.files && dir.files[BlockFileName(i)] == blocks[i] {
      ShortestIs(Decimal(i), i);
      assert NumberOf(Decimal(i)) == i && Decimal(i) + ".jkl" == BlockFileName(i);
    }
    forall name ensures name in BlockNames(dir) <==> name in NamesTo(|blocks|) {
      if name in BlockNames(dir) {
        var s := name[..|name| - 4];
        assert name == s + ".jkl";
        ShortestIs(s, 0);
        assert name == BlockFileName(NumberOf(s));
      }
      if name in NamesTo(|blocks|) {
        var i :| 0 <= i < |blocks| && name == BlockFileName(i);
        BlockNameCodec(i);
      }
    }
  }

  /** A migration leaves <fid>.jkl with the blocks in numeric order, <fid>.tree beside
      it, and no block, for every intact directory. */
  lemma MigratesInPlace(h: Hashing, fs: Storage, fids: seq<string>, fid: string, blocks: seq<Bytes>, tree: Bytes)
    requires IntactDirectory(h, fs, fid, blocks, tree)
    requires fid in fids && forall i, j :: 0 <= i < j < |fids| ==> fids[i] != fids[j]
    ensures var fs' := MigrateAll(h, fs, fids);
            && fid in fs'.dirs && fid + ".tree" !in fs'.trees
            && var files := fs'.dirs[fid].files;
               && fid + ".jkl" in files && files[fid + ".jkl"] == Flatten(blocks)
               && fid + ".tree" in files && files[fid + ".tree"] == tree
               && forall s: string :: s + ".jkl" in files ==> Atoi(s).None?
  {
    var l := Legacy(fid, blocks, tree);
    IntactIsLegacy(h, fs, fid, blocks, tree);
    MigratesEveryDirectory(h, l, fs, fids);
    var files := MigrateAll(h, fs, fids).dirs[fid].files;
    forall s: string | s + ".jkl" in files ensures Atoi(s).None? {
      assert s + ".jkl" !in BlockNames(MigrateAll(h, fs, fids).dirs[fid]);
      assert (s + ".jkl")[..|s + ".jkl"| - 4] == s && (s + ".jkl")[|s + ".jkl"| - 4..] == ".jkl";
    }
  }

  lemma MigratesEach(h: Hashing, fs: Storage, fids: seq<string>)
    requires Enumerates(fids, fs.dirs.Keys)
    ensures var fs' := MigrateAll(h, fs, fids);
            forall fid: string, blocks: seq<Bytes>, tree: Bytes | IntactDirectory(h, fs, fid, blocks, tree) ::
              fid in fs'.dirs && fid + ".tree" !in fs'.trees &&
              var files := fs'.dirs[fid].files;
              && fid + ".jkl" in files && files[fid + ".jkl"] == Flatten(blocks)
              && fid + ".tree" in files && files[fid + ".tree"] == tree
              && forall s: string :: s + ".jkl" in files ==> Atoi(s).None?
  {
    hide MigrateAll, Atoi;
    forall fid: string, blocks: seq<Bytes>, tree: Bytes | IntactDirectory(h, fs, fid, blocks, tree)
      ensures var fs' := MigrateAll(h, fs, fids);
              fid in fs'.dirs && fid + ".tree" !in fs'.trees &&
              var files := fs'.dirs[fid].files;
              && fid + ".jkl" in files && files[fid + ".jkl"] == Flatten(blocks)
              && fid + ".tree" in files && files[fid + ".tree"] == tree
              && forall s: string :: s + ".jkl" in files ==> Atoi(s).None?
    {
      assert fid in fs.dirs.Keys;
      MigratesInPlace(h, fs, fids, fid, blocks, tree);
    }
  }
}
