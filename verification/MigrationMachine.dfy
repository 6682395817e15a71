/** Migration of legacy directories as a machine of single file operations.  The
    process may stop between any two operations, or in the middle of copying a
    block, and may be started again any number of times. */
module MigrationMachine {
  import opened Wrappers
  import opened Collections
  import opened Numerals
  import opened Chunking
  import opened Archive

  /** The Merkle root of a file at the fixed chunk size, and the root stored in a
      tree file, if it can be read. */
  datatype Hashing = Hashing(rootOf: Bytes -> Digest, treeRoot: Bytes -> Option<Digest>)

  const CORRUPT_PREFIX := "corrupted-"

  /** Names of the form <number>.jkl. */
  predicate IsBlockName(name: string) {
    |name| >= 4 && name[|name| - 4..] == ".jkl" && Atoi(name[..|name| - 4]).Some?
  }

  function BlockNames(dir: Dir): set<string> {
    set n | n in dir.files && IsBlockName(n)
  }

  datatype Phase =
    | Idle
    | Looping(rest: seq<string>)
    | Gluing(fid: string, i: nat, offset: nat, count: nat, rest: seq<string>)
    | MovingTree(fid: string, rest: seq<string>)
    | Checking(fid: string, rest: seq<string>)
    | Cleaning(fid: string, names: seq<string>, rest: seq<string>)

  datatype State = State(fs: Storage, phase: Phase)

  datatype Event =
    | Start(fids: seq<string>)  // the directories, in the order listed
    | Advance                   // the next operation
    | ListBlocks(names: seq<string>) // a passed check, and the block names in the order listed
    | Stop

  function WithFile(fs: Storage, fid: string, name: string, content: Bytes): Storage
    requires fid in fs.dirs
  {
    fs.(dirs := fs.dirs[fid := fs.dirs[fid].(files := fs.dirs[fid].files[name := content])])
  }

  function WithoutFile(fs: Storage, fid: string, name: string): Storage
    requires fid in fs.dirs
  {
    fs.(dirs := fs.dirs[fid := fs.dirs[fid].(files := fs.dirs[fid].files - {name})])
  }

  lemma WrittenFile(fs: Storage, fid: string, name: string, a: Bytes)
    requires fid in fs.dirs
    ensures var fs' := WithFile(fs, fid, name, a);
            && fs'.dirs.Keys == fs.dirs.Keys && fs'.trees == fs.trees
            && fs'.dirs[fid] == fs.dirs[fid].(files := fs.dirs[fid].files[name := a])
  {
  }

  lemma WriteTwice(fs: Storage, fid: string, name: string, a: Bytes, b: Bytes)
    requires fid in fs.dirs
    ensures WithFile(WithFile(fs, fid, name, a), fid, name, b) == WithFile(fs, fid, name, b)
    ensures name in fs.dirs[fid].files && fs.dirs[fid].files[name] == a ==> WithFile(fs, fid, name, a) == fs
  {
    var files := fs.dirs[fid].files;
    assert files[name := a][name := b] == files[name := b];
    if name in files && files[name] == a {
      assert files[name := a] == files;
      assert fs.dirs[fid := fs.dirs[fid]] == fs.dirs;
    }
  }

  /** The integrity check: the glued file's root is the root in the stored tree. */
  predicate Passes(h: Hashing, fs: Storage, fid: string) {
    && fid in fs.dirs
    && GluedMatches(h, fs.dirs[fid], fid)
  }

  predicate GluedMatches(h: Hashing, dir: Dir, fid: string) {
    && FileName(fid) in dir.files
    && TreeName(fid) in dir.files
    && h.treeRoot(dir.files[TreeName(fid)]) == Some(h.rootOf(dir.files[FileName(fid)]))
  }

  /** Takes one directory up: creates the empty glued file unless there is one. */
  function BeginDir(fs: Storage, fid: string, rest: seq<string>): State {
    if fid in fs.dirs && FileName(fid) !in fs.dirs[fid].files && !fs.dirs[fid].subdirectory
    then State(WithFile(fs, fid, FileName(fid), []), Gluing(fid, 0, 0, |BlockNames(fs.dirs[fid])|, rest))
    else State(fs, MovingTree(fid, rest))
  }

  /** Copies one byte, or goes on to the next block; stops at the first missing block. */
  function GlueMore(s: State): State
    requires s.phase.Gluing?
  {
    var Gluing(fid, i, offset, count, rest) := s.phase;
    match (ReadFile(s.fs, fid, BlockFileName(i)), ReadFile(s.fs, fid, FileName(fid)))
    case (Some(block), Some(glued)) =>
      if i >= count then s.(phase := MovingTree(fid, rest))
      else if offset < |block| then
        State(WithFile(s.fs, fid, FileName(fid), glued + [block[offset]]),
              Gluing(fid, i, offset + 1, count, rest))
      else s.(phase := Gluing(fid, i + 1, 0, count, rest))
    case _ => s.(phase := MovingTree(fid, rest))
  }

  function MoveTree(fs: Storage, fid: string): Storage {
    if TreeName(fid) in fs.trees && fid in fs.dirs
    then WithFile(fs, fid, TreeName(fid), fs.trees[TreeName(fid)]).(trees := fs.trees - {TreeName(fid)})
    else fs
  }

  /** A directory is renamed only to a name that does not exist. */
  function MarkCorrupted(fs: Storage, fid: string): Storage {
    if fid in fs.dirs && CORRUPT_PREFIX + fid !in fs.dirs
    then fs.(dirs := (fs.dirs - {fid})[CORRUPT_PREFIX + fid := fs.dirs[fid]])
    else fs
  }

  function Advanced(h: Hashing, s: State): State {
    match s.phase
    case Idle => s
    case Looping(rest) => if rest == [] then s.(phase := Idle) else BeginDir(s.fs, rest[0], rest[1..])
    case Gluing(_, _, _, _, _) => GlueMore(s)
    case MovingTree(fid, rest) => State(MoveTree(s.fs, fid), Checking(fid, rest))
    case Checking(fid, rest) =>
      if Passes(h, s.fs, fid) then s.(phase := Looping(rest))
      else State(MarkCorrupted(s.fs, fid), Looping(rest))
    case Cleaning(fid, names, rest) =>
      if names != [] && fid in s.fs.dirs && names[0] in s.fs.dirs[fid].files
      then State(WithoutFile(s.fs, fid, names[0]), Cleaning(fid, names[1..], rest))
      else s.(phase := Looping(rest))
  }

  /** A passed check is followed by cleaning, unless the directory holds a directory. */
  predicate Cleans(h: Hashing, s: State) {
    s.phase.Checking? && Passes(h, s.fs, s.phase.fid) && !s.fs.dirs[s.phase.fid].subdirectory
  }

  predicate Enabled(h: Hashing, s: State, e: Event) {
    match e
    case Start(fids) => s.phase.Idle? && Enumerates(fids, s.fs.dirs.Keys)
    case Advance => !s.phase.Idle? && !Cleans(h, s)
    case ListBlocks(names) => Cleans(h, s) && Enumerates(names, BlockNames(s.fs.dirs[s.phase.fid]))
    case Stop => true
  }

  function Apply(h: Hashing, s: State, e: Event): State {
    match e
    case Start(fids) => s.(phase := Looping(fids))
    case Advance => Advanced(h, s)
    case ListBlocks(names) => if s.phase.Checking? then s.(phase := Cleaning(s.phase.fid, names, s.phase.rest)) else s
    case Stop => s.(phase := Idle)
  }

  /** The state after a history of runs, stops and restarts. */
  function Exec(h: Hashing, fs: Storage, run: seq<Event>): State {
    if run == [] then State(fs, Idle)
    else Apply(h, Exec(h, fs, run[..|run| - 1]), run[|run| - 1])
  }

  predicate Valid(h: Hashing, fs: Storage, run: seq<Event>) {
    run == [] ||
    (Valid(h, fs, run[..|run| - 1]) && Enabled(h, Exec(h, fs, run[..|run| - 1]), run[|run| - 1]))
  }

  lemma Extend(h: Hashing, fs: Storage, run: seq<Event>, e: Event)
    requires Valid(h, fs, run) && Enabled(h, Exec(h, fs, run), e)
    ensures Valid(h, fs, run + [e]) && Exec(h, fs, run + [e]) == Apply(h, Exec(h, fs, run), e)
  {
    assert (run + [e])[..|run + [e]| - 1] == run;
  }

  // ------------------------------------------------------------------- names

  lemma DataNames(fid: string)
    ensures IsBlockName(FileName(fid)) <==> Atoi(fid).Some?
    ensures !IsBlockName(TreeName(fid))
    ensures FileName(fid) != TreeName(fid)
  {
    var f, t := FileName(fid), TreeName(fid);
    assert f[|f| - 4..] == ".jkl" && f[..|f| - 4] == fid;
    assert t[|t| - 1] == 'e' && f[|f| - 1] == 'l';
    assert t[|t| - 4..][3] == 'e' && ".jkl"[3] == 'l';
  }

  /** The names taken for those of blocks: what stands before ".jkl" is read as a number. */
  lemma IsBlockNameIs(name: string)
    ensures IsBlockName(name) <==> exists s: string :: name == s + ".jkl" && Atoi(s).Some?
  {
    if IsBlockName(name) {
      assert name == name[..|name| - 4] + ".jkl";
    }
    if s: string :| name == s + ".jkl" && Atoi(s).Some? {
      assert name[..|name| - 4] == s && name[|name| - 4..] == ".jkl";
    }
  }

  /** The name of block `i` is recognised as a block name, and read back as `i`. */
  lemma BlockNameCodec(i: nat)
    requires i <= INT64_MAX
    ensures IsBlockName(BlockFileName(i))
    ensures Atoi(BlockFileName(i)[..|BlockFileName(i)| - 4]) == Some(i)
  {
    var name := BlockFileName(i);
    assert name[|name| - 4..] == ".jkl" && name[..|name| - 4] == Decimal(i);
    AtoiDecimal(i);
  }

  lemma BlockNameInjective(i: nat, j: nat)
    requires BlockFileName(i) == BlockFileName(j)
    ensures i == j
  {
    var s, t := BlockFileName(i), BlockFileName(j);
    assert s[..|s| - 4] == Decimal(i) && t[..|t| - 4] == Decimal(j);
    DecimalInjective(i, j);
  }

  function CorruptedName(fid: string, k: nat): string {
    if k == 0 then fid else CORRUPT_PREFIX + CorruptedName(fid, k - 1)
  }

  lemma CorruptedNotNumeric(name: string)
    ensures Atoi("corrupted-" + name).None?
  {
    var s := CORRUPT_PREFIX + name;
    assert s[0] == 'c';
    NotDigits(s);
  }

  lemma {:induction false} NotDigits(s: string)
    requires s != "" && DigitValue(s[0]).None?
    ensures ParseDigits(s).None?
  {
    if |s| > 1 {
      NotDigits(s[..|s| - 1]);
    }
  }

  // --------------------------------------------------------- no data is lost

  /** The block files that a directory holds. */
  function BlocksOf(dir: Dir): map<string, Bytes> {
    map n | n in dir.files && IsBlockName(n) :: dir.files[n]
  }

  predicate HoldsBlocks(dir: Dir, blocks: map<string, Bytes>) {
    forall n :: n in blocks ==> n in dir.files && dir.files[n] == blocks[n]
  }

  /** Under its name or a `corrupted-` rename of it, a directory still holds all
      the blocks, or a glued file that matches its stored tree. */
  predicate KeptAs(h: Hashing, fs: Storage, name: string, blocks: map<string, Bytes>) {
    name in fs.dirs && (HoldsBlocks(fs.dirs[name], blocks) || GluedMatches(h, fs.dirs[name], name))
  }

  predicate Inv(h: Hashing, s: State, d: string, blocks: map<string, Bytes>) {
    && d in s.fs.dirs && Atoi(d).None?
    && (HoldsBlocks(s.fs.dirs[d], blocks) ||
        (GluedMatches(h, s.fs.dirs[d], d) && TreeName(d) !in s.fs.trees))
    && match s.phase
       case Gluing(fid, _, _, _, _) => fid == d ==> HoldsBlocks(s.fs.dirs[d], blocks)
       case Checking(fid, _) => fid == d ==> TreeName(d) !in s.fs.trees
       case Cleaning(fid, names, _) =>
         fid == d ==> GluedMatches(h, s.fs.dirs[d], d) && TreeName(d) !in s.fs.trees &&
                      forall n :: n in names ==> IsBlockName(n)
       case _ => true
  }

  lemma WriteGluedKeeps(h: Hashing, s: State, d: string, blocks: map<string, Bytes>, fid: string, content: Bytes)
    requires Inv(h, s, d, blocks) && fid in s.fs.dirs
    requires fid == d ==> HoldsBlocks(s.fs.dirs[d], blocks)
    requires forall n :: n in blocks ==> IsBlockName(n)
    ensures var fs' := WithFile(s.fs, fid, FileName(fid), content);
            && d in fs'.dirs && fs'.trees == s.fs.trees
            && (fid != d ==> fs'.dirs[d] == s.fs.dirs[d])
            && (fid == d ==> HoldsBlocks(fs'.dirs[d], blocks))
  {
    DataNames(d);
  }

  lemma GlueStep(h: Hashing, s: State, d: string, blocks: map<string, Bytes>)
    requires Inv(h, s, d, blocks) && s.phase.Gluing?
    requires forall n :: n in blocks ==> IsBlockName(n)
    ensures Inv(h, GlueMore(s), d, blocks)
  {
    var Gluing(fid, i, offset, count, rest) := s.phase;
    if fid in s.fs.dirs && FileName(fid) in s.fs.dirs[fid].files && BlockFileName(i) in s.fs.dirs[fid].files {
      var block := s.fs.dirs[fid].files[BlockFileName(i)];
      if offset < |block| {
        WriteGluedKeeps(h, s, d, blocks, fid, s.fs.dirs[fid].files[FileName(fid)] + [block[offset]]);
      }
    }
  }

  lemma BeginStep(h: Hashing, s: State, d: string, blocks: map<string, Bytes>, fid: string, rest: seq<string>)
    requires Inv(h, s, d, blocks)
    requires forall n :: n in blocks ==> IsBlockName(n)
    ensures Inv(h, BeginDir(s.fs, fid, rest), d, blocks)
  {
    if fid in s.fs.dirs && FileName(fid) !in s.fs.dirs[fid].files {
      WriteGluedKeeps(h, s, d, blocks, fid, []);
    }
  }

  lemma MoveStep(h: Hashing, s: State, d: string, blocks: map<string, Bytes>)
    requires Inv(h, s, d, blocks) && s.phase.MovingTree?
    requires forall n :: n in blocks ==> IsBlockName(n)
    ensures Inv(h, Advanced(h, s), d, blocks)
  {
    DataNames(d);
    DataNames(s.phase.fid);
    if TreeName(s.phase.fid) == TreeName(d) {
      TreeNameInjective(s.phase.fid, d);
    }
  }

  lemma TreeNameInjective(a: string, b: string)
    requires TreeName(a) == TreeName(b)
    ensures a == b
  {
    assert a == TreeName(a)[..|TreeName(a)| - 5] && b == TreeName(b)[..|TreeName(b)| - 5];
  }

  /** A failed check renames only a directory that still holds its blocks. */
  lemma CheckStep(h: Hashing, s: State, d: string, blocks: map<string, Bytes>)
    requires Inv(h, s, d, blocks) && s.phase.Checking?
    ensures Inv(h, Advanced(h, s), d, blocks) || Inv(h, Advanced(h, s), "corrupted-" + d, blocks)
  {
    CorruptedNotNumeric(d);
    if !Passes(h, s.fs, s.phase.fid) && s.phase.fid == d {
      assert CORRUPT_PREFIX + d != d;
    }
  }

  lemma CleanStep(h: Hashing, s: State, d: string, blocks: map<string, Bytes>)
    requires Inv(h, s, d, blocks) && s.phase.Cleaning?
    ensures Inv(h, Advanced(h, s), d, blocks)
  {
    DataNames(d);
    var names := s.phase.names;
    if names != [] {
      assert names == [names[0]] + names[1..];
    }
  }

  lemma StepKeeps(h: Hashing, s: State, e: Event, d: string, blocks: map<string, Bytes>)
    requires Inv(h, s, d, blocks) && Enabled(h, s, e)
    requires forall n :: n in blocks ==> IsBlockName(n)
    ensures Inv(h, Apply(h, s, e), d, blocks) || Inv(h, Apply(h, s, e), "corrupted-" + d, blocks)
  {
    if e.Advance? {
      match s.phase
      case Looping(rest) => if rest != [] { BeginStep(h, s, d, blocks, rest[0], rest[1..]); }
      case Gluing(_, _, _, _, _) => GlueStep(h, s, d, blocks);
      case MovingTree(_, _) => MoveStep(h, s, d, blocks);
      case Checking(_, _) => CheckStep(h, s, d, blocks);
      case Cleaning(_, _, _) => CleanStep(h, s, d, blocks);
    }
  }

  lemma LastStep(h: Hashing, fs: Storage, run: seq<Event>)
    requires Valid(h, fs, run) && run != []
    ensures var front, e := run[..|run| - 1], run[|run| - 1];
            && Valid(h, fs, front) && Enabled(h, Exec(h, fs, front), e)
            && Exec(h, fs, run) == Apply(h, Exec(h, fs, front), e)
  {
  }

  lemma InitiallyKept(h: Hashing, fs: Storage, fid: string)
    requires fid in fs.dirs && Atoi(fid).None?
    ensures Exec(h, fs, []) == State(fs, Idle)
    ensures Inv(h, State(fs, Idle), CorruptedName(fid, 0), BlocksOf(fs.dirs[fid]))
  {
  }

  lemma CorruptedAgain(fid: string, k: nat)
    ensures CorruptedName(fid, 0) == fid && CorruptedName(fid, k + 1) == "corrupted-" + CorruptedName(fid, k)
  {
  }

  lemma BlocksOfNames(dir: Dir)
    ensures forall n :: n in BlocksOf(dir) ==> IsBlockName(n)
  {
  }

  lemma {:induction false} AlwaysKept(h: Hashing, fs: Storage, run: seq<Event>, fid: string) returns (k: nat)
    requires Valid(h, fs, run) && fid in fs.dirs && Atoi(fid).None?
    ensures Inv(h, Exec(h, fs, run), CorruptedName(fid, k), BlocksOf(fs.dirs[fid]))
  {
    hide *;
    if run == [] {
      InitiallyKept(h, fs, fid);
      k := 0;
    } else {
      LastStep(h, fs, run);
      var front, blocks := run[..|run| - 1], BlocksOf(fs.dirs[fid]);
      k := AlwaysKept(h, fs, front, fid);
      BlocksOfNames(fs.dirs[fid]);
      StepKeeps(h, Exec(h, fs, front), run[|run| - 1], CorruptedName(fid, k), blocks);
      if !Inv(h, Exec(h, fs, run), CorruptedName(fid, k), blocks) {
        CorruptedAgain(fid, k);
        k := k + 1;
      }
    }
  }

  /** However often migration is run, stopped at any operation and run again,
      every directory whose name is not a number still has all its original
      blocks, or a glued file whose root equals the root in its stored tree. */
  lemma NoDataLost(h: Hashing, fs: Storage, run: seq<Event>, fid: string)
    requires Valid(h, fs, run) && fid in fs.dirs && Atoi(fid).None?
    ensures exists k: nat :: KeptAs(h, Exec(h, fs, run).fs, CorruptedName(fid, k), BlocksOf(fs.dirs[fid]))
  {
    var k := AlwaysKept(h, fs, run, fid);
    assert KeptAs(h, Exec(h, fs, run).fs, CorruptedName(fid, k), BlocksOf(fs.dirs[fid]));
  }

  // ---------------------------------------------------------- directories of one file

  /** A directory in the new layout: a glued file that matches its tree. */
  predicate Whole(h: Hashing, s: State, d: string) {
    && d in s.fs.dirs && GluedMatches(h, s.fs.dirs[d], d) && TreeName(d) !in s.fs.trees
    && match s.phase
       case Gluing(fid, _, _, _, _) => fid != d
       case Cleaning(_, names, _) => forall n :: n in names ==> IsBlockName(n)
       case _ => true
  }

  lemma StepKeepsWhole(h: Hashing, s: State, e: Event, d: string)
    requires Whole(h, s, d) && Enabled(h, s, e) && Atoi(d).None?
    ensures Whole(h, Apply(h, s, e), d)
    ensures Apply(h, s, e).fs.dirs[d].files[FileName(d)] == s.fs.dirs[d].files[FileName(d)]
    ensures Apply(h, s, e).fs.dirs[d].files[TreeName(d)] == s.fs.dirs[d].files[TreeName(d)]
  {
    hide IsBlockName;
    DataNames(d);
    if e.Advance? {
      match s.phase
      case MovingTree(fid, _) =>
        if TreeName(fid) == TreeName(d) {
          TreeNameInjective(fid, d);
        }
      case Cleaning(_, names, _) =>
        if names != [] {
          assert names[0] in names && forall n :: n in names[1..] ==> n in names;
        }
      case _ =>
    }
  }

  /** Whatever the history, a directory that is already in the new layout keeps its
      name, its file and its tree. */
  lemma {:induction false} WholeStaysWhole(h: Hashing, fs: Storage, run: seq<Event>, d: string)
    requires Valid(h, fs, run) && Atoi(d).None?
    requires d in fs.dirs && GluedMatches(h, fs.dirs[d], d) && TreeName(d) !in fs.trees
    ensures Whole(h, Exec(h, fs, run), d)
    ensures var now := Exec(h, fs, run).fs.dirs[d].files;
            && now[FileName(d)] == fs.dirs[d].files[FileName(d)]
            && now[TreeName(d)] == fs.dirs[d].files[TreeName(d)]
  {
    hide Apply, Enabled;
    if run != [] {
      LastStep(h, fs, run);
      WholeStaysWhole(h, fs, run[..|run| - 1], d);
      StepKeepsWhole(h, Exec(h, fs, run[..|run| - 1]), run[|run| - 1], d);
    }
  }

  /** Cleaning removes every name that looks like a block; it spares the glued
      file exactly when the directory's name is not a number. */
  lemma CleaningSparesGlued(h: Hashing, dir: Dir, fid: string)
    ensures var cleaned := dir.(files := dir.files - BlockNames(dir));
            GluedMatches(h, cleaned, fid) <==> GluedMatches(h, dir, fid) && Atoi(fid).None?
  {
    DataNames(fid);
  }
}
