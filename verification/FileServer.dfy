/** The file server's storage operations, in the order in which the code writes.
    A ghost run records the steps taken, so that every operation is an instance
    of the interleaved machine and inherits its invariants. */
module FileServer {
  import opened Wrappers
  import opened Collections
  import opened ContractIndex
  import opened DealState
  import opened ShiftMachine
  import opened Recollection
  import ActiveDeals

  class DowntimeDB {
    var db: map<string, int>

    constructor ()
      ensures db == map[]
    {
      db := map[];
    }

    method Get(cid: string) returns (r: Result<int, IndexError>)
      ensures r == if cid in db then Success(db[cid]) else Failure(ContractNotFound)
    {
      if cid !in db {
        return Failure(ContractNotFound);
      }
      r := Success(db[cid]);
    }

    method Set(cid: string, misses: int)
      modifies this
      ensures db == old(db)[cid := misses]
    {
      db := db[cid := misses];
    }

    method Delete(cid: string)
      modifies this
      ensures db == old(db) - {cid}
    {
      db := db - {cid};
    }

    /** The entries an iterator returns; their order is left open. */
    method Entries() returns (entries: seq<Entry>)
      ensures Snapshot(db, entries)
    {
      entries := [];
      var left := db.Keys;
      while left != {}
        invariant left <= db.Keys
        invariant forall e :: e in entries ==> e.cid in db && e.cid !in left && e == Entry(e.cid, db[e.cid])
        invariant forall c :: c in db && c !in left ==> Entry(c, db[c]) in entries
        invariant forall i, j :: 0 <= i < j < |entries| ==> entries[i].cid != entries[j].cid
        decreases left
      {
        var c :| c in left;
        forall i | 0 <= i < |entries| ensures entries[i].cid != c {
          assert entries[i] in entries;
        }
        entries := entries + [Entry(c, db[c])];
        left := left - {c};
      }
    }
  }

  /** The contracts that one clean pass purges. */
  function OverLimit(max: int, downtime: map<string, int>): set<string> {
    set c | c in downtime && downtime[c] > max
  }

  /** The files that lose their last contract when `gone` are deleted. */
  function Orphaned(contracts: map<string, string>, gone: set<string>): set<string> {
    set c | c in contracts && c in gone && !Referenced(contracts - gone, contracts[c]) :: contracts[c]
  }

  // ----------------------------------------------- the clean pass, entry by entry

  function Gone(max: int, entries: seq<Entry>, i: nat): set<string>
    requires i <= |entries|
  {
    set j | 0 <= j < i && entries[j].misses > max :: entries[j].cid
  }

  /** The state when `gone` have been purged and `todo` are left. */
  function Cleaned(start: State, gone: set<string>, todo: seq<Entry>): State {
    start.(contracts := start.contracts - gone, downtime := start.downtime - gone,
           dirs := start.dirs - Orphaned(start.contracts, gone), phase := Cleaning(todo))
  }

  lemma CleanedMeans(start: State, gone: set<string>)
    ensures var s := Cleaned(start, gone, []);
            && s.contracts == start.contracts - gone && s.downtime == start.downtime - gone
            && s.dirs == start.dirs - Orphaned(start.contracts, gone)
  {
  }

  lemma OrphanedOne(contracts: map<string, string>, c: string)
    requires c in contracts
    ensures Orphaned(contracts, {c}) ==
            if Referenced(contracts - {c}, contracts[c]) then {} else {contracts[c]}
  {
  }

  lemma OrphanedGrows(contracts: map<string, string>, gone: set<string>, c: string)
    requires c in contracts && c !in gone
    ensures Orphaned(contracts, gone + {c}) == Orphaned(contracts, gone) + Orphaned(contracts - gone, {c})
  {
    var rest := contracts - gone;
    OrphanedOne(rest, c);
    assert contracts - (gone + {c}) == rest - {c};
    forall f ensures f in Orphaned(contracts, gone + {c}) <==>
                     f in Orphaned(contracts, gone) + Orphaned(rest, {c})
    {
      assert Referenced(rest, f) <==> Referenced(rest - {c}, f) || contracts[c] == f by {
        if Referenced(rest, f) {
          var d :| d in rest && rest[d] == f;
          assert d != c ==> d in rest - {c} && (rest - {c})[d] == f;
        }
        if Referenced(rest - {c}, f) {
          var d :| d in rest - {c} && (rest - {c})[d] == f;
          assert rest[d] == f;
        }
        assert rest[c] == contracts[c];
      }
    }
  }

  lemma CleanedOneMore(start: State, max: int, entries: seq<Entry>, i: nat)
    requires i < |entries| && Snapshot(start.downtime, entries)
    requires entries[i].misses > max ==> entries[i].cid in start.contracts
    ensures entries[i..] == [entries[i]] + entries[i + 1..]
    ensures entries[i].cid !in Gone(max, entries, i)
    ensures var gone, c := Gone(max, entries, i), entries[i].cid;
            Cleaned(start, Gone(max, entries, i + 1), entries[i + 1..]) ==
            if entries[i].misses <= max then Cleaned(start, gone, entries[i + 1..])
            else PurgedFrom(Cleaned(start, gone, entries[i..]), c, entries[i + 1..])
  {
    var gone, c := Gone(max, entries, i), entries[i].cid;
    if entries[i].misses > max {
      assert Gone(max, entries, i + 1) == gone + {c};
      OrphanedGrows(start.contracts, gone, c);
      assert start.contracts - (gone + {c}) == start.contracts - gone - {c};
      assert start.downtime - (gone + {c}) == start.downtime - gone - {c};
    } else {
      assert Gone(max, entries, i + 1) == gone;
    }
  }

  /** Some of the contracts over the limit have been purged. */
  ghost predicate PartlyCleaned(max: int, start: State, s: State) {
    exists gone :: gone <= OverLimit(max, start.downtime) && s == Cleaned(start, gone, []).(phase := Idle)
  }

  lemma CleanPassPartial(start: State, max: int, entries: seq<Entry>, i: nat)
    requires i <= |entries| && Snapshot(start.downtime, entries)
    requires forall j :: 0 <= j < i && entries[j].misses > max ==> entries[j].cid in start.contracts
    ensures PartlyCleaned(max, start, CleanPass(start, max, entries, i).(phase := Idle))
  {
    CleanPassState(start, max, entries, i);
    hide Cleaned, CleanPass;
    var gone := Gone(max, entries, i);
    forall c | c in gone ensures c in OverLimit(max, start.downtime) {
      var j :| 0 <= j < i && entries[j].misses > max && entries[j].cid == c;
      assert entries[j] in entries;
    }
    CleanedPhase(start, gone, entries[i..]);
  }

  lemma CleanedPhase(start: State, gone: set<string>, todo: seq<Entry>)
    ensures Cleaned(start, gone, todo).(phase := Idle) == Cleaned(start, gone, []).(phase := Idle)
  {
  }

  /** A state after one more contract has been purged. */
  function PurgedFrom(s: State, c: string, todo: seq<Entry>): State {
    s.(contracts := s.contracts - {c}, downtime := s.downtime - {c},
       dirs := s.dirs - Orphaned(s.contracts, {c}), phase := Cleaning(todo))
  }

  /** The state when the first `i` entries of a clean pass are done. */
  function CleanPass(start: State, max: int, entries: seq<Entry>, i: nat): State
    requires i <= |entries|
  {
    if i == 0 then start.(phase := Cleaning(entries))
    else
      var s, e := CleanPass(start, max, entries, i - 1), entries[i - 1];
      if e.misses > max then PurgedFrom(s, e.cid, entries[i..]) else s.(phase := Cleaning(entries[i..]))
  }

  lemma CleanPassTodo(start: State, max: int, entries: seq<Entry>, i: nat)
    requires i < |entries|
    ensures CleanPass(start, max, entries, i).phase == Cleaning(entries[i..])
    ensures entries[i..][0] == entries[i] && entries[i..][1..] == entries[i + 1..]
    ensures entries[i] in entries
    ensures CleanPass(start, max, entries, i).contracts.Keys <= start.contracts.Keys
  {
    if i > 0 {
      CleanPassTodo(start, max, entries, i - 1);
    } else {
      assert entries[0..] == entries;
    }
  }

  lemma CleanPassStep(start: State, max: int, entries: seq<Entry>, i: nat)
    requires i < |entries|
    ensures var s, e := CleanPass(start, max, entries, i), entries[i];
            CleanPass(start, max, entries, i + 1) ==
            if e.misses > max then PurgedFrom(s, e.cid, entries[i + 1..]) else s.(phase := Cleaning(entries[i + 1..]))
  {
  }

  lemma {:induction false} CleanPassState(start: State, max: int, entries: seq<Entry>, i: nat)
    requires i <= |entries| && Snapshot(start.downtime, entries)
    requires forall j :: 0 <= j < i && entries[j].misses > max ==> entries[j].cid in start.contracts
    ensures CleanPass(start, max, entries, i) == Cleaned(start, Gone(max, entries, i), entries[i..])
  {
    if i == 0 {
      assert Gone(max, entries, 0) == {} && entries[0..] == entries;
      assert Orphaned(start.contracts, {}) == {};
    } else {
      CleanPassState(start, max, entries, i - 1);
      CleanedOneMore(start, max, entries, i - 1);
    }
  }

  /** A whole pass purges exactly the contracts over the limit. */
  lemma CleanPassPurges(start: State, max: int, entries: seq<Entry>)
    requires Snapshot(start.downtime, entries)
    requires forall j :: 0 <= j < |entries| && entries[j].misses > max ==> entries[j].cid in start.contracts
    ensures CleanPass(start, max, entries, |entries|) == Cleaned(start, OverLimit(max, start.downtime), [])
  {
    CleanPassState(start, max, entries, |entries|);
    assert entries[|entries|..] == [];
    assert Gone(max, entries, |entries|) == OverLimit(max, start.downtime) by {
      forall c | c in OverLimit(max, start.downtime) ensures c in Gone(max, entries, |entries|) {
        assert Entry(c, start.downtime[c]) in entries;
      }
    }
  }

  /** The writes of one purge, in order. */
  function PurgeSteps(contracts: map<string, string>, c: string): seq<Event>
    requires c in contracts
  {
    [DropDowntime(c), DropContract(c)] +
    if Referenced(contracts - {c}, contracts[c]) then [] else [DeleteDir(contracts[c])]
  }

  /** A contract that the clean pass takes up next, over the limit. */
  predicate Expired(max: int, s: State, c: string) {
    s.phase.Cleaning? && s.phase.todo != [] && s.phase.todo[0].cid == c && s.phase.todo[0].misses > max
  }

  // ------------------------------------------------------- the visits, key by key

  function ContractKeys(keys: seq<string>): (cids: seq<string>)
    ensures forall c :: c in cids <==> c in keys && !HasFidPrefix(c)
  {
    if keys == [] then []
    else if HasFidPrefix(keys[0]) then ContractKeys(keys[1..])
    else [keys[0]] + ContractKeys(keys[1..])
  }

  lemma {:induction false} ContractKeysDistinct(keys: seq<string>)
    requires Distinct(keys)
    ensures Distinct(ContractKeys(keys))
  {
    if keys != [] {
      ContractKeysDistinct(keys[1..]);
      var rest := ContractKeys(keys[1..]);
      forall j | 0 <= j < |rest| ensures rest[j] != keys[0] {
        assert rest[j] in rest;
      }
    }
  }

  function EntryAt(downtime: map<string, int>, c: string): Option<int> {
    if c in downtime then Some(downtime[c]) else None
  }

  /** A downtime entry after a visit with a given outcome. */
  function VisitedEntry(entry: Option<int>, status: Status): Option<int> {
    match status
    case NotFound => Some(1 + if entry.Some? then entry.value else 0)
    case QueryError => entry
    case _ => None
  }

  /** The steps of one visit: after NotFound, the counter is read and written. */
  function VisitEvents(c: string, status: Status): seq<Event> {
    if status.NotFound? then [Visit(c, status), Mark(c)] else [Visit(c, status)]
  }

  function AfterVisitOf(s: State, c: string, status: Status): State {
    var visited := Apply(s, Visit(c, status));
    if status.NotFound? then Apply(visited, Mark(c)) else visited
  }

  /** The state when the first `i` keys of a visiting pass are done. */
  function VisitPass(start: State, replies: string -> Reply, keys: seq<string>, i: nat): State
    requires i <= |keys|
  {
    if i == 0 then start.(phase := Visiting(ContractKeys(keys)))
    else
      var s, k := VisitPass(start, replies, keys, i - 1), keys[i - 1];
      if HasFidPrefix(k) then s
      else AfterVisitOf(s, k, ContractState(replies(k)))
  }

  lemma VisitPassStep(start: State, replies: string -> Reply, keys: seq<string>, i: nat)
    requires i < |keys|
    ensures VisitPass(start, replies, keys, i + 1) ==
            if HasFidPrefix(keys[i]) then VisitPass(start, replies, keys, i)
            else AfterVisitOf(VisitPass(start, replies, keys, i), keys[i], ContractState(replies(keys[i])))
  {
  }

  /** Only the downtime entries and the remaining list change. */
  lemma {:induction false} VisitPassTodo(start: State, replies: string -> Reply, keys: seq<string>, i: nat)
    requires i <= |keys|
    ensures var s := VisitPass(start, replies, keys, i);
            s == start.(downtime := s.downtime, phase := Visiting(ContractKeys(keys[i..])))
  {
    hide *;
    if i > 0 {
      VisitPassTodo(start, replies, keys, i - 1);
      VisitPassStep(start, replies, keys, i - 1);
      ContractKeysStep(keys, i - 1);
      if !HasFidPrefix(keys[i - 1]) {
        VisitKeepsRest(start, VisitPass(start, replies, keys, i - 1), keys[i - 1],
                       ContractState(replies(keys[i - 1])), ContractKeys(keys[i..]));
      }
    } else {
      VisitPassNone(start, replies, keys);
    }
  }

  lemma VisitPassNone(start: State, replies: string -> Reply, keys: seq<string>)
    ensures VisitPass(start, replies, keys, 0) == start.(phase := Visiting(ContractKeys(keys[0..])))
  {
    assert keys[0..] == keys;
  }

  lemma VisitKeepsRest(start: State, s: State, k: string, status: Status, rest: seq<string>)
    requires s == start.(downtime := s.downtime, phase := Visiting([k] + rest))
    ensures var s' := AfterVisitOf(s, k, status); s' == start.(downtime := s'.downtime, phase := Visiting(rest))
  {
    assert ([k] + rest)[1..] == rest;
  }

  lemma ContractKeysStep(keys: seq<string>, i: nat)
    requires i < |keys|
    ensures ContractKeys(keys[i..]) ==
            if HasFidPrefix(keys[i]) then ContractKeys(keys[i + 1..]) else [keys[i]] + ContractKeys(keys[i + 1..])
  {
    assert keys[i..][1..] == keys[i + 1..];
  }

  lemma TakeOneMore(keys: seq<string>, i: nat, c: string)
    requires i < |keys| && Distinct(keys)
    ensures c in keys[..i + 1] <==> c in keys[..i] || c == keys[i]
    ensures keys[i] !in keys[..i]
  {
    assert keys[..i + 1] == keys[..i] + [keys[i]];
  }

  /** Each contract visited so far has its entry changed once, by its own reply. */
  lemma {:induction false} VisitPassEntries(
      start: State, replies: string -> Reply, keys: seq<string>, i: nat, c: string)
    requires i <= |keys| && Distinct(keys)
    ensures var entry := EntryAt(start.downtime, c);
            EntryAt(VisitPass(start, replies, keys, i).downtime, c) ==
            if c in keys[..i] && !HasFidPrefix(c) then VisitedEntry(entry, ContractState(replies(c))) else entry
  {
    hide *;
    if i > 0 {
      VisitPassEntries(start, replies, keys, i - 1, c);
      TakeOneMore(keys, i - 1, c);
      VisitPassNext(start, replies, keys, i - 1, c);
    } else {
      VisitPassNone(start, replies, keys);
      assert keys[..0] == [];
    }
  }

  lemma VisitPassNext(start: State, replies: string -> Reply, keys: seq<string>, i: nat, c: string)
    requires i < |keys|
    ensures var entry := EntryAt(VisitPass(start, replies, keys, i).downtime, c);
            EntryAt(VisitPass(start, replies, keys, i + 1).downtime, c) ==
            if c == keys[i] && !HasFidPrefix(c) then VisitedEntry(entry, ContractState(replies(c))) else entry
  {
    hide *;
    VisitPassTodo(start, replies, keys, i);
    VisitPassStep(start, replies, keys, i);
    ContractKeysStep(keys, i);
    VisitChangesOwnEntry(VisitPass(start, replies, keys, i), keys[i], ContractState(replies(keys[i])), c);
  }

  lemma VisitChangesOwnEntry(s: State, k: string, status: Status, c: string)
    ensures s.phase.Visiting? && s.phase.cids != [] ==>
            EntryAt(AfterVisitOf(s, k, status).downtime, c) ==
            if c == k then VisitedEntry(EntryAt(s.downtime, c), status) else EntryAt(s.downtime, c)
  {
  }

  /** What a visiting pass makes of the downtime entries. */
  ghost predicate Visited(before: map<string, int>, after: map<string, int>,
                          contracts: map<string, string>, replies: string -> Reply) {
    forall c :: EntryAt(after, c) ==
      if c in contracts then VisitedEntry(EntryAt(before, c), ContractState(replies(c)))
      else EntryAt(before, c)
  }

  lemma VisitPassVisits(start: State, replies: string -> Reply, keys: seq<string>, db: Store)
    requires Enumerates(keys, db.Keys)
    ensures Visited(start.downtime, VisitPass(start, replies, keys, |keys|).downtime, Contracts(db), replies)
    ensures VisitPass(start, replies, keys, |keys|) ==
            start.(downtime := VisitPass(start, replies, keys, |keys|).downtime, phase := Visiting([]))
  {
    VisitPassTodo(start, replies, keys, |keys|);
    assert keys[|keys|..] == [] && keys[..|keys|] == keys;
    forall c
      ensures EntryAt(VisitPass(start, replies, keys, |keys|).downtime, c) ==
              if c in Contracts(db) then VisitedEntry(EntryAt(start.downtime, c), ContractState(replies(c)))
              else EntryAt(start.downtime, c)
    {
      VisitPassEntries(start, replies, keys, |keys|, c);
    }
  }

  // ------------------------------------------ what a shift does, in terms of stored keys

  /** The flag texts that say yes or no. */
  const FLAG_TEXTS := ["1", "t", "T", "TRUE", "true", "True", "0", "f", "F", "FALSE", "false", "False"]

  lemma WithoutContracts(before: Store, after: Store, gone: set<string>)
    requires Contracts(after) == Contracts(before) - gone
    ensures forall c :: !("jklf" <= c) ==> (c in after <==> c in before && c !in gone)
    ensures forall c :: c in after && !("jklf" <= c) ==> c in before && after[c] == before[c]
  {
    forall c ensures !("jklf" <= c) ==> (c in after <==> c in before && c !in gone)
             ensures c in after && !("jklf" <= c) ==> c in before && after[c] == before[c]
    {
      ContractsAre(before, c);
      ContractsAre(after, c);
    }
  }

  lemma OrphansAre(db: Store, gone: set<string>)
    ensures forall d :: d in Orphaned(Contracts(db), gone) <==>
              && (exists c :: c in db && !("jklf" <= c) && c in gone && db[c] == d)
              && !exists c :: c in db && !("jklf" <= c) && c !in gone && db[c] == d
  {
    var contracts := Contracts(db);
    forall c ensures c in contracts <==> c in db && !("jklf" <= c)
             ensures c in contracts ==> contracts[c] == db[c]
    {
      ContractsAre(db, c);
    }
    hide Contracts;
    forall d ensures Referenced(contracts - gone, d) <==>
                     exists c :: c in db && !("jklf" <= c) && c !in gone && db[c] == d
    {
      if Referenced(contracts - gone, d) {
        var c :| c in contracts - gone && (contracts - gone)[c] == d;
        assert c in db && db[c] == d;
      }
      if c :| c in db && !("jklf" <= c) && c !in gone && db[c] == d {
        assert c in contracts - gone && (contracts - gone)[c] == d;
      }
    }
    hide Referenced;
    forall d | exists c :: c in db && !("jklf" <= c) && c in gone && db[c] == d
      ensures !Referenced(contracts - gone, d) ==> d in Orphaned(contracts, gone)
    {
      var c :| c in db && !("jklf" <= c) && c in gone && db[c] == d;
      assert c in contracts && contracts[c] == d;
    }
  }

  /** What a purge of some contracts leaves of contracts and directories. */
  lemma PurgedMeans(before: Store, after: Store, gone: set<string>, dirsBefore: set<string>, dirs: set<string>)
    requires Contracts(after) == Contracts(before) - gone
    requires dirs == dirsBefore - Orphaned(Contracts(before), gone)
    ensures forall c :: !("jklf" <= c) ==> (c in after <==> c in before && c !in gone)
    ensures forall c :: c in after && !("jklf" <= c) ==> c in before && after[c] == before[c]
    ensures forall d :: d in dirs <==>
              && d in dirsBefore
              && ((exists c :: c in after && !("jklf" <= c) && after[c] == d) ||
                  !exists c :: c in before && !("jklf" <= c) && before[c] == d)
  {
    WithoutContracts(before, after, gone);
    OrphansAre(before, gone);
    hide Contracts, Orphaned;
    forall d ensures d in dirs <==>
                       && d in dirsBefore
                       && ((exists c :: c in after && !("jklf" <= c) && after[c] == d) ||
                           !exists c :: c in before && !("jklf" <= c) && before[c] == d)
    {
      if c :| c in after && !("jklf" <= c) && after[c] == d {
        assert c in before && before[c] == d;
      }
      if c :| c in before && !("jklf" <= c) && c !in gone && before[c] == d {
        assert c in after && after[c] == d;
      }
    }
  }

  /** What the purge of one contract leaves of contracts and directories. */
  lemma PurgedPlainly(before: Store, after: Store, cid: string, dirsBefore: set<string>, dirs: set<string>)
    requires cid in Contracts(before) && Contracts(after) == Contracts(before) - {cid}
    requires dirs == dirsBefore - Orphaned(Contracts(before), {cid})
    ensures forall c :: !("jklf" <= c) ==> (c in after <==> c in before && c != cid)
    ensures forall c :: c in after && !("jklf" <= c) ==> after[c] == before[c]
    ensures cid in before
    ensures dirs == if exists c :: c in after && !("jklf" <= c) && after[c] == before[cid]
                    then dirsBefore else dirsBefore - {before[cid]}
  {
    WithoutContracts(before, after, {cid});
    ContractsAre(before, cid);
    OrphanedOne(Contracts(before), cid);
    var rest := Contracts(before) - {cid};
    if Referenced(rest, before[cid]) {
      var c :| c in rest && rest[c] == before[cid];
      ContractsAre(after, c);
    }
    if c :| c in after && !("jklf" <= c) && after[c] == before[cid] {
      ContractsAre(after, c);
      assert rest[c] == before[cid];
    }
  }

  /** What a clean pass leaves of contracts, directories and counters. */
  lemma CleanedPlainly(before: Store, after: Store, downBefore: map<string, int>, down: map<string, int>,
                       dirsBefore: set<string>, dirs: set<string>, max: int)
    requires Contracts(after) == Contracts(before) - OverLimit(max, downBefore)
    requires down == downBefore - OverLimit(max, downBefore)
    requires dirs == dirsBefore - Orphaned(Contracts(before), OverLimit(max, downBefore))
    ensures forall c :: !("jklf" <= c) ==>
              (c in after <==> c in before && !(c in downBefore && downBefore[c] > max))
    ensures forall c :: c in after && !("jklf" <= c) ==> after[c] == before[c]
    ensures forall d :: d in dirs <==>
              && d in dirsBefore
              && ((exists c :: c in after && !("jklf" <= c) && after[c] == d) ||
                  !exists c :: c in before && !("jklf" <= c) && before[c] == d)
    ensures forall c :: c in down <==> c in downBefore && downBefore[c] <= max
    ensures forall c :: c in down ==> down[c] == downBefore[c]
  {
    PurgedMeans(before, after, OverLimit(max, downBefore), dirsBefore, dirs);
    hide Contracts, Orphaned;
  }

  /** What visits make of the counters, reply by reply. */
  lemma VisitedMeans(before: map<string, int>, after: map<string, int>, db: Store, replies: string -> Reply)
    requires Visited(before, after, Contracts(db), replies)
    ensures forall c | c in db && !("jklf" <= c) && replies(c) == NotFoundCode ::
              c in after && after[c] == 1 + if c in before then before[c] else 0
    ensures forall c | c in db && !("jklf" <= c) && (replies(c) == Deal("true") || replies(c) == Deal("false")) ::
              c !in after
    ensures forall c | c in db && !("jklf" <= c) && replies(c).Deal? && replies(c).proofVerified in FLAG_TEXTS ::
              c !in after
    ensures forall c | c !in db || "jklf" <= c || replies(c) == OtherCode || replies(c) == UnknownError ||
                         (replies(c).Deal? && replies(c).proofVerified !in FLAG_TEXTS) ::
              if c in before then c in after && after[c] == before[c] else c !in after
  {
    forall c
      ensures c in Contracts(db) <==> c in db && !("jklf" <= c)
      ensures EntryAt(after, c) ==
              if c in Contracts(db) then VisitedEntry(EntryAt(before, c), ContractState(replies(c)))
              else EntryAt(before, c)
      ensures replies(c).Deal? ==>
                (ContractState(replies(c)) == QueryError <==> replies(c).proofVerified !in FLAG_TEXTS)
    {
      ContractsAre(db, c);
      if replies(c).Deal? {
        FlagTexts(replies(c).proofVerified);
      }
    }
    hide Contracts, Visited;
  }

  /** The store after inserting each of the deals. */
  function AfterAll(db: Store, deals: seq<Link>): Store {
    if deals == [] then db
    else
      var d := deals[|deals| - 1];
      AfterSet(AfterAll(db, deals[..|deals| - 1]), d.cid, d.fid).0
  }

  predicate Formatted(deals: seq<Link>) {
    forall i :: 0 <= i < |deals| ==> CidFormat(deals[i].cid) && HasFidPrefix(deals[i].fid)
  }

  /** Our deals have ids of the forms that the chain and the provider make. */
  predicate WellFormedIds(listed: seq<ActiveDeals.Deal>, address: string) {
    forall d :: d in listed && d.provider == address ==>
      |d.cid| == 63 && "jklc" <= d.cid && ',' !in d.cid && "jklf" <= d.fid
  }

  lemma WellFormedIsFormatted(listed: seq<ActiveDeals.Deal>, address: string)
    requires WellFormedIds(listed, address)
    ensures Formatted(LinksOf(ActiveDeals.OfProvider(listed, address)))
  {
    var mine := ActiveDeals.OfProvider(listed, address);
    forall i | 0 <= i < |mine| ensures CidFormat(mine[i].cid) && HasFidPrefix(mine[i].fid) {
      assert mine[i] in mine;
      IdFormsAre(mine[i].cid);
      IdFormsAre(mine[i].fid);
    }
  }

  lemma InsertedOwnDeals(before: Store, after: Store, listed: seq<ActiveDeals.Deal>, address: string)
    requires WellFormedIds(listed, address)
    requires var deals := LinksOf(ActiveDeals.OfProvider(listed, address));
             Formatted(deals) ==> Contracts(after) == Recollected(Contracts(before), deals)
    ensures forall cid :: !("jklf" <= cid) ==>
              (cid in after <==>
               cid in before ||
               exists j :: 0 <= j < |listed| && listed[j].provider == address && listed[j].cid == cid)
    ensures forall cid :: cid in before && !("jklf" <= cid) ==> after[cid] == before[cid]
    ensures forall j :: 0 <= j < |listed| && listed[j].provider == address && listed[j].cid !in before &&
              (forall k :: 0 <= k < j ==> !(listed[k].provider == address && listed[k].cid == listed[j].cid))
              ==> listed[j].cid in after && after[listed[j].cid] == listed[j].fid
  {
    WellFormedIsFormatted(listed, address);
    hide Recollected, Formatted, Contracts;
    forall cid | !("jklf" <= cid)
      ensures cid in after <==>
              cid in before ||
              exists j :: 0 <= j < |listed| && listed[j].provider == address && listed[j].cid == cid
      ensures cid in before ==> after[cid] == before[cid]
    {
      RecollectedOwnDeals(Contracts(before), listed, address, cid);
      ContractsAre(before, cid);
      ContractsAre(after, cid);
    }
    forall j | 0 <= j < |listed| && listed[j].provider == address && listed[j].cid !in before &&
        (forall k :: 0 <= k < j ==> !(listed[k].provider == address && listed[k].cid == listed[j].cid))
      ensures listed[j].cid in after && after[listed[j].cid] == listed[j].fid
    {
      var cid := listed[j].cid;
      assert listed[j] in listed;
      RecollectedOwnDeals(Contracts(before), listed, address, cid);
      assert FirstToName(listed, address, cid, j);
      ContractsAre(before, cid);
      ContractsAre(after, cid);
    }
  }

  class FileServer {
    const archivedb: DoubleRefArchiveDB
    const downtimedb: DowntimeDB
    const maxMisses: int
    var dirs: set<string>      // directories under the storage root
    var oldTrees: set<string>  // files <fid>.tree directly under the storage root
    ghost var run: seq<Event>

    ghost predicate Ready()
      reads this, archivedb, downtimedb
    {
      && Consistent(archivedb.db)
      && Valid(maxMisses, run)
      && Exec(run).contracts == Contracts(archivedb.db)
      && Exec(run).downtime == downtimedb.db
      && Exec(run).dirs == dirs
      && (forall k {:trigger HasFidPrefix(k)} :: HasFidPrefix(k) ==> k !in downtimedb.db)
    }

    constructor (maxMisses: int)
      ensures Ready() && Exec(run) == INIT
      ensures fresh(archivedb) && fresh(downtimedb)
    {
      archivedb := new DoubleRefArchiveDB();
      downtimedb := new DowntimeDB();
      this.maxMisses := maxMisses;
      dirs, oldTrees := {}, {};
      run := [];
      EmptyConsistent();
    }

    /** Purging an indexed contract removes its downtime entry, then the contract,
        and then the file's directory if no other contract refers to it.  Purging
        anything else fails and changes nothing. */
    method Purge(cid: string) returns (r: Result<(), IndexError>)
      requires Ready()
      requires cid in Exec(run).contracts ==> Expired(maxMisses, Exec(run), cid)
      modifies this`dirs, this`run, archivedb, downtimedb
      ensures Ready()
      ensures cid in Contracts(old(archivedb.db)) <==> r.Success?
      ensures r.Failure? ==>
                && r.error == (if cid in old(archivedb.db) then KeyNotFound else ContractNotFound)
                && run == old(run) && dirs == old(dirs)
                && archivedb.db == old(archivedb.db) && downtimedb.db == old(downtimedb.db)
      ensures r.Success? ==>
                && run == old(run) + PurgeSteps(Contracts(old(archivedb.db)), cid)
                && Exec(run) == PurgedFrom(old(Exec(run)), cid, old(Exec(run)).phase.todo[1..])
                && Contracts(archivedb.db) == Contracts(old(archivedb.db)) - {cid}
                && downtimedb.db == old(downtimedb.db) - {cid}
                && dirs == old(dirs) - Orphaned(Contracts(old(archivedb.db)), {cid})
      ensures r.Success? ==>
                && (forall c :: !("jklf" <= c) ==> (c in archivedb.db <==> c in old(archivedb.db) && c != cid))
                && (forall c :: c in archivedb.db && !("jklf" <= c) ==> archivedb.db[c] == old(archivedb.db)[c])
                && cid in old(archivedb.db)
                && dirs == if exists c :: c in archivedb.db && !("jklf" <= c) &&
                                          archivedb.db[c] == old(archivedb.db)[cid]
                           then old(dirs) else old(dirs) - {old(archivedb.db)[cid]}
    {
      hide Exec, Valid, Consistent;
      var found := archivedb.GetFid(cid);
      if found.Failure? {
        return Failure(found.error);
      }
      var fid := found.value;
      if cid in Contracts(archivedb.db) {
        OrphanedOne(Contracts(archivedb.db), cid);
      }
      DropDowntimeEntry(cid);
      var deleted := DropContractEntry(cid);
      if deleted.Failure? {
        return Failure(deleted.error);
      }
      if deleted.value {
        DeleteDirectory(fid);
      }
      assert run == old(run) + PurgeSteps(Contracts(old(archivedb.db)), cid);
      r := Success(());
      PurgedPlainly(old(archivedb.db), archivedb.db, cid, old(dirs), dirs);
    }

    /** A purge's first write; of a key that is no contract there is no entry. */
    method DropDowntimeEntry(cid: string)
      requires Ready() && (cid in Exec(run).contracts ==> Expired(maxMisses, Exec(run), cid))
      requires cid in archivedb.db
      modifies this`run, downtimedb
      ensures Ready()
      ensures downtimedb.db == old(downtimedb.db) - {cid}
      ensures cid !in Contracts(archivedb.db) ==> run == old(run) && downtimedb.db == old(downtimedb.db)
      ensures cid in Contracts(archivedb.db) ==>
                && run == old(run) + [DropDowntime(cid)]
                && Exec(run) == Apply(old(Exec(run)), DropDowntime(cid))
    {
      hide Exec, Valid, Consistent;
      downtimedb.Delete(cid);
      if cid in Contracts(archivedb.db) {
        Extend(maxMisses, run, DropDowntime(cid));
        run := run + [DropDowntime(cid)];
      } else {
        assert HasFidPrefix(cid);
        assert downtimedb.db == old(downtimedb.db);
      }
    }

    /** A purge's second write. */
    method DropContractEntry(cid: string) returns (r: Result<bool, IndexError>)
      requires Ready() && cid in archivedb.db
      requires cid in Exec(run).contracts ==> Exec(run).phase.Dropping? && Exec(run).phase.cid == cid
      modifies this`run, archivedb
      ensures Ready()
      ensures r.Failure? <==> cid !in Contracts(old(archivedb.db))
      ensures r.Failure? ==> r.error == KeyNotFound && run == old(run) && archivedb.db == old(archivedb.db)
      ensures r.Success? ==>
                var before := Contracts(old(archivedb.db));
                && Contracts(archivedb.db) == before - {cid}
                && r.value == !Referenced(before - {cid}, before[cid])
                && run == old(run) + [DropContract(cid)]
                && Exec(run) == Apply(old(Exec(run)), DropContract(cid))
    {
      hide Exec, Valid, Consistent;
      if cid in Contracts(archivedb.db) {
        DeleteOnContracts(archivedb.db, cid);
        Extend(maxMisses, run, DropContract(cid));
      } else {
        DeleteOfFileKey(archivedb.db, cid);
      }
      r := archivedb.DeleteContract(cid);
      if r.Success? {
        run := run + [DropContract(cid)];
      }
    }

    /** A purge's last write. */
    method DeleteDirectory(fid: string)
      requires Ready() && Exec(run).phase.Deleting? && Exec(run).phase.fid == fid
      modifies this`dirs, this`run
      ensures Ready() && dirs == old(dirs) - {fid}
      ensures run == old(run) + [DeleteDir(fid)] && Exec(run) == Apply(old(Exec(run)), DeleteDir(fid))
    {
      hide Exec, Valid, Consistent;
      Extend(maxMisses, run, DeleteDir(fid));
      dirs := dirs - {fid};
      run := run + [DeleteDir(fid)];
    }

    /** Purges exactly the contracts over the limit.  It stops early only on an
        entry without a contract, which needs a negative limit; what it has purged
        by then stays purged, and nothing else changes. */
    method CleanExpired() returns (r: Result<(), IndexError>)
      requires Ready() && Exec(run).phase.Idle?
      modifies this`dirs, this`run, archivedb, downtimedb
      ensures Ready() && old(run) <= run
      ensures r.Failure? ==> maxMisses < 0 && PartlyCleaned(maxMisses, old(Exec(run)), Exec(run))
      ensures r.Success? ==>
                Exec(run) == Cleaned(old(Exec(run)), OverLimit(maxMisses, old(downtimedb.db)), [])
      // The contracts over the limit are gone with their counters, and so are the
      // directories that only they referred to.
      ensures r.Success? ==>
                && (forall c :: !("jklf" <= c) ==>
                      (c in archivedb.db <==>
                       c in old(archivedb.db) && !(c in old(downtimedb.db) && old(downtimedb.db)[c] > maxMisses)))
                && (forall c :: c in archivedb.db && !("jklf" <= c) ==> archivedb.db[c] == old(archivedb.db)[c])
                && (forall d :: d in dirs <==>
                      && d in old(dirs)
                      && ((exists c :: c in archivedb.db && !("jklf" <= c) && archivedb.db[c] == d) ||
                          !exists c :: c in old(archivedb.db) && !("jklf" <= c) && old(archivedb.db)[c] == d))
                && (forall c :: c in downtimedb.db <==> c in old(downtimedb.db) && old(downtimedb.db)[c] <= maxMisses)
                && (forall c :: c in downtimedb.db ==> downtimedb.db[c] == old(downtimedb.db)[c])
    {
      StoredIs();
      hide *;
      ghost var start := Exec(run);
      var entries := DowntimeIterator();
      r := CleanEntries(entries, start);
      if r.Success? {
        CleanedMeans(start, OverLimit(maxMisses, old(downtimedb.db)));
        StoredIs();
        CleanedPlainly(old(archivedb.db), archivedb.db, old(downtimedb.db), downtimedb.db, old(dirs), dirs, maxMisses);
      }
    }

    /** The loop of `CleanExpired`. */
    method CleanEntries(entries: seq<Entry>, ghost start: State) returns (r: Result<(), IndexError>)
      requires Ready() && Snapshot(start.downtime, entries) && Exec(run) == CleanPass(start, maxMisses, entries, 0)
      requires forall i :: 0 <= i < |entries| ==> !HasFidPrefix(entries[i].cid)
      modifies this`dirs, this`run, archivedb, downtimedb
      ensures Ready() && old(run) <= run
      ensures r.Failure? ==> maxMisses < 0 && PartlyCleaned(maxMisses, start, Exec(run))
      ensures r.Success? ==> Exec(run) == Cleaned(start, OverLimit(maxMisses, start.downtime), [])
    {
      hide *;
      var i := 0;
      while i < |entries|
        invariant 0 <= i <= |entries|
        invariant Ready() && old(run) <= run
        invariant Exec(run) == CleanPass(start, maxMisses, entries, i)
        invariant forall j :: 0 <= j < i && entries[j].misses > maxMisses ==> entries[j].cid in start.contracts
      {
        CleanPassTodo(start, maxMisses, entries, i);
        CleanPassStep(start, maxMisses, entries, i);
        var cleaned := CleanEntry(entries[i]);
        if cleaned.Failure? {
          CleanPassPartial(start, maxMisses, entries, i);
          return cleaned;
        }
        i := i + 1;
      }
      CleanPassPurges(start, maxMisses, entries);
      r := Success(());
    }

    /** The machine's state is what is stored. */
    lemma StoredIs()
      requires Ready()
      ensures Exec(run).contracts == Contracts(archivedb.db) && Exec(run).downtime == downtimedb.db
      ensures Exec(run).dirs == dirs
    {
    }

    /** The snapshot that a clean pass goes through. */
    method DowntimeIterator() returns (entries: seq<Entry>)
      requires Ready() && Exec(run).phase.Idle?
      modifies this`run
      ensures Ready() && old(run) <= run
      ensures Snapshot(downtimedb.db, entries) && downtimedb.db == old(Exec(run)).downtime
      ensures forall i :: 0 <= i < |entries| ==> !HasFidPrefix(entries[i].cid)
      ensures Exec(run) == CleanPass(old(Exec(run)), maxMisses, entries, 0)
    {
      entries := downtimedb.Entries();
      Extend(maxMisses, run, BeginClean(entries));
      run := run + [BeginClean(entries)];
    }

    /** The body of the cleaning loop, for the entry at the head of the list. */
    method CleanEntry(e: Entry) returns (r: Result<(), IndexError>)
      requires Ready() && Exec(run).phase.Cleaning?
      requires Exec(run).phase.todo != [] && Exec(run).phase.todo[0] == e && !HasFidPrefix(e.cid)
      modifies this`dirs, this`run, archivedb, downtimedb
      ensures Ready() && old(run) <= run
      ensures r.Failure? <==> e.misses > maxMisses && e.cid !in old(Exec(run)).contracts
      ensures r.Failure? ==> maxMisses < 0 && Exec(run) == old(Exec(run)).(phase := Idle)
      ensures r.Success? ==>
                var s, rest := old(Exec(run)), old(Exec(run)).phase.todo[1..];
                Exec(run) == if e.misses > maxMisses then PurgedFrom(s, e.cid, rest)
                             else s.(phase := Cleaning(rest))
    {
      AlwaysInv(maxMisses, run);
      assert e in Exec(run).phase.todo;
      if e.misses > maxMisses {
        var purged := Purge(e.cid);
        if purged.Failure? {
          Extend(maxMisses, run, Abort);
          run := run + [Abort];
          return Failure(purged.error);
        }
      } else {
        Extend(maxMisses, run, Keep(e.cid));
        run := run + [Keep(e.cid)];
      }
      r := Success(());
    }

    /** Reads the counter and then writes one more: two steps, with nothing of the
        proof server's in between. */
    method IncrementDowntime(cid: string)
      requires Ready() && IsNext(cid)
      modifies this`run, downtimedb
      ensures Ready() && run == old(run) + [Visit(cid, NotFound), Mark(cid)]
      ensures Exec(run) == AfterVisitOf(old(Exec(run)), cid, NotFound)
      ensures downtimedb.db == old(downtimedb.db)[cid :=
                1 + if cid in old(downtimedb.db) then old(downtimedb.db)[cid] else 0]
    {
      hide Exec, Valid, Consistent;
      var downtime := ReadEntry(cid);
      WriteEntry(cid, downtime + 1);
    }

    /** Reads the counter, which is then held until it is written. */
    method ReadEntry(cid: string) returns (downtime: int)
      requires Ready() && IsNext(cid)
      modifies this`run
      ensures Ready() && run == old(run) + [Visit(cid, NotFound)]
      ensures Exec(run) == Apply(old(Exec(run)), Visit(cid, NotFound))
      ensures Exec(run).phase == Marking(cid, downtime, old(Exec(run)).phase.cids[1..])
      ensures downtime == if cid in downtimedb.db then downtimedb.db[cid] else 0
    {
      hide Exec, Valid, Consistent;
      var found := downtimedb.Get(cid);
      downtime := if found.Success? then found.value else 0;
      Extend(maxMisses, run, Visit(cid, NotFound));
      run := run + [Visit(cid, NotFound)];
    }

    /** Writes one more than was read, whatever the counter is by then. */
    method WriteEntry(cid: string, downtime: int)
      requires Ready() && !HasFidPrefix(cid)
      requires Exec(run).phase.Marking? && Exec(run).phase.cid == cid && Exec(run).phase.seen + 1 == downtime
      modifies this`run, downtimedb
      ensures Ready() && run == old(run) + [Mark(cid)] && Exec(run) == Apply(old(Exec(run)), Mark(cid))
      ensures downtimedb.db == old(downtimedb.db)[cid := downtime]
    {
      hide Exec, Valid, Consistent;
      downtimedb.Set(cid, downtime);
      Extend(maxMisses, run, Mark(cid));
      run := run + [Mark(cid)];
    }

    /** The contract that the visiting pass takes up next. */
    ghost predicate IsNext(cid: string)
      reads this
    {
      !HasFidPrefix(cid) && Exec(run).phase.Visiting? && Exec(run).phase.cids != [] && Exec(run).phase.cids[0] == cid
    }

    /** Reads and deletes: a counter that is reset in between is deleted as well, so
        the deletion is all there is to see. */
    method DeleteDowntime(cid: string)
      modifies downtimedb
      ensures downtimedb.db == old(downtimedb.db) - {cid}
    {
      var downtime := downtimedb.Get(cid);
      if downtime.Failure? {
        return;
      }
      downtimedb.Delete(cid);
    }

    /** Every indexed contract is visited once; its own reply alone decides what
        happens to its downtime, and nothing else changes. */
    method HandleContracts(replies: string -> Reply)
      requires Ready() && Exec(run).phase == Cleaning([])
      modifies this`run, downtimedb
      ensures Ready() && old(run) <= run && Exec(run).phase.Idle?
      ensures Visited(old(downtimedb.db), downtimedb.db, Contracts(archivedb.db), replies)
      // A not-found code adds a miss, a flag that says yes or no removes the counter,
      // and whatever else comes back, or is no contract, leaves it alone.
      ensures forall c | c in archivedb.db && !("jklf" <= c) && replies(c) == NotFoundCode ::
                c in downtimedb.db &&
                downtimedb.db[c] == 1 + if c in old(downtimedb.db) then old(downtimedb.db)[c] else 0
      ensures forall c | c in archivedb.db && !("jklf" <= c) && replies(c) in {Deal("true"), Deal("false")} ::
                c !in downtimedb.db
      ensures forall c | c in archivedb.db && !("jklf" <= c) &&
                           replies(c).Deal? && replies(c).proofVerified in FLAG_TEXTS ::
                c !in downtimedb.db
      ensures forall c | c !in archivedb.db || "jklf" <= c ||
                           replies(c) == OtherCode || replies(c) == UnknownError ||
                           (replies(c).Deal? && replies(c).proofVerified !in FLAG_TEXTS) ::
                if c in old(downtimedb.db)
                then c in downtimedb.db && downtimedb.db[c] == old(downtimedb.db)[c]
                else c !in downtimedb.db
    {
      hide Exec, Valid, Apply, AfterVisitOf, VisitPass, Consistent, ContractState, ContractKeys, VisitEvents, Visited;
      ghost var start := Exec(run);
      var keys := ArchiveIterator(replies);
      for i := 0 to |keys|
        invariant Ready() && old(run) <= run
        invariant Exec(run) == VisitPass(start, replies, keys, i)
      {
        VisitKey(keys[i], replies, start, keys, i);
      }
      VisitPassVisits(start, replies, keys, archivedb.db);
      FinishVisits();
      VisitedMeans(old(downtimedb.db), downtimedb.db, archivedb.db, replies);
    }

    /** The body of the visiting loop, which skips the reference lists. */
    method VisitKey(key: string, replies: string -> Reply, ghost start: State, ghost keys: seq<string>, ghost i: nat)
      requires Ready() && i < |keys| && keys[i] == key && Exec(run) == VisitPass(start, replies, keys, i)
      modifies this`run, downtimedb
      ensures Ready() && old(run) <= run && Exec(run) == VisitPass(start, replies, keys, i + 1)
    {
      hide Exec, Valid, Apply, AfterVisitOf, VisitPass, Consistent, ContractState, ContractKeys, VisitEvents;
      VisitPassTodo(start, replies, keys, i);
      VisitPassStep(start, replies, keys, i);
      ContractKeysStep(keys, i);
      if HasFidPrefix(key) {
        return;
      }
      VisitContract(key, ContractState(replies(key)));
    }

    ghost method FinishVisits()
      requires Ready() && Exec(run).phase == Visiting([])
      modifies this`run
      ensures Ready() && old(run) <= run && Exec(run) == old(Exec(run)).(phase := Idle)
    {
      hide Exec, Valid, Consistent;
      Extend(maxMisses, run, EndVisits);
      run := run + [EndVisits];
    }

    /** The snapshot that a visiting pass goes through. */
    method ArchiveIterator(ghost replies: string -> Reply) returns (keys: seq<string>)
      requires Ready() && Exec(run).phase == Cleaning([])
      modifies this`run
      ensures Ready() && old(run) <= run
      ensures Enumerates(keys, archivedb.db.Keys)
      ensures Exec(run) == VisitPass(old(Exec(run)), replies, keys, 0)
    {
      keys := Keys(archivedb.db);
      ContractKeysDistinct(keys);
      Extend(maxMisses, run, BeginVisits(ContractKeys(keys)));
      run := run + [BeginVisits(ContractKeys(keys))];
    }

    /** What a reply for a contract brings about. */
    method VisitContract(cid: string, status: Status)
      requires Ready() && IsNext(cid)
      modifies this`run, downtimedb
      ensures Ready() && run == old(run) + VisitEvents(cid, status)
      ensures Exec(run) == AfterVisitOf(old(Exec(run)), cid, status)
    {
      hide Exec, Valid, Consistent;
      match status {
      case NotFound =>
        IncrementDowntime(cid);
        return;
      case Verified =>
        DeleteDowntime(cid);
      case NotVerified =>
        DeleteDowntime(cid); // and a proof is queued
      case QueryError =>
        // only logged
      }
      Extend(maxMisses, run, Visit(cid, status));
      run := run + [Visit(cid, status)];
    }

    /** One shift: clean, then visit what is left. */
    method StartShift(replies: string -> Reply) returns (r: Result<(), IndexError>)
      requires Ready() && Exec(run).phase.Idle?
      modifies this`dirs, this`run, archivedb, downtimedb
      ensures Ready() && old(run) <= run && Exec(run).phase.Idle?
      ensures maxMisses >= 0 ==> r.Success?
      ensures r.Failure? ==> PartlyCleaned(maxMisses, old(Exec(run)), Exec(run))
      ensures r.Success? ==>
                var gone := OverLimit(maxMisses, old(downtimedb.db));
                && Contracts(archivedb.db) == Contracts(old(archivedb.db)) - gone
                && dirs == old(dirs) - Orphaned(Contracts(old(archivedb.db)), gone)
                && Visited(old(downtimedb.db) - gone, downtimedb.db, Contracts(archivedb.db), replies)
      // The contracts over the limit are gone with their counters, and so are the
      // directories that only they referred to; the others are visited.
      ensures r.Success? ==>
                && (forall c :: !("jklf" <= c) ==>
                      (c in archivedb.db <==>
                       c in old(archivedb.db) && !(c in old(downtimedb.db) && old(downtimedb.db)[c] > maxMisses)))
                && (forall c :: c in archivedb.db && !("jklf" <= c) ==> archivedb.db[c] == old(archivedb.db)[c])
                && (forall d :: d in dirs <==>
                      && d in old(dirs)
                      && ((exists c :: c in archivedb.db && !("jklf" <= c) && archivedb.db[c] == d) ||
                          !exists c :: c in old(archivedb.db) && !("jklf" <= c) && old(archivedb.db)[c] == d))
                && (forall c :: c in old(downtimedb.db) && old(downtimedb.db)[c] > maxMisses ==> c !in downtimedb.db)
      ensures r.Success? ==> forall c | c in archivedb.db && !("jklf" <= c) && replies(c) == NotFoundCode ::
                c in downtimedb.db &&
                downtimedb.db[c] == 1 + if c in old(downtimedb.db) then old(downtimedb.db)[c] else 0
      ensures r.Success? ==> forall c | c in archivedb.db && !("jklf" <= c) &&
                           replies(c) in {Deal("true"), Deal("false")} ::
                c !in downtimedb.db
      ensures r.Success? ==> forall c | c in archivedb.db && !("jklf" <= c) &&
                           replies(c).Deal? && replies(c).proofVerified in FLAG_TEXTS ::
                c !in downtimedb.db
      ensures r.Success? ==> forall c | c !in archivedb.db || "jklf" <= c ||
                           replies(c) == OtherCode || replies(c) == UnknownError ||
                           (replies(c).Deal? && replies(c).proofVerified !in FLAG_TEXTS) ::
                if c in old(downtimedb.db) && old(downtimedb.db)[c] <= maxMisses
                then c in downtimedb.db && downtimedb.db[c] == old(downtimedb.db)[c]
                else c !in downtimedb.db
    {
      r := CleanExpired();
      if r.Failure? {
        return;
      }
      HandleContracts(replies);
    }

    /** An upload's two writes: the downtime is reset first, the contract second. */
    method SaveToDatabase(fid: string, cid: string) returns (r: Result<(), IndexError>)
      requires Ready() && CidFormat(cid) && HasFidPrefix(fid)
      modifies this`run, archivedb, downtimedb
      ensures Ready() && old(run) <= run
      ensures downtimedb.db == old(downtimedb.db)[cid := 0]
      ensures r.Failure? <==> cid in Contracts(old(archivedb.db))
      ensures Contracts(archivedb.db) ==
              if r.Failure? then Contracts(old(archivedb.db)) else Contracts(old(archivedb.db))[cid := fid]
      ensures run == old(run) + [ResetDowntime(cid, fid), FinishUpload(cid, fid, r.Success?)]
      ensures r.Failure? <==> cid in old(archivedb.db)
      ensures forall c :: !("jklf" <= c) ==> (c in archivedb.db <==> c in old(archivedb.db) || c == cid)
      ensures forall c :: c in archivedb.db && !("jklf" <= c) ==>
                archivedb.db[c] == if c in old(archivedb.db) then old(archivedb.db)[c] else fid
    {
      ResetEntry(cid, fid);
      r := FinishEntry(cid, fid);
      IdFormsAre(cid);
      forall c ensures c in Contracts(archivedb.db) <==> c in archivedb.db && !("jklf" <= c)
               ensures c in Contracts(old(archivedb.db)) <==> c in old(archivedb.db) && !("jklf" <= c)
      {
        ContractsAre(archivedb.db, c);
        ContractsAre(old(archivedb.db), c);
      }
    }

    /** An upload's first write. */
    method ResetEntry(cid: string, ghost fid: string)
      requires Ready() && CidFormat(cid)
      modifies this`run, downtimedb
      ensures Ready() && run == old(run) + [ResetDowntime(cid, fid)]
      ensures Exec(run) == Apply(old(Exec(run)), ResetDowntime(cid, fid))
      ensures downtimedb.db == old(downtimedb.db)[cid := 0]
    {
      hide Exec, Valid, Consistent;
      downtimedb.Set(cid, 0);
      Extend(maxMisses, run, ResetDowntime(cid, fid));
      run := run + [ResetDowntime(cid, fid)];
    }

    /** An upload's second write. */
    method FinishEntry(cid: string, fid: string) returns (r: Result<(), IndexError>)
      requires Ready() && CidFormat(cid) && HasFidPrefix(fid) && Link(cid, fid) in Exec(run).uploads
      modifies this`run, archivedb
      ensures Ready() && run == old(run) + [FinishUpload(cid, fid, r.Success?)]
      ensures r.Failure? <==> cid in Contracts(old(archivedb.db))
      ensures Contracts(archivedb.db) ==
              if r.Failure? then Contracts(old(archivedb.db)) else Contracts(old(archivedb.db))[cid := fid]
    {
      hide Exec, Valid, Consistent;
      SetOnContracts(archivedb.db, cid, fid);
      r := archivedb.SetContract(cid, fid);
      Extend(maxMisses, run, FinishUpload(cid, fid, r.Success?));
      run := run + [FinishUpload(cid, fid, r.Success?)];
    }

    /** Queries our deals and inserts each whose contract id is free; taken ids are
        skipped.  Deals with ids of the right form keep the index consistent. */
    method RecollectActiveDeals(queries: ActiveDeals.DealQueries) returns (r: Result<(), ActiveDeals.QueryError>)
      requires Ready() && queries.client.pages != []
      modifies this`run, archivedb, queries.client
      ensures r.Failure? <==> !old(queries.client.Succeeds())
      ensures r.Failure? ==> Ready() && run == old(run) && archivedb.db == old(archivedb.db)
      ensures r.Success? ==>
                var deals := OwnLinks(queries.client.pages, queries.address);
                && archivedb.db == AfterAll(old(archivedb.db), deals)
                && (Formatted(deals) ==>
                      && Ready() && old(run) <= run
                      && Contracts(archivedb.db) == Recollected(Contracts(old(archivedb.db)), deals))
      // For well-formed ids, in terms of what the chain lists and of the stored keys:
      // a contract is there exactly if it was or one of our deals has its id; it keeps
      // its file, or has that of the first of our deals with its id.
      ensures r.Success? && WellFormedIds(Flatten(queries.client.pages), queries.address) ==>
                var listed, before, address := Flatten(queries.client.pages), old(archivedb.db), queries.address;
                && (forall cid :: !("jklf" <= cid) ==>
                      (cid in archivedb.db <==>
                       cid in before ||
                       exists j :: 0 <= j < |listed| && listed[j].provider == address && listed[j].cid == cid))
                && (forall cid :: cid in before && !("jklf" <= cid) ==> archivedb.db[cid] == before[cid])
                && (forall j :: 0 <= j < |listed| && listed[j].provider == address && listed[j].cid !in before &&
                      (forall k :: 0 <= k < j ==> !(listed[k].provider == address && listed[k].cid == listed[j].cid))
                      ==> listed[j].cid in archivedb.db && archivedb.db[listed[j].cid] == listed[j].fid)
    {
      var mine := queries.QueryOnlyMyActiveDeals();
      if mine.Failure? {
        return Failure(mine.error);
      }
      InsertAll(LinksOf(mine.value));
      r := Success(());
      if WellFormedIds(Flatten(queries.client.pages), queries.address) {
        InsertedOwnDeals(old(archivedb.db), archivedb.db, Flatten(queries.client.pages), queries.address);
      }
    }

    /** The loop of `RecollectActiveDeals`. */
    method InsertAll(deals: seq<Link>)
      requires Ready()
      modifies this`run, archivedb
      ensures archivedb.db == AfterAll(old(archivedb.db), deals)
      ensures Formatted(deals) ==>
                && Ready() && old(run) <= run
                && Contracts(archivedb.db) == Recollected(Contracts(old(archivedb.db)), deals)
    {
      assert deals[..0] == [];
      for i := 0 to |deals|
        invariant archivedb.db == AfterAll(old(archivedb.db), deals[..i])
        invariant Formatted(deals) ==>
                    && Ready() && old(run) <= run
                    && Contracts(archivedb.db) == Recollected(Contracts(old(archivedb.db)), deals[..i])
      {
        hide Exec, Valid, Consistent;
        var d := deals[i];
        assert deals[..i + 1][..i] == deals[..i];
        if Formatted(deals) {
          SetOnContracts(archivedb.db, d.cid, d.fid);
        }
        var r := archivedb.SetContract(d.cid, d.fid);
        if Formatted(deals) {
          Extend(maxMisses, run, Insert(d.cid, d.fid, r.Success?));
          run := run + [Insert(d.cid, d.fid, r.Success?)];
        }
      }
      assert deals[..|deals|] == deals;
    }

    /** Removes the directory, and the old tree file, of every stored name that
        is not a key of the index; keeps every other directory. */
    method PruneExpiredFiles() returns (pruned: nat)
      requires Ready()
      modifies this`dirs, this`oldTrees, this`run
      ensures Ready() && old(run) <= run
      ensures dirs == set d | d in old(dirs) && d in archivedb.db
      ensures oldTrees == old(oldTrees) - (old(dirs) - dirs)
      ensures pruned == |old(dirs)| - |dirs|
      ensures (forall d :: d in old(dirs) ==> !CidFormat(d)) ==>
                dirs == Kept(old(dirs), Contracts(archivedb.db))
    {
      hide Exec, Valid;
      pruned := 0;
      var left := dirs;
      while left != {}
        invariant Ready() && old(run) <= run && left <= dirs <= old(dirs)
        invariant forall d :: d in dirs && d !in left ==> d in archivedb.db
        invariant forall d :: d in old(dirs) && d !in dirs ==> d !in archivedb.db
        invariant oldTrees == old(oldTrees) - (old(dirs) - dirs)
        invariant pruned == |old(dirs)| - |dirs|
        decreases left
      {
        var fid :| fid in left;
        var found := archivedb.GetContracts(fid);
        if found.Failure? {
          Unlisted(archivedb.db, fid);
          oldTrees := oldTrees - {fid};
          assert |dirs - {fid}| == |dirs| - 1;
          dirs := dirs - {fid};
          Extend(maxMisses, run, Prune(fid));
          run := run + [Prune(fid)];
          pruned := pruned + 1;
        }
        left := left - {fid};
      }
      KeptByName(archivedb.db, old(dirs));
    }
  }

  /** A name that is not a key of the index is not referenced. */
  lemma Unlisted(db: Store, name: string)
    requires Consistent(db) && name !in db
    ensures !Referenced(Contracts(db), name)
  {
    KeyFormats(db);
    if Referenced(Contracts(db), name) {
      DirectionsAgree(db, name, "");
    }
  }

  lemma KeptByName(db: Store, dirs: set<string>)
    requires Consistent(db)
    ensures (forall d :: d in dirs ==> !CidFormat(d)) ==>
              (set d | d in dirs && d in db) == Kept(dirs, Contracts(db))
  {
    KeyFormats(db);
    forall d | d in dirs && !CidFormat(d) ensures d in db <==> Referenced(Contracts(db), d) {
      if HasFidPrefix(d) {
        DirectionsAgree(db, d, "");
      } else {
        UnformattedUnlisted(db, d);
      }
    }
  }

  lemma UnformattedUnlisted(db: Store, name: string)
    requires Consistent(db) && !CidFormat(name) && !HasFidPrefix(name)
    ensures name !in db && !Referenced(Contracts(db), name)
  {
    KeyFormats(db);
    Unlisted(db, name);
  }
}
