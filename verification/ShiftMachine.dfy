/** The provider's stored state as a machine of single database and directory
    writes.  The proof server (clean, purge, visit), uploads, recollection and
    pruning take steps in any interleaving, and the process may stop between
    any two writes; only the stored parts survive a stop. */
module ShiftMachine {
  import opened Wrappers
  import opened Collections
  import opened ContractIndex
  import opened DealState

  /** An entry of the downtime database, as its iterator returned it. */
  datatype Entry = Entry(cid: string, misses: int)

  /** Where the proof server stands. */
  datatype Phase =
    | Idle
    | Cleaning(todo: seq<Entry>)
    | Dropping(cid: string, fid: string, todo: seq<Entry>) // its downtime entry is deleted
    | Deleting(fid: string, todo: seq<Entry>)              // its last contract is deleted
    | Visiting(cids: seq<string>)
    | Marking(cid: string, seen: int, cids: seq<string>)   // a counter is read and not yet written

  datatype State = State(
    contracts: map<string, string>,
    downtime: map<string, int>,
    dirs: set<string>,
    phase: Phase,
    uploads: set<Link>) // uploads between their two database writes

  datatype Event =
    | StoreFile(fid: string)
    | ResetDowntime(cid: string, fid: string)
    | FinishUpload(cid: string, fid: string, added: bool)
    | Insert(cid: string, fid: string, added: bool)
    | Prune(fid: string)
    | BeginClean(entries: seq<Entry>)
    | Keep(cid: string)
    | DropDowntime(cid: string)
    | DropContract(cid: string)
    | DeleteDir(fid: string)
    | Abort
    | BeginVisits(contracts: seq<string>)
    | Visit(cid: string, status: Status) // after NotFound, only the counter's reading
    | Mark(cid: string)                  // and its writing
    | EndVisits
    | Stop

  const INIT := State(map[], map[], {}, Idle, {})

  /** An iterator over the downtime database sees every entry once. */
  predicate Snapshot(downtime: map<string, int>, entries: seq<Entry>) {
    && (forall i, j :: 0 <= i < j < |entries| ==> entries[i].cid != entries[j].cid)
    && (forall e :: e in entries ==> e.cid in downtime && e.misses == downtime[e.cid])
    && (forall c :: c in downtime ==> Entry(c, downtime[c]) in entries)
  }

  /** The step the code takes next from a state; `max` is the number of misses allowed. */
  predicate Enabled(max: int, s: State, e: Event) {
    match e
    case StoreFile(_) => true
    case ResetDowntime(_, _) => true
    case FinishUpload(c, f, added) => Link(c, f) in s.uploads && added == (c !in s.contracts)
    case Insert(c, _, added) => added == (c !in s.contracts)
    case Prune(f) => !Referenced(s.contracts, f)
    case BeginClean(entries) => s.phase.Idle? && Snapshot(s.downtime, entries)
    case Keep(c) =>
      s.phase.Cleaning? && s.phase.todo != [] && s.phase.todo[0].cid == c && s.phase.todo[0].misses <= max
    case DropDowntime(c) =>
      && s.phase.Cleaning? && s.phase.todo != [] && s.phase.todo[0].cid == c
      && s.phase.todo[0].misses > max && c in s.contracts
    case DropContract(c) => s.phase.Dropping? && s.phase.cid == c && c in s.contracts
    case DeleteDir(f) => s.phase.Deleting? && s.phase.fid == f
    case Abort =>
      || (s.phase.Dropping? && s.phase.cid !in s.contracts)
      || (s.phase.Cleaning? && s.phase.todo != [] && s.phase.todo[0].misses > max &&
          s.phase.todo[0].cid !in s.contracts)
    case BeginVisits(cids) => s.phase == Cleaning([]) && Enumerates(cids, s.contracts.Keys)
    case Visit(c, _) => s.phase.Visiting? && s.phase.cids != [] && s.phase.cids[0] == c
    case Mark(c) => s.phase.Marking? && s.phase.cid == c
    case EndVisits => s.phase == Visiting([])
    case Stop => true
  }

  /** The stored number of misses; no entry reads as none. */
  function Down(s: State, c: string): int {
    if c in s.downtime then s.downtime[c] else 0
  }

  function AfterInsert(s: State, c: string, f: string): State {
    if c in s.contracts then s else s.(contracts := s.contracts[c := f])
  }

  function AfterVisit(s: State, c: string, status: Status, rest: seq<string>): State {
    match status
    case NotFound => s.(phase := Marking(c, Down(s, c), rest))
    case QueryError => s.(phase := Visiting(rest))
    case _ => s.(downtime := s.downtime - {c}, phase := Visiting(rest))
  }

  function Apply(s: State, e: Event): State {
    match e
    case StoreFile(f) => s.(dirs := s.dirs + {f})
    case ResetDowntime(c, f) => s.(downtime := s.downtime[c := 0], uploads := s.uploads + {Link(c, f)})
    case FinishUpload(c, f, _) => AfterInsert(s.(uploads := s.uploads - {Link(c, f)}), c, f)
    case Insert(c, f, _) => AfterInsert(s, c, f)
    case Prune(f) => s.(dirs := s.dirs - {f})
    case BeginClean(entries) => s.(phase := Cleaning(entries))
    case Keep(_) => if s.phase.Cleaning? && s.phase.todo != [] then s.(phase := Cleaning(s.phase.todo[1..])) else s
    case DropDowntime(c) =>
      if s.phase.Cleaning? && s.phase.todo != [] && c in s.contracts
      then s.(downtime := s.downtime - {c}, phase := Dropping(c, s.contracts[c], s.phase.todo[1..]))
      else s
    case DropContract(c) =>
      if s.phase.Dropping? then
        var rest := s.contracts - {c};
        s.(contracts := rest,
           phase := if Referenced(rest, s.phase.fid) then Cleaning(s.phase.todo)
                    else Deleting(s.phase.fid, s.phase.todo))
      else s
    case DeleteDir(f) =>
      if s.phase.Deleting? then s.(dirs := s.dirs - {f}, phase := Cleaning(s.phase.todo)) else s
    case Abort => s.(phase := Idle)
    case BeginVisits(cids) => s.(phase := Visiting(cids))
    case Visit(c, status) =>
      if s.phase.Visiting? && s.phase.cids != [] then AfterVisit(s, c, status, s.phase.cids[1..]) else s
    case Mark(c) =>
      if s.phase.Marking?
      then s.(downtime := s.downtime[c := s.phase.seen + 1], phase := Visiting(s.phase.cids))
      else s
    case EndVisits => s.(phase := Idle)
    case Stop => s.(phase := Idle, uploads := {})
  }

  function Exec(run: seq<Event>): State {
    if run == [] then INIT else Apply(Exec(run[..|run| - 1]), run[|run| - 1])
  }

  /** Every event of the run was a step the code could take at that point. */
  predicate Valid(max: int, run: seq<Event>) {
    run == [] ||
    (Valid(max, run[..|run| - 1]) && Enabled(max, Exec(run[..|run| - 1]), run[|run| - 1]))
  }

  lemma {:induction false} ValidAt(max: int, run: seq<Event>, k: nat)
    requires Valid(max, run) && k <= |run|
    ensures Valid(max, run[..k])
    ensures k < |run| ==> Enabled(max, Exec(run[..k]), run[k]) && Exec(run[..k + 1]) == Apply(Exec(run[..k]), run[k])
    decreases |run|
  {
    if k < |run| {
      assert run[..k + 1][..k] == run[..k];
      if k < |run| - 1 {
        var front := run[..|run| - 1];
        assert front[..k] == run[..k] && front[..k + 1] == run[..k + 1];
        ValidAt(max, front, k);
      } else {
        assert run[..k + 1] == run;
      }
    } else {
      assert run[..k] == run;
    }
  }

  // ------------------------------------------------------ the state invariant

  predicate TodoListed(s: State, todo: seq<Entry>) {
    && (forall i, j :: 0 <= i < j < |todo| ==> todo[i].cid != todo[j].cid)
    && (forall e :: e in todo && e.misses > 0 ==> e.cid in s.contracts)
  }

  /** Every contract over the limit is still to be cleaned. */
  predicate TodoCovers(max: int, s: State, todo: seq<Entry>) {
    forall c :: c in s.downtime && s.downtime[c] > max ==> Entry(c, s.downtime[c]) in todo
  }

  predicate PhaseOk(max: int, s: State) {
    match s.phase
    case Idle => true
    case Cleaning(todo) => TodoListed(s, todo) && (max >= 0 ==> TodoCovers(max, s, todo))
    case Dropping(c, f, todo) =>
      && c in s.contracts && s.contracts[c] == f && Down(s, c) == 0
      && (forall e :: e in todo ==> e.cid != c)
      && TodoListed(s, todo) && (max >= 0 ==> TodoCovers(max, s, todo))
    case Deleting(_, todo) => TodoListed(s, todo) && (max >= 0 ==> TodoCovers(max, s, todo))
    case Visiting(cids) =>
      && Distinct(cids)
      && (forall c :: c in cids ==> c in s.contracts && (max >= 0 ==> Down(s, c) <= max))
    case Marking(c, seen, cids) =>
      && c in s.contracts && 0 <= Down(s, c) <= seen && (max >= 0 ==> seen <= max)
      && Distinct(cids) && c !in cids
      && (forall d :: d in cids ==> d in s.contracts && (max >= 0 ==> Down(s, d) <= max))
  }

  /** A contract with misses is in the contract index, and no contract has more
      than one miss over the limit. */
  predicate Inv(max: int, s: State) {
    && (forall c :: c in s.downtime ==> 0 <= s.downtime[c])
    && (forall c :: c in s.downtime && s.downtime[c] > 0 ==> c in s.contracts)
    && (max >= 0 ==> forall c :: c in s.downtime ==> s.downtime[c] <= max + 1)
    && PhaseOk(max, s)
  }

  lemma CleanStep(max: int, s: State, e: Event)
    requires Inv(max, s) && Enabled(max, s, e)
    requires e.BeginClean? || e.Keep? || e.DropDowntime? || e.DropContract? || e.DeleteDir? || e.BeginVisits?
    ensures Inv(max, Apply(s, e))
  {
    if s.phase.Cleaning? && s.phase.todo != [] {
      assert s.phase.todo == [s.phase.todo[0]] + s.phase.todo[1..];
    }
  }

  lemma VisitStep(max: int, s: State, e: Event)
    requires Inv(max, s) && Enabled(max, s, e) && e.Visit?
    ensures Inv(max, Apply(s, e))
  {
    assert s.phase.cids == [s.phase.cids[0]] + s.phase.cids[1..];
  }

  lemma MarkStep(max: int, s: State, e: Event)
    requires Inv(max, s) && Enabled(max, s, e) && e.Mark?
    ensures Inv(max, Apply(s, e))
  {
  }

  lemma ResetStep(max: int, s: State, e: Event)
    requires Inv(max, s) && Enabled(max, s, e) && e.ResetDowntime?
    ensures Inv(max, Apply(s, e))
  {
  }

  lemma InsertStep(max: int, s: State, c: string, f: string)
    requires Inv(max, s)
    ensures Inv(max, AfterInsert(s, c, f))
  {
  }

  lemma OtherStep(max: int, s: State, e: Event)
    requires Inv(max, s) && Enabled(max, s, e)
    requires e.StoreFile? || e.Prune? || e.Abort? || e.EndVisits? || e.Stop?
    ensures Inv(max, Apply(s, e))
  {
  }

  lemma InsertIs(s: State, c: string, f: string, added: bool)
    ensures Apply(s, Insert(c, f, added)) == AfterInsert(s, c, f)
    ensures Apply(s, FinishUpload(c, f, added)) == AfterInsert(s.(uploads := s.uploads - {Link(c, f)}), c, f)
  {
  }

  lemma UploadsDoNotMatter(max: int, s: State, uploads: set<Link>)
    requires Inv(max, s)
    ensures Inv(max, s.(uploads := uploads))
  {
  }

  lemma StepKeepsInv(max: int, s: State, e: Event)
    requires Inv(max, s) && Enabled(max, s, e)
    ensures Inv(max, Apply(s, e))
  {
    hide *;
    match e
    case Insert(c, f, added) =>
      InsertIs(s, c, f, added);
      InsertStep(max, s, c, f);
    case FinishUpload(c, f, added) =>
      InsertIs(s, c, f, added);
      UploadsDoNotMatter(max, s, s.uploads - {Link(c, f)});
      InsertStep(max, s.(uploads := s.uploads - {Link(c, f)}), c, f);
    case ResetDowntime(_, _) => ResetStep(max, s, e);
    case Visit(_, _) => VisitStep(max, s, e);
    case Mark(_) => MarkStep(max, s, e);
    case StoreFile(_) => OtherStep(max, s, e);
    case Prune(_) => OtherStep(max, s, e);
    case Abort => OtherStep(max, s, e);
    case EndVisits => OtherStep(max, s, e);
    case Stop => OtherStep(max, s, e);
    case _ => CleanStep(max, s, e);
  }

  /** In every reachable state, wherever the process stops and however the
      other activities interleave, a contract with misses is in the index. */
  lemma {:induction false} AlwaysInv(max: int, run: seq<Event>)
    requires Valid(max, run)
    ensures Inv(max, Exec(run))
  {
    if run != [] {
      AlwaysInv(max, run[..|run| - 1]);
      StepKeepsInv(max, Exec(run[..|run| - 1]), run[|run| - 1]);
    }
  }

  // --------------------------------------------- the downtime counts the misses

  /** Events after which earlier misses of a contract no longer count. */
  predicate Clears(e: Event, c: string) {
    match e
    case ResetDowntime(d, _) => d == c
    case FinishUpload(d, _, added) => d == c && added
    case Insert(d, _, added) => d == c && added
    case DropDowntime(d) => d == c
    case Visit(d, status) => d == c && (status.Verified? || status.NotVerified?)
    case _ => false
  }

  /** A counter read at `r` and written at `m`. */
  predicate Increment(run: seq<Event>, c: string, r: int, m: int)
    requires 0 <= r < m < |run|
  {
    && run[r] == Visit(c, NotFound) && run[m] == Mark(c)
    && forall i :: r < i < m ==> !run[i].Visit? && !run[i].Mark? && !run[i].Stop?
  }

  /** Inside an increment, whose write undoes what happens to the counter there. */
  predicate Overwritten(run: seq<Event>, c: string, j: int) {
    exists r, m :: 0 <= r < j < m < |run| && Increment(run, c, r, m)
  }

  /** A recorded NotFound visit that nothing cleared for good. */
  predicate MissAt(run: seq<Event>, c: string, i: int)
    requires 0 <= i < |run|
  {
    run[i] == Mark(c) && forall j :: i < j < |run| && Clears(run[j], c) ==> Overwritten(run, c, j)
  }

  function MissSet(run: seq<Event>, c: string): set<int> {
    set i | 0 <= i < |run| && MissAt(run, c, i)
  }

  function Misses(run: seq<Event>, c: string): nat {
    |MissSet(run, c)|
  }

  /** Unless the last event is a write, it closes no increment. */
  lemma OverwrittenAppend(run: seq<Event>, e: Event, c: string, j: int)
    requires e != Mark(c) && 0 <= j <= |run|
    ensures Overwritten(run + [e], c, j) <==> Overwritten(run, c, j)
  {
    var longer := run + [e];
    assert longer[|run|] == e && forall i :: 0 <= i < |run| ==> longer[i] == run[i];
    if Overwritten(run, c, j) {
      var r, m :| 0 <= r < j < m < |run| && Increment(run, c, r, m);
      assert Increment(longer, c, r, m);
    }
    if Overwritten(longer, c, j) {
      var r, m :| 0 <= r < j < m < |longer| && Increment(longer, c, r, m);
      assert Increment(run, c, r, m);
    }
  }

  lemma MissAtAppend(run: seq<Event>, e: Event, c: string, i: int)
    requires e != Mark(c) && 0 <= i <= |run|
    ensures MissAt(run + [e], c, i) <==> i < |run| && MissAt(run, c, i) && !Clears(e, c)
  {
    var longer := run + [e];
    assert longer[|run|] == e && forall j :: 0 <= j < |run| ==> longer[j] == run[j];
    hide Overwritten, Clears;
    forall j | 0 <= j <= |run| ensures Overwritten(longer, c, j) <==> Overwritten(run, c, j) {
      OverwrittenAppend(run, e, c, j);
    }
    assert !Overwritten(run, c, |run|) by {
      NothingAfter(run, c);
    }
  }

  lemma NothingAfter(run: seq<Event>, c: string)
    ensures !Overwritten(run, c, |run|)
  {
  }

  lemma MissesAppend(run: seq<Event>, e: Event, c: string)
    requires e != Mark(c)
    ensures Misses(run + [e], c) == if Clears(e, c) then 0 else Misses(run, c)
  {
    hide MissAt, Clears;
    forall i | 0 <= i <= |run|
      ensures MissAt(run + [e], c, i) <==> i < |run| && MissAt(run, c, i) && !Clears(e, c)
    {
      MissAtAppend(run, e, c, i);
    }
    assert MissSet(run + [e], c) == if Clears(e, c) then {} else MissSet(run, c);
  }

  /** Before an increment nothing is overwritten by it. */
  lemma OverwrittenBefore(run: seq<Event>, c: string, r: int, j: int)
    requires 0 <= j < r < |run| - 1 && Increment(run, c, r, |run| - 1)
    ensures Overwritten(run, c, j) <==> Overwritten(run[..r], c, j)
  {
    if Overwritten(run[..r], c, j) {
      var q, m :| 0 <= q < j < m < r && Increment(run[..r], c, q, m);
      assert Increment(run, c, q, m);
    }
    if Overwritten(run, c, j) {
      var q, m :| 0 <= q < j < m < |run| && Increment(run, c, q, m);
      assert run[r].Visit?;
      assert m < r;
      assert Increment(run[..r], c, q, m);
    }
  }

  lemma MissAtMarked(run: seq<Event>, c: string, r: int, i: int)
    requires 0 <= r < |run| - 1 && Increment(run, c, r, |run| - 1) && 0 <= i < |run|
    ensures MissAt(run, c, i) <==> i == |run| - 1 || (i < r && MissAt(run[..r], c, i))
  {
    forall j | r < j < |run| - 1 ensures Overwritten(run, c, j) {
      assert Increment(run, c, r, |run| - 1);
    }
    assert !Clears(run[r], c) && !Clears(run[|run| - 1], c);
    assert r <= i < |run| - 1 ==> run[i] != Mark(c);
    hide Overwritten, Clears;
    if i < r {
      forall j | 0 <= j < r ensures Overwritten(run, c, j) <==> Overwritten(run[..r], c, j) {
        OverwrittenBefore(run, c, r, j);
      }
      assert forall j :: 0 <= j < r ==> run[..r][j] == run[j];
    }
  }

  /** A write adds one miss to those at its reading. */
  lemma MissesMarked(run: seq<Event>, c: string, r: int)
    requires 0 <= r < |run| - 1 && Increment(run, c, r, |run| - 1)
    ensures Misses(run, c) == Misses(run[..r], c) + 1
  {
    hide MissAt, Increment;
    forall i | 0 <= i < |run|
      ensures MissAt(run, c, i) <==> i == |run| - 1 || (i < r && MissAt(run[..r], c, i))
    {
      MissAtMarked(run, c, r, i);
    }
    assert MissSet(run, c) == MissSet(run[..r], c) + {|run| - 1};
  }

  /** Where the counter that is about to be written was read. */
  lemma {:induction false} ReadAt(max: int, run: seq<Event>) returns (r: nat)
    requires Valid(max, run) && Exec(run).phase.Marking?
    ensures r < |run| && run[r] == Visit(Exec(run).phase.cid, NotFound)
    ensures forall i :: r < i < |run| ==> !run[i].Visit? && !run[i].Mark? && !run[i].Stop?
    ensures Exec(run).phase.seen == Down(Exec(run[..r]), Exec(run).phase.cid)
  {
    var front, e := run[..|run| - 1], run[|run| - 1];
    if e.Visit? {
      r := |run| - 1;
    } else {
      MarkingStays(max, Exec(front), e);
      r := ReadAt(max, front);
      assert front[..r] == run[..r];
    }
  }

  lemma MarkingStays(max: int, s: State, e: Event)
    requires Enabled(max, s, e) && Apply(s, e).phase.Marking? && !e.Visit?
    ensures s.phase == Apply(s, e).phase && !e.Mark? && !e.Stop?
  {
  }

  lemma DownAfter(max: int, s: State, e: Event, c: string)
    requires Inv(max, s) && Enabled(max, s, e)
    ensures Down(Apply(s, e), c) ==
            if Clears(e, c) then 0 else if e == Mark(c) then s.phase.seen + 1 else Down(s, c)
  {
  }

  /** A contract's stored downtime is always the number of recorded NotFound visits
      since it was last proved, re-uploaded, inserted or purged, where a reset
      between the reading and the writing of the counter does not count. */
  lemma {:induction false} DowntimeCountsMisses(max: int, run: seq<Event>, c: string)
    requires Valid(max, run)
    ensures Down(Exec(run), c) == Misses(run, c)
    decreases |run|
  {
    hide Misses, Clears, Inv, Apply, Enabled;
    if run == [] {
      NoMisses(c);
    } else {
      var front, e := run[..|run| - 1], run[|run| - 1];
      assert front + [e] == run;
      AlwaysInv(max, front);
      DownAfter(max, Exec(front), e, c);
      if e == Mark(c) {
        MarkIsEnabled(max, Exec(front), c);
        var r := ReadAt(max, front);
        ValidAt(max, run, r);
        DowntimeCountsMisses(max, run[..r], c);
        assert front[..r] == run[..r];
        MissesMarked(run, c, r);
        MarkClearsNothing(c);
      } else {
        DowntimeCountsMisses(max, front, c);
        MissesAppend(front, e, c);
      }
    }
  }

  lemma NoMisses(c: string)
    ensures Misses([], c) == 0 && Down(INIT, c) == 0
  {
    assert MissSet([], c) == {};
  }

  lemma MarkIsEnabled(max: int, s: State, c: string)
    requires Enabled(max, s, Mark(c))
    ensures s.phase.Marking? && s.phase.cid == c
  {
  }

  lemma MarkClearsNothing(c: string)
    ensures !Clears(Mark(c), c)
  {
  }

  // ----------------------------------------------------------- overwritten resets

  /** Whether nothing that clears a contract's misses follows. */
  predicate Uncleared(run: seq<Event>, c: string, i: int) {
    forall j :: i < j < |run| && j >= 0 ==> !Clears(run[j], c)
  }

  /** The recorded NotFound visits since anything last cleared the contract's misses. */
  function Recent(run: seq<Event>, c: string): set<int> {
    set i | 0 <= i < |run| && run[i] == Mark(c) && Uncleared(run, c, i)
  }

  /** The misses that were cleared, but by an overwritten reset. */
  function Survivors(run: seq<Event>, c: string): set<int> {
    set i | 0 <= i < |run| && MissAt(run, c, i) && !Uncleared(run, c, i)
  }

  /** The stored downtime is the recent visits and the survivors. */
  lemma DowntimeSplits(max: int, run: seq<Event>, c: string)
    requires Valid(max, run)
    ensures Down(Exec(run), c) == |Recent(run, c)| + |Survivors(run, c)|
    ensures Down(Exec(run), c) > 0 ==> Recent(run, c) != {}
  {
    DowntimeCountsMisses(max, run, c);
    var recent, survivors := Recent(run, c), Survivors(run, c);
    assert MissSet(run, c) == recent + survivors && recent !! survivors;
    if survivors != {} {
      var i :| i in survivors;
      LaterRecent(run, c, i);
    }
  }

  /** After an overwritten reset there is a later write; so the last miss is recent. */
  lemma LaterRecent(run: seq<Event>, c: string, i: int)
    requires 0 <= i < |run| && MissAt(run, c, i)
    ensures Recent(run, c) != {}
    decreases |run| - i
  {
    if Uncleared(run, c, i) {
      assert i in Recent(run, c);
    } else {
      var j :| i < j < |run| && Clears(run[j], c);
      assert Overwritten(run, c, j);
      var r, m :| 0 <= r < j < m < |run| && Increment(run, c, r, m);
      LaterRecent(run, c, m);
    }
  }

  /** A reset that clears nothing for good: the counter was zero anyway, or
      something clears it later. */
  predicate Harmless(run: seq<Event>, c: string, j: int)
    requires 0 <= j < |run|
  {
    Misses(run[..j], c) == 0 || exists k :: j < k < |run| && Clears(run[k], c) && !Overwritten(run, c, k)
  }

  lemma MissBefore(run: seq<Event>, c: string, i: int, j: int)
    requires 0 <= i < j < |run|
    requires MissAt(run[..j], c, i) && forall k :: j <= k < |run| && Clears(run[k], c) ==> Overwritten(run, c, k)
    ensures MissAt(run, c, i)
  {
    forall k | i < k < |run| && Clears(run[k], c) ensures Overwritten(run, c, k) {
      if k < j {
        assert run[..j][k] == run[k] && Overwritten(run[..j], c, k);
        var r, m :| 0 <= r < k < m < j && Increment(run[..j], c, r, m);
        assert Increment(run, c, r, m);
      }
    }
  }

  lemma {:induction false} FirstClear(run: seq<Event>, c: string, i: int, j: int) returns (first: int)
    requires 0 <= i < j < |run| && Clears(run[j], c)
    ensures i < first <= j && Clears(run[first], c) && Uncleared(run[..first], c, i)
    decreases j
  {
    if Uncleared(run[..j], c, i) {
      first := j;
    } else {
      var k :| i < k < j && Clears(run[..j][k], c);
      first := FirstClear(run, c, i, k);
    }
  }

  predicate AllHarmless(run: seq<Event>, c: string) {
    forall j :: 0 <= j < |run| && Clears(run[j], c) && Overwritten(run, c, j) ==> Harmless(run, c, j)
  }

  /** So the stored downtime is just the number of recorded NotFound visits since
      anything last cleared it, if and only if every overwritten reset was harmless. */
  lemma NoSurvivorsIffHarmless(run: seq<Event>, c: string)
    ensures Survivors(run, c) == {} <==> AllHarmless(run, c)
  {
    hide Clears, Overwritten;
    if i :| i in Survivors(run, c) {
      var j :| i < j < |run| && Clears(run[j], c);
      var first := FirstClear(run, c, i, j);
      assert Overwritten(run, c, first);
      assert MissAt(run[..first], c, i);
      assert i in MissSet(run[..first], c);
      assert !Harmless(run, c, first);
    }
    forall j | 0 <= j < |run| && Clears(run[j], c) && Overwritten(run, c, j) && !Harmless(run, c, j)
      ensures Survivors(run, c) != {}
    {
      var i :| i in MissSet(run[..j], c);
      MissBefore(run, c, i, j);
      assert i in Survivors(run, c);
    }
  }

  // ------------------------------------------------------------ purge safety

  predicate InClean(phase: Phase) {
    phase.Cleaning? || phase.Dropping? || phase.Deleting?
  }

  function Todo(phase: Phase): seq<Entry>
    requires InClean(phase)
  {
    phase.todo
  }

  lemma TodoShrinks(max: int, s: State, e: Event)
    requires Enabled(max, s, e) && !e.BeginClean? && InClean(Apply(s, e).phase)
    ensures InClean(s.phase) && !e.Visit? && !e.Mark?
    ensures forall x :: x in Todo(Apply(s, e).phase) ==> x in Todo(s.phase)
  {
  }

  /** The position where the current clean pass began.  Since then the proof
      server visited nothing, and its list holds the counts of that moment. */
  lemma {:induction false} CleanBegan(max: int, run: seq<Event>) returns (b: nat)
    requires Valid(max, run) && InClean(Exec(run).phase)
    ensures b < |run| && run[b].BeginClean?
    ensures forall j :: b < j < |run| ==> !run[j].Mark? && !run[j].BeginClean?
    ensures forall x :: x in Todo(Exec(run).phase) ==> x.misses == Misses(run[..b], x.cid)
  {
    LastStep(max, run);
    var front, e := run[..|run| - 1], run[|run| - 1];
    hide *;
    if e.BeginClean? {
      b := |run| - 1;
      BeginIs(max, Exec(front), e);
      forall x | x in Todo(Exec(run).phase) ensures x.misses == Misses(run[..b], x.cid) {
        DowntimeCountsMisses(max, front, x.cid);
      }
    } else {
      TodoShrinks(max, Exec(front), e);
      b := CleanBegan(max, front);
      assert front[..b] == run[..b];
    }
  }

  lemma LastStep(max: int, run: seq<Event>)
    requires Valid(max, run)
    ensures run == [] ==> Exec(run) == INIT && !InClean(INIT.phase)
    ensures run != [] ==>
              var front, e := run[..|run| - 1], run[|run| - 1];
              Valid(max, front) && Enabled(max, Exec(front), e) && Exec(run) == Apply(Exec(front), e)
  {
  }

  lemma BeginIs(max: int, s: State, e: Event)
    requires Enabled(max, s, e) && e.BeginClean?
    ensures InClean(Apply(s, e).phase) && Todo(Apply(s, e).phase) == e.entries
    ensures forall x :: x in e.entries ==> x.misses == Down(s, x.cid)
  {
  }

  lemma {:induction false} MissesSurvive(run: seq<Event>, b: nat, c: string)
    requires b <= |run|
    requires forall j :: b <= j < |run| ==> run[j] != Mark(c) && !Clears(run[j], c)
    ensures Misses(run, c) == Misses(run[..b], c)
  {
    if b < |run| {
      var front := run[..|run| - 1];
      MissesSurvive(front, b, c);
      assert front[..b] == run[..b];
      MissesAppend(front, run[|run| - 1], c);
      assert front + [run[|run| - 1]] == run;
    } else {
      assert run[..b] == run;
    }
  }

  lemma {:induction false} MissesStayCleared(run: seq<Event>, b: nat, j: nat, c: string)
    requires b <= j < |run| && Clears(run[j], c)
    requires forall i :: b <= i < |run| ==> run[i] != Mark(c)
    ensures Misses(run, c) == 0
  {
    var front, e := run[..|run| - 1], run[|run| - 1];
    assert front + [e] == run;
    MissesAppend(front, e, c);
    if j < |front| {
      MissesStayCleared(front, b, j, c);
    }
  }

  /** A contract is purged only if, when the clean pass began, it had more than
      `max` misses, recent or surviving, and at least one recent one.  When it is
      purged it still has more than `max` if and only if nothing cleared them
      since, such as an upload of the contract. */
  lemma PurgedOnlyAfterMisses(max: int, run: seq<Event>, k: nat, c: string) returns (b: nat)
    requires Valid(max, run) && k < |run| && run[k] == DropDowntime(c)
    ensures b < k && run[b].BeginClean? && forall j :: b < j < k ==> !run[j].BeginClean?
    ensures Misses(run[..b], c) == |Recent(run[..b], c)| + |Survivors(run[..b], c)| > max
    ensures max >= 0 ==> |Recent(run[..b], c)| > 0
    ensures Misses(run[..k], c) > max <==> max < 0 || forall j :: b <= j < k ==> !Clears(run[j], c)
  {
    hide *;
    ValidAt(max, run, k);
    var before := run[..k];
    var head := DropIsHead(max, Exec(before), c);
    b := CleanBegan(max, before);
    ValidAt(max, run, b);
    DowntimeSplits(max, run[..b], c);
    DowntimeCountsMisses(max, run[..b], c);
    assert before[..b] == run[..b];
    forall j | b <= j < k ensures before[j] == run[j] && before[j] != Mark(c) {
    }
    if forall j :: b <= j < k ==> !Clears(run[j], c) {
      MissesSurvive(before, b, c);
    } else {
      var j :| b <= j < k && Clears(run[j], c);
      MissesStayCleared(before, b, j, c);
    }
  }

  lemma DropIsHead(max: int, s: State, c: string) returns (head: Entry)
    requires Enabled(max, s, DropDowntime(c))
    ensures InClean(s.phase) && head in Todo(s.phase) && head.cid == c && head.misses > max
  {
    head := s.phase.todo[0];
  }

  /** If the resets overwritten before the pass were harmless, that is after more
      than `max` recorded NotFound visits since anything last cleared them. */
  lemma PurgedAfterRecentMisses(max: int, run: seq<Event>, k: nat, c: string) returns (b: nat)
    requires Valid(max, run) && k < |run| && run[k] == DropDowntime(c)
    ensures b < k && run[b].BeginClean? && forall j :: b < j < k ==> !run[j].BeginClean?
    ensures AllHarmless(run[..b], c) ==> |Recent(run[..b], c)| > max
  {
    hide Valid, AllHarmless, Misses, Recent, Survivors;
    b := PurgedOnlyAfterMisses(max, run, k, c);
    NoSurvivorsIffHarmless(run[..b], c);
  }

  /** An overwritten reset that is not harmless: whatever the limit above zero, a
      contract can be purged after one recorded visit since its last upload. */
  lemma PurgedByOverwrite(max: int, c: string, f: string) returns (run: seq<Event>, b: nat, k: nat)
    requires max >= 1
    ensures Valid(max, run) && b < k < |run| && run[b].BeginClean? && run[k] == DropDowntime(c)
    ensures |Recent(run[..b], c)| == 1 && !AllHarmless(run[..b], c)
  {
    hide *;
    var before := MarkedAfterReset(max, c, f);
    b, k := |before|, |before| + 1;
    DowntimeSplits(max, before, c);
    MissedDown(c, f, max + 1);
    NoSurvivorsIffHarmless(before, c);
    NextCleanSteps(max, c, f);
    run := Then(max, before, BeginClean([Entry(c, max + 1)]));
    run := Then(max, run, DropDowntime(c));
    assert run[..b] == before;
  }

  lemma MissedDown(c: string, f: string, n: int)
    ensures Down(Missed(c, f, n).(uploads := {Link(c, f)}), c) == n
  {
  }

  lemma MarkedAfterReset(max: int, c: string, f: string) returns (run: seq<Event>)
    requires max >= 1
    ensures Valid(max, run) && Exec(run) == Missed(c, f, max + 1).(uploads := {Link(c, f)})
    ensures |Recent(run, c)| == 1
  {
    run := MissedTimes(max, max, c, f);
    hide *;
    CleanSteps(max, max, c, f);
    VisitSteps(max, max, c, f);
    OverwriteSteps(max, c, f);
    NextCleanSteps(max, c, f);
    run := Then(max, run, BeginClean([Entry(c, max)]));
    run := Then(max, run, Keep(c));
    run := Then(max, run, BeginVisits([c]));
    run := Then(max, run, Visit(c, NotFound));
    ResetClears(c, f);
    RecentAppend(run, ResetDowntime(c, f), c);
    run := Then(max, run, ResetDowntime(c, f));
    RecentAppend(run, Mark(c), c);
    run := Then(max, run, Mark(c));
    RecentAppend(run, EndVisits, c);
    run := Then(max, run, EndVisits);
  }

  lemma ResetClears(c: string, f: string)
    ensures Clears(ResetDowntime(c, f), c) && !Clears(Mark(c), c) && !Clears(EndVisits, c)
  {
  }

  lemma RecentAppend(run: seq<Event>, e: Event, c: string)
    ensures |Recent(run + [e], c)| == if Clears(e, c) then 0 else |Recent(run, c)| + if e == Mark(c) then 1 else 0
  {
    assert |run| !in Recent(run, c);
    assert !Clears(Mark(c), c);
    var last := if e == Mark(c) then {|run|} else {};
    forall i ensures i in Recent(run + [e], c) <==> i in if Clears(e, c) then {} else Recent(run, c) + last {
      InRecentAppend(run, e, c, i);
    }
    hide Clears, Recent;
    assert Recent(run + [e], c) == if Clears(e, c) then {} else Recent(run, c) + last;
  }

  lemma InRecentAppend(run: seq<Event>, e: Event, c: string, i: int)
    ensures i in Recent(run + [e], c) <==>
            (i in Recent(run, c) && !Clears(e, c)) || (i == |run| && e == Mark(c))
  {
    hide Clears;
    var longer := run + [e];
    assert longer[|run|] == e && forall j :: 0 <= j < |run| ==> longer[j] == run[j];
  }

  /** The steps of an upload between the reading and the writing of the counter. */
  lemma OverwriteSteps(max: int, c: string, f: string)
    requires max >= 1
    ensures var reading := Missed(c, f, max).(phase := Marking(c, max, []));
            var reset := reading.(downtime := map[c := 0], uploads := {Link(c, f)});
            var marked := Missed(c, f, max + 1).(phase := Visiting([]), uploads := {Link(c, f)});
            && Enabled(max, reading, ResetDowntime(c, f)) && Apply(reading, ResetDowntime(c, f)) == reset
            && Enabled(max, reset, Mark(c)) && Apply(reset, Mark(c)) == marked
  {
    assert map[c := max][c := 0] == map[c := 0] && map[c := 0][c := max + 1] == map[c := max + 1];
  }

  /** And of the next shift. */
  lemma NextCleanSteps(max: int, c: string, f: string)
    requires max >= 1
    ensures var marked := Missed(c, f, max + 1).(phase := Visiting([]), uploads := {Link(c, f)});
            var idle := Missed(c, f, max + 1).(uploads := {Link(c, f)});
            var cleaning := idle.(phase := Cleaning([Entry(c, max + 1)]));
            && Enabled(max, marked, EndVisits) && Apply(marked, EndVisits) == idle
            && Enabled(max, idle, BeginClean([Entry(c, max + 1)]))
            && Apply(idle, BeginClean([Entry(c, max + 1)])) == cleaning
            && Enabled(max, cleaning, DropDowntime(c))
  {
  }

  /** The state of a provider that stores one contract with `n` misses. */
  function Missed(c: string, f: string, n: int): State {
    State(map[c := f], if n == 0 then map[] else map[c := n], {f}, Idle, {})
  }

  lemma {:induction false} MissedTimes(max: int, n: nat, c: string, f: string) returns (run: seq<Event>)
    requires n <= max + 1
    ensures Valid(max, run) && Exec(run) == Missed(c, f, n)
  {
    run := FirstMissed(max, c, f);
    run := MissMore(max, run, n, c, f);
  }

  lemma FirstMissed(max: int, c: string, f: string) returns (run: seq<Event>)
    ensures Valid(max, run) && Exec(run) == Missed(c, f, 0)
  {
    assert Valid(max, []) && Exec([]) == INIT;
    hide Valid, Exec;
    run := Then(max, [], StoreFile(f));
    run := Then(max, run, Insert(c, f, true));
  }

  /** A run can go on with `n` shifts in which the chain has no deal. */
  lemma {:induction false} MissMore(max: int, start: seq<Event>, n: nat, c: string, f: string)
    returns (run: seq<Event>)
    requires n <= max + 1 && Valid(max, start) && Exec(start) == Missed(c, f, 0)
    ensures Valid(max, run) && Exec(run) == Missed(c, f, n)
    ensures start <= run && Forsaken(run, |start|, c)
    ensures Count(run, Passes) == Count(start, Passes) + n && Count(run, Stops) == Count(start, Stops)
    ensures Count(run, Missing(c)) == Count(start, Missing(c)) + n && Count(run, Failing(c)) == Count(start, Failing(c))
  {
    hide *;
    if n == 0 {
      run := start;
      ForsakenFromEnd(run, c);
    } else {
      run := MissMore(max, start, n - 1, c, f);
      run := OneShift(max, run, |start|, n - 1, c, f);
    }
  }

  lemma OneShift(max: int, run: seq<Event>, i: nat, n: nat, c: string, f: string) returns (longer: seq<Event>)
    requires n <= max && Valid(max, run) && Exec(run) == Missed(c, f, n)
    requires i <= |run| && Forsaken(run, i, c)
    ensures Valid(max, longer) && Exec(longer) == Missed(c, f, n + 1)
    ensures run <= longer && Forsaken(longer, i, c)
    ensures Count(longer, Passes) == Count(run, Passes) + 1 && Count(longer, Stops) == Count(run, Stops)
    ensures Count(longer, Missing(c)) == Count(run, Missing(c)) + 1
    ensures Count(longer, Failing(c)) == Count(run, Failing(c))
  {
    hide *;
    CleanSteps(max, n, c, f);
    VisitSteps(max, n, c, f);
    MarkSteps(max, n, c, f);
    longer := ForsakenOn(max, run, BeginClean(if n == 0 then [] else [Entry(c, n)]), i, c);
    if n > 0 {
      longer := ForsakenOn(max, longer, Keep(c), i, c);
    }
    longer := ForsakenOn(max, longer, BeginVisits([c]), i, c);
    longer := ForsakenOn(max, longer, Visit(c, NotFound), i, c);
    longer := ForsakenOn(max, longer, Mark(c), i, c);
    longer := ForsakenOn(max, longer, EndVisits, i, c);
  }

  /** One more step in which the contract is neither found, uploaded nor purged. */
  lemma ForsakenOn(max: int, run: seq<Event>, e: Event, i: nat, c: string) returns (longer: seq<Event>)
    requires Valid(max, run) && Enabled(max, Exec(run), e)
    requires i <= |run| && Forsaken(run, i, c) && e != DropContract(c)
    requires e.ResetDowntime? ==> e.cid != c
    requires e.Visit? && e.cid == c ==> e.status.NotFound? || e.status.QueryError?
    ensures Valid(max, longer) && Exec(longer) == Apply(Exec(run), e)
    ensures run <= longer && Forsaken(longer, i, c)
    ensures Count(longer, Passes) == Count(run, Passes) + if e.BeginVisits? then 1 else 0
    ensures Count(longer, Stops) == Count(run, Stops) + if e.Stop? then 1 else 0
    ensures Count(longer, Missing(c)) == Count(run, Missing(c)) + if e == Visit(c, NotFound) then 1 else 0
    ensures Count(longer, Failing(c)) == Count(run, Failing(c)) + if e == Visit(c, QueryError) then 1 else 0
  {
    hide Valid, Exec, Count, Enabled, Apply, Forsaken;
    longer := Then(max, run, e);
    ForsakenThen(run, e, i, c);
  }

  lemma ForsakenFromEnd(run: seq<Event>, c: string)
    ensures Forsaken(run, |run|, c)
  {
  }

  lemma ForsakenThen(run: seq<Event>, e: Event, i: nat, c: string)
    requires i <= |run| && Forsaken(run, i, c) && e != DropContract(c)
    requires e.ResetDowntime? ==> e.cid != c
    requires e.Visit? && e.cid == c ==> e.status.NotFound? || e.status.QueryError?
    ensures Forsaken(run + [e], i, c)
  {
  }

  /** The clean pass of a shift with one contract within the limit. */
  lemma CleanSteps(max: int, n: nat, c: string, f: string)
    requires n <= max
    ensures var s := Missed(c, f, n);
            var entries := if n == 0 then [] else [Entry(c, n)];
            && Enabled(max, s, BeginClean(entries))
            && (n > 0 ==> Enabled(max, s.(phase := Cleaning(entries)), Keep(c)))
            && Apply(s, BeginClean(entries)) == s.(phase := Cleaning(entries))
            && Apply(s.(phase := Cleaning([Entry(c, n)])), Keep(c)) == s.(phase := Cleaning([]))
  {
    assert [Entry(c, n)][1..] == [];
  }

  /** Its visits, if the chain has no deal. */
  lemma VisitSteps(max: int, n: nat, c: string, f: string)
    ensures var s := Missed(c, f, n).(phase := Cleaning([]));
            var visiting := s.(phase := Visiting([c]));
            var reading := s.(phase := Marking(c, n, []));
            && Enabled(max, s, BeginVisits([c])) && Apply(s, BeginVisits([c])) == visiting
            && Enabled(max, visiting, Visit(c, NotFound)) && Apply(visiting, Visit(c, NotFound)) == reading
  {
    assert Missed(c, f, n).contracts.Keys == {c};
    assert [c][1..] == [];
  }

  lemma MarkSteps(max: int, n: nat, c: string, f: string)
    ensures var reading := Missed(c, f, n).(phase := Marking(c, n, []));
            var visited := Missed(c, f, n + 1).(phase := Visiting([]));
            && Enabled(max, reading, Mark(c)) && Apply(reading, Mark(c)) == visited
            && Enabled(max, visited, EndVisits) && Apply(visited, EndVisits) == Missed(c, f, n + 1)
  {
    assert map[c := n][c := n + 1] == map[c := n + 1];
  }

  lemma Then(max: int, run: seq<Event>, e: Event) returns (longer: seq<Event>)
    requires Valid(max, run) && Enabled(max, Exec(run), e)
    ensures longer == run + [e] && Valid(max, longer) && Exec(longer) == Apply(Exec(run), e)
    ensures forall kind :: Count(longer, kind) == Count(run, kind) + if Is(e, kind) then 1 else 0
  {
    longer := run + [e];
    Extend(max, run, e);
    assert longer[..|longer| - 1] == run;
  }

  /** Whatever the limit, an upload whose counter is reset after the clean pass
      took its snapshot can be purged without a miss. */
  lemma PurgedDespiteReset(max: int, c: string, f: string) returns (run: seq<Event>, k: nat)
    requires max >= 0
    ensures Valid(max, run) && k < |run| && run[k] == DropDowntime(c) && Misses(run[..k], c) == 0
  {
    run := MissedTimes(max, max + 1, c, f);
    hide Valid, Exec;
    run := Then(max, run, BeginClean([Entry(c, max + 1)]));
    run := Then(max, run, ResetDowntime(c, f));
    k := |run|;
    DowntimeCountsMisses(max, run, c);
    ghost var before := run;
    run := Then(max, run, DropDowntime(c));
    assert run[..k] == before && run[k] == DropDowntime(c);
  }

  // --------------------------------------------------------- the pass never aborts

  lemma {:induction false} NeverAborts(max: int, run: seq<Event>)
    requires Valid(max, run) && max >= 0
    ensures Abort !in run
  {
    if run != [] {
      var front, e := run[..|run| - 1], run[|run| - 1];
      NeverAborts(max, front);
      AlwaysInv(max, front);
      assert run == front + [e];
    }
  }

  lemma Extend(max: int, run: seq<Event>, e: Event)
    requires Valid(max, run) && Enabled(max, Exec(run), e)
    ensures Valid(max, run + [e]) && Exec(run + [e]) == Apply(Exec(run), e)
  {
    assert (run + [e])[..|run + [e]| - 1] == run;
  }

  /** With a negative limit, an upload stopped between its two writes leaves an
      entry on which the next clean pass stops. */
  lemma NegativeLimitAborts(max: int) returns (run: seq<Event>)
    requires max < 0
    ensures Valid(max, run) && Abort in run
  {
    var run1 := [ResetDowntime("c", "f")];
    var run2 := run1 + [Stop];
    var run3 := run2 + [BeginClean([Entry("c", 0)])];
    assert Valid(max, []) && Exec([]) == INIT;
    Extend(max, [], ResetDowntime("c", "f"));
    assert [] + run1 == run1;
    Extend(max, run1, Stop);
    assert Exec(run2) == INIT.(downtime := map["c" := 0]);
    Extend(max, run2, BeginClean([Entry("c", 0)]));
    Extend(max, run3, Abort);
    run := run3 + [Abort];
    assert run[3] == Abort;
  }

  /** A clean pass can stop on a missing contract exactly when the limit is negative. */
  lemma AbortsOnlyWithNegativeLimit(max: int)
    ensures (exists run :: Valid(max, run) && Abort in run) <==> max < 0
  {
    if max < 0 {
      var run := NegativeLimitAborts(max);
    }
    forall run | Valid(max, run) && Abort in run ensures max < 0 {
      if max >= 0 {
        NeverAborts(max, run);
      }
    }
  }

  // ------------------------------------------------- which directories are deleted

  predicate AddsReference(e: Event, f: string) {
    match e
    case FinishUpload(_, g, added) => g == f && added
    case Insert(_, g, added) => g == f && added
    case _ => false
  }

  /** While a directory waits to be deleted: its last contract was deleted at
      `p`, and it is referenced again exactly if a contract for it was added since. */
  lemma {:induction false} LastReferenceDropped(max: int, run: seq<Event>) returns (p: nat)
    requires Valid(max, run) && Exec(run).phase.Deleting?
    ensures p < |run| && run[p].DropContract?
    ensures forall j :: p < j < |run| ==> !run[j].DropContract?
    ensures var f := Exec(run).phase.fid;
            Referenced(Exec(run).contracts, f) <==> exists j :: p < j < |run| && AddsReference(run[j], f)
  {
    var front, e := run[..|run| - 1], run[|run| - 1];
    var f := Exec(run).phase.fid;
    if e.DropContract? {
      p := |run| - 1;
    } else {
      p := LastReferenceDropped(max, front);
      assert forall j :: 0 <= j < |front| ==> front[j] == run[j];
      ReferencesAfter(max, Exec(front), e, f);
      if AddsReference(e, f) {
        assert AddsReference(run[|run| - 1], f);
      }
    }
  }

  lemma ReferencesAfter(max: int, s: State, e: Event, f: string)
    requires Enabled(max, s, e) && !e.DropContract?
    ensures Referenced(Apply(s, e).contracts, f) <==> Referenced(s.contracts, f) || AddsReference(e, f)
  {
    var s' := Apply(s, e);
    if Referenced(s.contracts, f) {
      var c :| c in s.contracts && s.contracts[c] == f;
      assert s'.contracts[c] == f;
    }
    if AddsReference(e, f) {
      assert s'.contracts[e.cid] == f;
    }
  }

  /** A purge deletes the directory of a file that some contract refers to
      exactly when a contract for that file was added after the purge deleted
      the last one; if nothing is added in between, no referenced file is lost.
      Pruning never deletes a referenced file. */
  lemma DeletedDirsAreUnreferenced(max: int, run: seq<Event>, k: nat, f: string)
    requires Valid(max, run) && k < |run|
    ensures run[k] == Prune(f) ==> !Referenced(Exec(run[..k]).contracts, f)
    ensures run[k] == DeleteDir(f) ==>
              exists p {:trigger run[p]} :: 0 <= p < k && run[p].DropContract? &&
                (forall j :: p < j < k ==> !run[j].DropContract?) &&
                (Referenced(Exec(run[..k]).contracts, f) <==> exists j :: p < j < k && AddsReference(run[j], f))
  {
    ValidAt(max, run, k);
    if run[k] == DeleteDir(f) {
      var p := LastReferenceDropped(max, run[..k]);
      assert forall j :: 0 <= j < k ==> run[..k][j] == run[j];
      assert run[p].DropContract?;
    }
  }

  /** Whatever the limit, a directory whose file is referenced can be deleted: a
      contract for it is added between a purge's last two writes. */
  lemma ReferencedDirDeleted(max: int, c: string, d: string, f: string) returns (run: seq<Event>, k: nat)
    requires max >= 0 && c != d
    ensures Valid(max, run) && k < |run| && run[k] == DeleteDir(f)
    ensures f in Exec(run[..k]).dirs && Referenced(Exec(run[..k]).contracts, f)
  {
    run := MissedTimes(max, max + 1, c, f);
    hide *;
    StoppedSteps(max, c, f);
    DeleteSteps(max, c, d, f);
    run := Then(max, run, BeginClean([Entry(c, max + 1)]));
    run := Then(max, run, DropDowntime(c));
    run := Then(max, run, DropContract(c));
    run := Then(max, run, Insert(d, f, true));
    k := |run|;
    ghost var before := run;
    run := Then(max, run, DeleteDir(f));
    assert run[..k] == before && run[k] == DeleteDir(f);
  }

  lemma DeleteSteps(max: int, c: string, d: string, f: string)
    requires c != d
    ensures var dropping := Missed(c, f, 0).(phase := Dropping(c, f, []));
            var deleting := State(map[], map[], {f}, Deleting(f, []), {});
            var added := deleting.(contracts := map[d := f]);
            && Enabled(max, dropping, DropContract(c)) && Apply(dropping, DropContract(c)) == deleting
            && Enabled(max, deleting, Insert(d, f, true)) && Apply(deleting, Insert(d, f, true)) == added
            && Enabled(max, added, DeleteDir(f)) && f in added.dirs && Referenced(added.contracts, f)
  {
    assert map[c := f] - {c} == map[];
    assert map[d := f][d] == f;
  }

  // ------------------------------------------------------------- bounded purge

  /** What is counted in a run: visiting passes, stops, and a contract's visits that
      find no deal or get no answer. */
  datatype Kind = Passes | Stops | Missing(cid: string) | Failing(cid: string)

  predicate Is(e: Event, kind: Kind) {
    match kind
    case Passes => e.BeginVisits?
    case Stops => e.Stop?
    case Missing(c) => e == Visit(c, NotFound)
    case Failing(c) => e == Visit(c, QueryError)
  }

  function Count(run: seq<Event>, kind: Kind): nat {
    if run == [] then 0
    else Count(run[..|run| - 1], kind) + if Is(run[|run| - 1], kind) then 1 else 0
  }

  /** How many come at or after position `i`. */
  function Since(run: seq<Event>, i: nat, kind: Kind): int
    requires i <= |run|
  {
    Count(run, kind) - Count(run[..i], kind)
  }

  lemma SinceStart(run: seq<Event>, kind: Kind)
    ensures Since(run, |run|, kind) == 0
  {
    assert run[..|run|] == run;
  }

  lemma SinceStep(run: seq<Event>, i: nat, kind: Kind)
    requires i < |run|
    ensures Since(run, i, kind) == Since(run[..|run| - 1], i, kind) + if Is(run[|run| - 1], kind) then 1 else 0
  {
    assert run[..|run| - 1][..i] == run[..i];
  }

  lemma {:induction false} SinceNone(run: seq<Event>, i: nat, kind: Kind)
    requires i <= |run|
    ensures Since(run, i, kind) >= 0
    ensures (forall j :: i <= j < |run| ==> !Is(run[j], kind)) ==> Since(run, i, kind) == 0
  {
    if i < |run| {
      SinceNone(run[..|run| - 1], i, kind);
      SinceStep(run, i, kind);
    } else {
      SinceStart(run, kind);
    }
  }

  /** From `i` on, the contract is not re-uploaded and no visit finds its deal. */
  predicate NeverFound(run: seq<Event>, i: nat, c: string) {
    forall j :: i <= j < |run| ==>
      && (run[j].ResetDowntime? ==> run[j].cid != c)
      && (run[j].Visit? && run[j].cid == c ==> run[j].status.NotFound? || run[j].status.QueryError?)
  }

  /** Nor is it purged. */
  predicate Forsaken(run: seq<Event>, i: nat, c: string) {
    NeverFound(run, i, c) && forall j :: i <= j < |run| ==> run[j] != DropContract(c)
  }

  /** Whether its counter has been read and is about to be written. */
  predicate Begun(s: State, c: string) {
    s.phase.Marking? && s.phase.cid == c
  }

  /** Whether its visit in the current pass is not finished. */
  predicate Pending(s: State, c: string) {
    (s.phase.Visiting? && c in s.phase.cids) || (s.phase.Marking? && (s.phase.cid == c || c in s.phase.cids))
  }

  function One(b: bool): int {
    if b then 1 else 0
  }

  lemma ForsakenStep(max: int, s: State, e: Event, c: string)
    requires max >= 0 && Inv(max, s) && Enabled(max, s, e) && c in s.contracts
    requires Forsaken([e], 0, c) && !e.Stop?
    requires s.phase.Dropping? ==> s.phase.cid != c
    requires e != DropDowntime(c)
    ensures c in Apply(s, e).contracts
    ensures var s' := Apply(s, e);
            && Down(s', c) + One(Pending(s', c)) >=
               Down(s, c) + One(Pending(s, c)) + One(Is(e, Passes)) - One(Is(e, Failing(c)))
            && Down(s', c) + One(Begun(s', c)) >= Down(s, c) + One(Begun(s, c)) + One(Is(e, Missing(c)))
  {
    assert [e][0] == e;
    if s.phase.Visiting? && s.phase.cids != [] {
      assert s.phase.cids == [s.phase.cids[0]] + s.phase.cids[1..];
    }
  }

  lemma StopCosts(stops: nat, w: nat)
    ensures (stops + 1) * w == stops * w + w
  {
  }

  /** Answered passes, and missing visits, are paid for by the counter and by stops;
      and neither exceeds one full count more than there were stops. */
  predicate WithinBound(max: int, s: State, c: string, answered: int, missing: int, stops: int) {
    && ((s.phase.Dropping? && s.phase.cid == c) ||
        (answered <= stops * (max + 1) + Down(s, c) + One(Pending(s, c)) &&
         missing <= stops * (max + 1) + Down(s, c) + One(Begun(s, c))))
    && answered <= (stops + 1) * (max + 1)
    && missing <= (stops + 1) * (max + 1)
  }

  lemma BoundStep(max: int, s: State, e: Event, c: string, answered: int, missing: int, stops: nat)
    requires max >= 0 && Inv(max, s) && Enabled(max, s, e) && c in s.contracts
    requires Forsaken([e], 0, c) && e != DropContract(c) && WithinBound(max, s, c, answered, missing, stops)
    ensures c in Apply(s, e).contracts
    ensures WithinBound(max, Apply(s, e), c, answered + One(Is(e, Passes)) - One(Is(e, Failing(c))),
                        missing + One(Is(e, Missing(c))), stops + One(Is(e, Stops)))
  {
    hide Inv, Apply, Enabled, Forsaken, Pending, Begun, Down;
    StepKeepsInv(max, s, e);
    DownLimit(max, Apply(s, e), c);
    DownLimit(max, s, c);
    StopCosts(stops, max + 1);
    StopCosts(stops + 1, max + 1);
    if e.Stop? {
      StopKeeps(s, c);
    } else if (s.phase.Dropping? && s.phase.cid == c) || e == DropDowntime(c) {
      DroppingStep(max, s, e, c);
    } else {
      ForsakenStep(max, s, e, c);
    }
  }

  lemma BoundAtStart(max: int, s: State, c: string)
    requires max >= 0 && Inv(max, s)
    ensures WithinBound(max, s, c, 0, 0, 0)
  {
    DownLimit(max, s, c);
  }

  /** How often a forsaken contract can be found missing, and how many visiting
      passes that get an answer for it can begin.  Every such visit adds a miss, and
      one more than `max` misses start a purge; a stop in the middle of the purge
      loses the count, but never the contract. */
  lemma {:induction false} ForsakenVisits(max: int, run: seq<Event>, i: nat, c: string)
    requires max >= 0 && Valid(max, run) && i <= |run|
    requires c in Exec(run[..i]).contracts && Forsaken(run, i, c)
    ensures c in Exec(run).contracts
    ensures WithinBound(max, Exec(run), c, Since(run, i, Passes) - Since(run, i, Failing(c)),
                        Since(run, i, Missing(c)), Since(run, i, Stops))
    ensures Since(run, i, Missing(c)) <= (Since(run, i, Stops) + 1) * (max + 1)
    ensures Since(run, i, Passes) - Since(run, i, Failing(c)) <= (Since(run, i, Stops) + 1) * (max + 1)
    decreases |run|
  {
    hide Inv, Apply, Enabled, Forsaken, WithinBound, Since;
    SinceNone(run, i, Stops);
    if i == |run| {
      assert run[..i] == run;
      SinceStart(run, Passes);
      SinceStart(run, Stops);
      SinceStart(run, Missing(c));
      SinceStart(run, Failing(c));
      AlwaysInv(max, run);
      BoundAtStart(max, Exec(run), c);
    } else {
      var front, e := run[..|run| - 1], run[|run| - 1];
      assert front[..i] == run[..i];
      SinceStep(run, i, Passes);
      SinceStep(run, i, Stops);
      SinceStep(run, i, Missing(c));
      SinceStep(run, i, Failing(c));
      SinceNone(front, i, Stops);
      ForsakenFront(run, i, c);
      AlwaysInv(max, front);
      ForsakenVisits(max, front, i, c);
      BoundStep(max, Exec(front), e, c, Since(front, i, Passes) - Since(front, i, Failing(c)),
                Since(front, i, Missing(c)), Since(front, i, Stops));
    }
    BoundMeans(max, Exec(run), c, Since(run, i, Passes) - Since(run, i, Failing(c)),
               Since(run, i, Missing(c)), Since(run, i, Stops));
  }

  lemma BoundMeans(max: int, s: State, c: string, answered: int, missing: int, stops: int)
    requires WithinBound(max, s, c, answered, missing, stops)
    ensures answered <= (stops + 1) * (max + 1) && missing <= (stops + 1) * (max + 1)
  {
  }

  lemma ForsakenFront(run: seq<Event>, i: nat, c: string)
    requires i < |run| && Forsaken(run, i, c)
    ensures var front, e := run[..|run| - 1], run[|run| - 1];
            Forsaken(front, i, c) && Forsaken([e], 0, c) && e != DropContract(c)
  {
    var front, e := run[..|run| - 1], run[|run| - 1];
    assert [e][0] == e && forall j :: 0 <= j < |front| ==> front[j] == run[j];
  }

  lemma DownLimit(max: int, s: State, c: string)
    requires max >= 0 && Inv(max, s)
    ensures 0 <= Down(s, c) && Down(s, c) + One(Pending(s, c)) <= max + 1
    ensures Begun(s, c) ==> Pending(s, c)
  {
  }

  lemma StopKeeps(s: State, c: string)
    ensures Apply(s, Stop).contracts == s.contracts && Down(Apply(s, Stop), c) == Down(s, c)
    ensures Apply(s, Stop).phase.Idle? && !Pending(Apply(s, Stop), c) && !Begun(Apply(s, Stop), c)
  {
  }

  lemma DroppingStep(max: int, s: State, e: Event, c: string)
    requires Inv(max, s) && Enabled(max, s, e) && c in s.contracts
    requires !e.Stop? && e != DropContract(c)
    requires (s.phase.Dropping? && s.phase.cid == c) || e == DropDowntime(c)
    ensures c in Apply(s, e).contracts && !e.BeginVisits? && e != Visit(c, NotFound)
    ensures Apply(s, e).phase.Dropping? && Apply(s, e).phase.cid == c
  {
  }

  /** A contract that no visit finds any more is purged, however often the process
      stops and queries fail, once it has been found missing too often or too many
      passes that got an answer have begun: each stop allows `max + 1` more. */
  lemma PurgedWithinLimit(max: int, run: seq<Event>, i: nat, c: string)
    requires max >= 0 && Valid(max, run) && i <= |run| && c in Exec(run[..i]).contracts
    requires NeverFound(run, i, c)
    requires var limit := (Since(run, i, Stops) + 1) * (max + 1);
             Since(run, i, Missing(c)) > limit || Since(run, i, Passes) - Since(run, i, Failing(c)) > limit
    ensures exists j :: i <= j < |run| && run[j] == DropContract(c)
  {
    if forall j :: i <= j < |run| ==> run[j] != DropContract(c) {
      ForsakenVisits(max, run, i, c);
      assert false;
    }
  }

  /** Without a stop and a failed query, it is purged by the clean pass before the
      visits of shift `max + 2`. */
  lemma PurgedByShift(max: int, run: seq<Event>, i: nat, c: string)
    requires max >= 0 && Valid(max, run) && i <= |run| && c in Exec(run[..i]).contracts
    requires NeverFound(run, i, c)
    requires forall j :: i <= j < |run| ==> !run[j].Stop? && run[j] != Visit(c, QueryError)
    requires Since(run, i, Passes) >= max + 2
    ensures exists j :: i <= j < |run| && run[j] == DropContract(c)
  {
    SinceNone(run, i, Stops);
    SinceNone(run, i, Failing(c));
    PurgedWithinLimit(max, run, i, c);
  }

  /** The bound is reached: with stops in the middle of its purges, a contract can
      survive exactly that many visits without ever being found. */
  lemma {:induction false} SurvivesStops(max: int, stops: nat, c: string, f: string)
    returns (run: seq<Event>, i: nat)
    requires max >= 0
    ensures Valid(max, run) && i <= |run| && c in Exec(run[..i]).contracts && Forsaken(run, i, c)
    ensures Since(run, i, Stops) == stops && Since(run, i, Failing(c)) == 0
    ensures Since(run, i, Passes) == Since(run, i, Missing(c)) == (stops + 1) * (max + 1)
    ensures Exec(run) == Missed(c, f, max + 1)
  {
    hide *;
    if stops == 0 {
      var first := FirstMissed(max, c, f);
      i := |first|;
      run := MissMore(max, first, max + 1, c, f);
      assert run[..i] == first;
      MissedIsThere(c, f);
      StopCosts(0, max + 1);
      SinceIs(run, i);
    } else {
      run, i := SurvivesStops(max, stops - 1, c, f);
      var before := run;
      var longer := StoppedPurge(max, run, i, c, f);
      run := MissMore(max, longer, max + 1, c, f);
      StopCosts(stops, max + 1);
      PrefixOf(before, longer, run, i);
      ForsakenJoins(longer, run, i, c);
      SinceIs(before, i);
      SinceIs(run, i);
    }
  }

  lemma SinceIs(run: seq<Event>, i: nat)
    requires i <= |run|
    ensures forall kind :: Since(run, i, kind) == Count(run, kind) - Count(run[..i], kind)
  {
  }

  lemma MissedIsThere(c: string, f: string)
    ensures c in Missed(c, f, 0).contracts
  {
  }

  lemma PrefixOf(a: seq<Event>, b: seq<Event>, run: seq<Event>, i: nat)
    requires i <= |a| && a <= b <= run
    ensures run[..i] == a[..i] && i <= |b| && i <= |run|
  {
  }

  lemma ForsakenJoins(front: seq<Event>, run: seq<Event>, i: nat, c: string)
    requires i <= |front| && front <= run && Forsaken(front, i, c) && Forsaken(run, |front|, c)
    ensures Forsaken(run, i, c)
  {
    assert forall j :: 0 <= j < |front| ==> run[j] == front[j];
  }

  /** A purge that a stop cuts short after its first write: the contract is there,
      and its misses are gone. */
  lemma StoppedPurge(max: int, run: seq<Event>, i: nat, c: string, f: string) returns (longer: seq<Event>)
    requires max >= 0 && Valid(max, run) && Exec(run) == Missed(c, f, max + 1)
    requires i <= |run| && Forsaken(run, i, c)
    ensures Valid(max, longer) && Exec(longer) == Missed(c, f, 0)
    ensures run <= longer && Forsaken(longer, i, c)
    ensures Count(longer, Stops) == Count(run, Stops) + 1 && Count(longer, Passes) == Count(run, Passes)
    ensures Count(longer, Missing(c)) == Count(run, Missing(c)) && Count(longer, Failing(c)) == Count(run, Failing(c))
  {
    hide *;
    StoppedSteps(max, c, f);
    longer := ForsakenOn(max, run, BeginClean([Entry(c, max + 1)]), i, c);
    longer := ForsakenOn(max, longer, DropDowntime(c), i, c);
    longer := ForsakenOn(max, longer, Stop, i, c);
  }

  lemma StoppedSteps(max: int, c: string, f: string)
    requires max >= 0
    ensures var s := Missed(c, f, max + 1);
            var cleaning := s.(phase := Cleaning([Entry(c, max + 1)]));
            var dropping := Missed(c, f, 0).(phase := Dropping(c, f, []));
            && Enabled(max, s, BeginClean([Entry(c, max + 1)])) && Apply(s, BeginClean([Entry(c, max + 1)])) == cleaning
            && Enabled(max, cleaning, DropDowntime(c)) && Apply(cleaning, DropDowntime(c)) == dropping
            && Enabled(max, dropping, Stop) && Apply(dropping, Stop) == Missed(c, f, 0)
  {
    assert [Entry(c, max + 1)][1..] == [] && map[c := max + 1] - {c} == map[];
  }
}
