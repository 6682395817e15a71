/** The stray hands under interleaving: the manager hands out strays one hand at
    a time while any number of `Process` goroutines run.  Every step reads the
    hand's stray as it is then. */
module HandMachine {
  import opened Wrappers

  datatype Stray = Stray(cid: string, fid: string)

  datatype Stage = Entered | Ready | ToRecord | Finished | HalfReleased

  /** A running `Process` that has passed its guard. */
  datatype Proc = Proc(entry: Stray, stage: Stage)

  datatype Hand = Hand(stray: Option<Stray>, busy: bool, procs: seq<Proc>)

  datatype Note = Note(hand: nat, stray: Stray)

  datatype State = State(
    hands: seq<Hand>, pile: seq<Stray>, files: set<string>,
    obtained: seq<Note>, // files found on disk or downloaded for a stray
    claims: seq<Note>,   // successful claims
    records: seq<Note>,  // contracts written to the index
    panicked: bool)      // a step used the stray of a hand that had none

  datatype Event =
    | Collect(pile: seq<Stray>)
    | RemoveFile(fid: string) // by a purge or by pruning
    | Assign(i: nat)
    | Enter(i: nat)
    | LocalCheck(i: nat, p: nat)
    | Download(i: nat, p: nat, ok: bool, written: bool) // a failed one may leave a file
    | GiveUp(i: nat, p: nat)
    | Claim(i: nat, p: nat, ok: bool)
    | Record(i: nat, p: nat)
    | ReleaseStray(i: nat, p: nat)
    | ReleaseBusy(i: nat, p: nat)

  predicate At(s: State, i: nat, p: nat, stage: Stage) {
    i < |s.hands| && p < |s.hands[i].procs| && s.hands[i].procs[p].stage == stage
  }

  predicate Enabled(s: State, e: Event) {
    match e
    case Collect(_) => true
    case RemoveFile(_) => true
    case Assign(i) => i < |s.hands|
    case Enter(i) => i < |s.hands|
    case LocalCheck(i, p) => At(s, i, p, Entered)
    case Download(i, p, _, _) => At(s, i, p, Entered)
    case GiveUp(i, p) => At(s, i, p, Entered)
    case Claim(i, p, _) => At(s, i, p, Ready)
    case Record(i, p) => At(s, i, p, ToRecord)
    case ReleaseStray(i, p) => At(s, i, p, Finished)
    case ReleaseBusy(i, p) => At(s, i, p, HalfReleased)
  }

  function WithStage(s: State, i: nat, p: nat, stage: Stage): State
    requires i < |s.hands| && p < |s.hands[i].procs|
  {
    var h := s.hands[i];
    s.(hands := s.hands[i := h.(procs := h.procs[p := h.procs[p].(stage := stage)])])
  }

  /** An event that its hand or process is not ready for changes nothing. */
  function Apply(s: State, e: Event): State {
    if Enabled(s, e) then Step(s, e) else s
  }

  function Step(s: State, e: Event): State
    requires Enabled(s, e)
  {
    match e
    case Collect(pile) => s.(pile := pile)
    case RemoveFile(fid) => s.(files := s.files - {fid})
    case Assign(i) =>
      if s.hands[i].stray.None? && s.pile != []
      then s.(hands := s.hands[i := s.hands[i].(stray := Some(s.pile[0]))], pile := s.pile[1..])
      else s
    case Enter(i) => // the guard: a stray, and not busy
      var h := s.hands[i];
      if h.stray.Some? && !h.busy
      then s.(hands := s.hands[i := h.(busy := true, procs := h.procs + [Proc(h.stray.value, Entered)])])
      else s
    case LocalCheck(i, p) =>
      if s.hands[i].stray.None? then s.(panicked := true)
      else if s.hands[i].stray.value.fid in s.files
      then WithStage(s.(obtained := s.obtained + [Note(i, s.hands[i].stray.value)]), i, p, Ready)
      else WithStage(s, i, p, Finished)
    case Download(i, p, ok, written) =>
      if s.hands[i].stray.None? then s.(panicked := true)
      else
        var x := s.hands[i].stray.value;
        var s' := s.(files := s.files + if ok || written then {x.fid} else {});
        if ok then WithStage(s'.(obtained := s.obtained + [Note(i, x)]), i, p, Ready)
        else WithStage(s', i, p, Finished)
    case GiveUp(i, p) => WithStage(s, i, p, Finished)
    case Claim(i, p, ok) =>
      if s.hands[i].stray.None? then s.(panicked := true)
      else if ok then WithStage(s.(claims := s.claims + [Note(i, s.hands[i].stray.value)]), i, p, ToRecord)
      else WithStage(s, i, p, Finished)
    case Record(i, p) =>
      if s.hands[i].stray.None? then s.(panicked := true)
      else WithStage(s.(records := s.records + [Note(i, s.hands[i].stray.value)]), i, p, Finished)
    case ReleaseStray(i, p) =>
      var s' := s.(hands := s.hands[i := s.hands[i].(stray := None)]);
      WithStage(s', i, p, HalfReleased)
    case ReleaseBusy(i, p) =>
      var h := s.hands[i];
      s.(hands := s.hands[i := h.(busy := false, procs := h.procs[..p] + h.procs[p + 1..])])
  }

  /** A hand has at most one process, which is why it is busy, and keeps the
      process's stray until the process releases it. */
  predicate HandOk(s: State, i: nat)
    requires i < |s.hands|
  {
    var h := s.hands[i];
    && |h.procs| == (if h.busy then 1 else 0)
    && (h.busy && h.procs[0].stage != HalfReleased ==> h.stray == Some(h.procs[0].entry))
  }

  /** Whether the note's hand runs a process for its stray at the given stage. */
  predicate Working(s: State, n: Note, stage: Stage) {
    n.hand < |s.hands| && s.hands[n.hand].procs == [Proc(n.stray, stage)]
  }

  function Count(notes: seq<Note>, n: Note): nat {
    multiset(notes)[n]
  }

  /** Each claim was made after the file had been obtained for it, and each
      contract was written after a claim of its own. */
  predicate Accounted(s: State, n: Note) {
    && Count(s.claims, n) + (if Working(s, n, Ready) then 1 else 0) <= Count(s.obtained, n)
    && Count(s.records, n) + (if Working(s, n, ToRecord) then 1 else 0) <= Count(s.claims, n)
  }

  ghost predicate Inv(s: State) {
    && !s.panicked
    && (forall i :: 0 <= i < |s.hands| ==> HandOk(s, i))
    && (forall n :: Accounted(s, n))
  }

  lemma StepKeepsHands(s: State, e: Event)
    requires Inv(s)
    ensures var s' := Apply(s, e);
            !s'.panicked && |s'.hands| == |s.hands| && forall i :: 0 <= i < |s.hands| ==> HandOk(s', i)
  {
    hide Accounted;
    var s' := Apply(s, e);
    if Enabled(s, e) && !e.Collect? && !e.RemoveFile? {
      assert HandOk(s, e.i);
    }
    forall i | 0 <= i < |s.hands| ensures HandOk(s', i) {
      assert HandOk(s, i);
    }
  }

  /** Hand i runs one process, which is at the given stage. */
  function Lone(s: State, i: nat, x: Stray, stage: Stage): State
    requires i < |s.hands|
  {
    s.(hands := s.hands[i := Hand(Some(x), true, [Proc(x, stage)])])
  }

  lemma EnterEffect(s: State, i: nat)
    requires i < |s.hands| && s.hands[i].stray.Some? && !s.hands[i].busy && HandOk(s, i)
    ensures Apply(s, Enter(i)) == Lone(s, i, s.hands[i].stray.value, Entered)
  {
    var x := s.hands[i].stray.value;
    assert s.hands[i].procs + [Proc(x, Entered)] == [Proc(x, Entered)];
  }

  lemma FetchEffect(s: State, i: nat, x: Stray, fetch: Event)
    requires i < |s.hands|
    requires fetch.LocalCheck? || fetch.GiveUp? || fetch.Download?
    requires fetch.i == i && fetch.p == 0
    ensures var written := fetch.Download? && (fetch.ok || fetch.written);
            var ready := (fetch.Download? && fetch.ok) || (fetch.LocalCheck? && x.fid in s.files);
            Apply(Lone(s, i, x, Entered), fetch) ==
            Lone(s.(files := s.files + (if written then {x.fid} else {}),
                    obtained := s.obtained + if ready then [Note(i, x)] else []),
                 i, x, if ready then Ready else Finished)
  {
    var l := Lone(s, i, x, Entered);
    assert l.hands[i].procs[0 := Proc(x, Ready)] == [Proc(x, Ready)];
    assert l.hands[i].procs[0 := Proc(x, Finished)] == [Proc(x, Finished)];
    assert s.files + {} == s.files && s.obtained + [] == s.obtained;
  }

  lemma ClaimEffect(s: State, i: nat, x: Stray, ok: bool)
    requires i < |s.hands|
    ensures Apply(Lone(s, i, x, Ready), Claim(i, 0, ok)) ==
            if ok then Lone(s.(claims := s.claims + [Note(i, x)]), i, x, ToRecord) else Lone(s, i, x, Finished)
  {
    var l := Lone(s, i, x, Ready);
    assert l.hands[i].procs[0 := Proc(x, ToRecord)] == [Proc(x, ToRecord)];
    assert l.hands[i].procs[0 := Proc(x, Finished)] == [Proc(x, Finished)];
  }

  lemma RecordEffect(s: State, i: nat, x: Stray)
    requires i < |s.hands|
    ensures Apply(Lone(s, i, x, ToRecord), Record(i, 0)) ==
            Lone(s.(records := s.records + [Note(i, x)]), i, x, Finished)
  {
    var l := Lone(s, i, x, ToRecord);
    assert l.hands[i].procs[0 := Proc(x, Finished)] == [Proc(x, Finished)];
  }

  lemma ReleaseEffect(s: State, i: nat, x: Stray)
    requires i < |s.hands|
    ensures Apply(Apply(Lone(s, i, x, Finished), ReleaseStray(i, 0)), ReleaseBusy(i, 0)) ==
            s.(hands := s.hands[i := Hand(None, false, [])])
  {
    var l := Lone(s, i, x, Finished);
    var half := Apply(l, ReleaseStray(i, 0));
    assert half.hands == s.hands[i := Hand(None, true, [Proc(x, HalfReleased)])] by {
      assert l.hands[i].procs[0 := Proc(x, HalfReleased)] == [Proc(x, HalfReleased)];
    }
    assert half.hands[i].procs[..0] + half.hands[i].procs[1..] == [];
    assert half.hands[i := Hand(None, false, [])] == s.hands[i := Hand(None, false, [])];
  }

  // ---------------------------------------------------------- what every step keeps

  /** A hand with a process that has not released its stray. */
  lemma IsLone(s: State, i: nat, p: nat, stage: Stage)
    requires i < |s.hands| && HandOk(s, i) && At(s, i, p, stage) && stage != HalfReleased
    ensures p == 0 && s.hands[i].stray.Some? && s == Lone(s, i, s.hands[i].stray.value, stage)
  {
    var x := s.hands[i].stray.value;
    assert s.hands[i].procs == [Proc(x, stage)];
    assert s.hands[i := s.hands[i]] == s.hands;
  }

  lemma LoneAccounted(s: State, i: nat, x: Stray, stage: Stage, n: Note)
    requires i < |s.hands|
    ensures Working(Lone(s, i, x, stage), n, Ready) <==>
            if n.hand == i then n.stray == x && stage == Ready else Working(s, n, Ready)
    ensures Working(Lone(s, i, x, stage), n, ToRecord) <==>
            if n.hand == i then n.stray == x && stage == ToRecord else Working(s, n, ToRecord)
  {
    assert [Proc(x, stage)][0] == Proc(x, stage);
  }

  lemma CountAppend(notes: seq<Note>, last: Note, n: Note)
    ensures Count(notes + [last], n) == Count(notes, n) + if last == n then 1 else 0
    ensures Count(notes + [], n) == Count(notes, n)
  {
    assert notes + [] == notes;
  }

  /** Moving a process on, with a note added for what it has done. */
  lemma MovedAccounted(s: State, s': State, i: nat, x: Stray, stage: Stage, stage': Stage, n: Note)
    requires i < |s.hands| && s'.hands == s.hands && Accounted(Lone(s, i, x, stage), n)
    requires var note := Note(i, x);
             || (s'.obtained == s.obtained + [note] && s'.claims == s.claims && s'.records == s.records &&
                 stage == Entered && stage' == Ready)
             || (s'.obtained == s.obtained && s'.claims == s.claims + [note] && s'.records == s.records &&
                 stage == Ready && stage' == ToRecord)
             || (s'.obtained == s.obtained && s'.claims == s.claims && s'.records == s.records + [note] &&
                 stage == ToRecord && stage' == Finished)
             || (s'.obtained == s.obtained && s'.claims == s.claims && s'.records == s.records &&
                 stage' == Finished)
    ensures Accounted(Lone(s', i, x, stage'), n)
  {
    CountAppend(s.obtained, Note(i, x), n);
    CountAppend(s.claims, Note(i, x), n);
    CountAppend(s.records, Note(i, x), n);
    LoneAccounted(s, i, x, stage, n);
    LoneAccounted(s', i, x, stage', n);
    hide Count, Lone;
    assert forall q :: Working(s, n, q) <==> Working(s', n, q);
  }

  /** The steps of a process that has its stray. */
  lemma ProcessKeepsAccounts(s: State, e: Event, n: Note)
    requires Inv(s) && Enabled(s, e)
    requires e.LocalCheck? || e.Download? || e.GiveUp? || e.Claim? || e.Record?
    ensures Accounted(Apply(s, e), n)
  {
    var i, stage := e.i, s.hands[e.i].procs[e.p].stage;
    assert Accounted(s, n) && HandOk(s, i);
    IsLone(s, i, e.p, stage);
    hide Inv, Accounted, Apply, Lone;
    var x := s.hands[i].stray.value;
    var note := [Note(i, x)];
    if e.Claim? {
      ClaimEffect(s, i, x, e.ok);
      MovedAccounted(s, if e.ok then s.(claims := s.claims + note) else s, i, x, Ready,
                     if e.ok then ToRecord else Finished, n);
    } else if e.Record? {
      RecordEffect(s, i, x);
      MovedAccounted(s, s.(records := s.records + note), i, x, ToRecord, Finished, n);
    } else {
      FetchEffect(s, i, x, e);
      var written := e.Download? && (e.ok || e.written);
      var ready := (e.Download? && e.ok) || (e.LocalCheck? && x.fid in s.files);
      var s1 := s.(files := s.files + (if written then {x.fid} else {}),
                   obtained := s.obtained + if ready then note else []);
      assert s.obtained + [] == s.obtained;
      MovedAccounted(s, s1, i, x, Entered, if ready then Ready else Finished, n);
    }
  }

  /** The other steps leave a hand's processes alone, or one that only begins or ends. */
  lemma OtherProcs(s: State, e: Event, k: nat)
    requires Inv(s) && Enabled(s, e) && k < |s.hands|
    requires !(e.LocalCheck? || e.Download? || e.GiveUp? || e.Claim? || e.Record?)
    ensures |Apply(s, e).hands| == |s.hands|
    ensures var procs := Apply(s, e).hands[k].procs;
            || procs == s.hands[k].procs || procs == []
            || (|procs| == 1 && (procs[0].stage == Entered || procs[0].stage == HalfReleased))
  {
    assert HandOk(s, k);
    if e.ReleaseBusy? && e.i == k {
      assert s.hands[k].procs[..e.p] + s.hands[k].procs[e.p + 1..] == [];
    }
  }

  /** So they move no stray's claim on. */
  lemma OtherKeepsAccounts(s: State, e: Event, n: Note)
    requires Inv(s) && Enabled(s, e)
    requires !(e.LocalCheck? || e.Download? || e.GiveUp? || e.Claim? || e.Record?)
    ensures Accounted(Apply(s, e), n)
  {
    assert Accounted(s, n);
    var s' := Apply(s, e);
    assert s'.obtained == s.obtained && s'.claims == s.claims && s'.records == s.records && |s'.hands| == |s.hands|;
    hide Inv, Apply, Enabled, Count;
    if n.hand < |s.hands| {
      OtherProcs(s, e, n.hand);
      assert [Proc(n.stray, Ready)][0].stage == Ready && [Proc(n.stray, ToRecord)][0].stage == ToRecord;
    }
  }

  lemma StepKeepsAccounts(s: State, e: Event, n: Note)
    requires Inv(s)
    ensures Accounted(Apply(s, e), n)
  {
    if !Enabled(s, e) {
      assert Accounted(s, n);
    } else if e.LocalCheck? || e.Download? || e.GiveUp? || e.Claim? || e.Record? {
      ProcessKeepsAccounts(s, e, n);
    } else {
      OtherKeepsAccounts(s, e, n);
    }
  }

  lemma StepKeepsInv(s: State, e: Event)
    requires Inv(s)
    ensures Inv(Apply(s, e)) && |Apply(s, e).hands| == |s.hands|
  {
    hide Apply, Accounted, HandOk;
    StepKeepsHands(s, e);
    forall n ensures Accounted(Apply(s, e), n) {
      StepKeepsAccounts(s, e, n);
    }
  }

  /** A stray leaves a hand only when the process that entered with it releases
      it; in particular one assigned between a release's two writes is kept. */
  lemma StrayLeavesWithItsProcess(s: State, e: Event, i: nat, x: Stray)
    requires Inv(s) && i < |s.hands| && s.hands[i].stray == Some(x)
    ensures Apply(s, e).hands[i].stray == Some(x) ||
            (e.ReleaseStray? && Enabled(s, e) && e.i == i && s.hands[i].procs[e.p].entry == x &&
             Apply(s, e).hands[i].stray == None)
  {
    assert HandOk(s, i);
  }

  // ------------------------------------------------------------------ whole runs

  predicate Initial(s: State) {
    && !s.panicked && s.obtained == [] && s.claims == [] && s.records == []
    && forall i :: 0 <= i < |s.hands| ==> s.hands[i] == Hand(None, false, [])
  }

  function Exec(start: State, run: seq<Event>): State {
    if run == [] then start else Apply(Exec(start, run[..|run| - 1]), run[|run| - 1])
  }

  lemma Extend(start: State, run: seq<Event>, e: Event)
    ensures Exec(start, run + [e]) == Apply(Exec(start, run), e)
  {
    assert (run + [e])[..|run|] == run;
  }

  /** In every interleaving: no step finds its stray gone; a hand runs at most one
      process, whose stray stays put until it is released; and every contract
      written has a claim of its own by the same hand, made after the hand had
      downloaded the file or found one on disk for it. */
  lemma {:induction false} HandsConsistent(start: State, run: seq<Event>)
    requires Initial(start)
    ensures Inv(Exec(start, run))
    ensures var s := Exec(start, run);
            multiset(s.records) <= multiset(s.claims) <= multiset(s.obtained)
  {
    hide Inv, Apply;
    if run != [] {
      HandsConsistent(start, run[..|run| - 1]);
      StepKeepsInv(Exec(start, run[..|run| - 1]), run[|run| - 1]);
    } else {
      InitiallyConsistent(start);
    }
    RecordsWithinClaims(Exec(start, run));
  }

  lemma InitiallyConsistent(start: State)
    requires Initial(start)
    ensures Inv(start)
  {
  }

  lemma RecordsWithinClaims(s: State)
    requires Inv(s)
    ensures multiset(s.records) <= multiset(s.claims) <= multiset(s.obtained)
  {
    forall n ensures multiset(s.records)[n] <= multiset(s.claims)[n] <= multiset(s.obtained)[n] {
      assert Accounted(s, n);
    }
  }

  /** The process that a hand takes up after a release is for the stray it was
      given meanwhile: from any reachable state, a held stray is still there after
      any further steps in which no process releases it. */
  lemma {:induction false} HeldUntilReleased(start: State, run: seq<Event>, k: nat, i: nat, x: Stray)
    requires Initial(start) && k <= |run|
    requires i < |Exec(start, run[..k]).hands| && Exec(start, run[..k]).hands[i].stray == Some(x)
    requires forall j :: k <= j < |run| ==> !(run[j].ReleaseStray? && run[j].i == i)
    ensures i < |Exec(start, run).hands| && Exec(start, run).hands[i].stray == Some(x)
  {
    if k < |run| {
      var front := run[..|run| - 1];
      assert front[..k] == run[..k];
      HeldUntilReleased(start, front, k, i, x);
      HandsConsistent(start, front);
      StepKeepsInv(Exec(start, front), run[|run| - 1]);
      StrayLeavesWithItsProcess(Exec(start, front), run[|run| - 1], i, x);
    } else {
      assert run[..k] == run;
    }
  }
}
