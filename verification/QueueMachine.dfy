/** The upload queue under interleaving.  The listener goes through its phases
    (prepare, send, answer, pop) while other goroutines append at any point. */
module QueueMachine {
  import opened Collections

  type Id = nat // an upload placed in the queue

  datatype Outcome = Failed(error: string) | Confirmed(log: string) | NoReply

  /** One transaction: the uploads whose messages it carried, and its outcome. */
  datatype Batch = Batch(ids: seq<Id>, outcome: Outcome)

  datatype Call = Call(id: Id, outcome: Outcome) // one callback, with the result set before it

  datatype Phase =
    | Unlocked
    | Prepared(ids: seq<Id>)
    | Sent(ids: seq<Id>, outcome: Outcome)
    | Answered(ids: seq<Id>, outcome: Outcome)

  datatype State = State(
    queue: seq<Id>, phase: Phase, popped: seq<Id>, sent: seq<Batch>, calls: seq<Call>)

  datatype Event = Arrive(id: Id) | Prepare(count: nat) | Send(outcome: Outcome) | Answer | Pop

  const INIT := State([], Unlocked, [], [], [])

  predicate Enabled(arrived: seq<Id>, s: State, e: Event) {
    match e
    case Arrive(id) => id !in arrived // every request makes its own upload
    case Prepare(n) => s.phase.Unlocked? && s.queue != [] && n <= |s.queue|
    case Send(_) => s.phase.Prepared?
    case Answer => s.phase.Sent?
    case Pop => s.phase.Answered?
  }

  /** The callbacks of the uploads in a list, all with one outcome. */
  function Calls(ids: seq<Id>, outcome: Outcome): seq<Call> {
    seq(|ids|, i requires 0 <= i < |ids| => Call(ids[i], outcome))
  }

  /** The answering and popping steps go by position in the queue as it is then,
      not by the messages that were sent. */
  function Apply(s: State, e: Event): State {
    match e
    case Arrive(id) => s.(queue := s.queue + [id])
    case Prepare(n) => if n <= |s.queue| then s.(phase := Prepared(s.queue[..n])) else s
    case Send(o) =>
      if s.phase.Prepared? then s.(phase := Sent(s.phase.ids, o), sent := s.sent + [Batch(s.phase.ids, o)]) else s
    case Answer =>
      if s.phase.Sent? then
        var n := |s.phase.ids|;
        var answered := if s.queue == [] || |s.queue| < n then [] else Calls(s.queue[..n], s.phase.outcome);
        s.(phase := Answered(s.phase.ids, s.phase.outcome), calls := s.calls + answered)
      else s
    case Pop =>
      if s.phase.Answered? && |s.phase.ids| <= |s.queue| then
        var n := |s.phase.ids|;
        s.(queue := s.queue[n..], popped := s.popped + s.queue[..n], phase := Unlocked)
      else s
  }

  function Exec(run: seq<Event>): State {
    if run == [] then INIT else Apply(Exec(run[..|run| - 1]), run[|run| - 1])
  }

  /** The uploads in the order in which they arrived. */
  function Arrivals(run: seq<Event>): seq<Id> {
    if run == [] then []
    else Arrivals(run[..|run| - 1]) + if run[|run| - 1].Arrive? then [run[|run| - 1].id] else []
  }

  predicate Valid(run: seq<Event>) {
    run == [] ||
    var front := run[..|run| - 1];
    Valid(front) && Enabled(Arrivals(front), Exec(front), run[|run| - 1])
  }

  /** The callbacks that the transactions sent so far should make, in order. */
  function CallsOf(sent: seq<Batch>): seq<Call> {
    if sent == [] then []
    else CallsOf(sent[..|sent| - 1]) + Calls(sent[|sent| - 1].ids, sent[|sent| - 1].outcome)
  }

  function Ids(calls: seq<Call>): seq<Id> {
    seq(|calls|, i requires 0 <= i < |calls| => calls[i].id)
  }

  /** What holds between any two steps. */
  predicate Inv(arrived: seq<Id>, s: State) {
    && arrived == s.popped + s.queue
    && Distinct(arrived)
    && match s.phase
       case Unlocked => CallsOf(s.sent) == s.calls && Ids(s.calls) == s.popped
       case Prepared(ids) => ids <= s.queue && CallsOf(s.sent) == s.calls && Ids(s.calls) == s.popped
       case Sent(ids, o) =>
         ids <= s.queue && CallsOf(s.sent) == s.calls + Calls(ids, o) && Ids(s.calls) == s.popped
       case Answered(ids, o) =>
         ids <= s.queue && CallsOf(s.sent) == s.calls && Ids(s.calls) == s.popped + ids
  }

  lemma StepKeepsInv(arrived: seq<Id>, s: State, e: Event)
    requires Inv(arrived, s) && Enabled(arrived, s, e)
    ensures Inv(if e.Arrive? then arrived + [e.id] else arrived, Apply(s, e))
  {
    match e
    case Arrive(id) =>
      assert s.popped + (s.queue + [id]) == arrived + [id];
    case Prepare(_) =>
    case Send(o) =>
      assert (s.sent + [Batch(s.phase.ids, o)])[..|s.sent|] == s.sent;
    case Answer =>
      var ids := s.phase.ids;
      assert s.queue[..|ids|] == ids;
      if ids == [] {
        assert Calls(ids, s.phase.outcome) == [];
      }
      assert Ids(s.calls + Calls(ids, s.phase.outcome)) == s.popped + ids;
    case Pop =>
      var ids := s.phase.ids;
      assert s.queue[..|ids|] == ids;
      assert s.popped + s.queue == (s.popped + ids) + s.queue[|ids|..];
  }

  lemma {:induction false} AlwaysInv(run: seq<Event>)
    requires Valid(run)
    ensures Inv(Arrivals(run), Exec(run))
  {
    if run != [] {
      var front := run[..|run| - 1];
      AlwaysInv(front);
      StepKeepsInv(Arrivals(front), Exec(front), run[|run| - 1]);
    }
  }

  /** How often an upload's callback has been called. */
  function Count(calls: seq<Call>, id: Id): nat {
    multiset(Ids(calls))[id]
  }

  /** At every point of every run: what was popped and what is queued are the
      arrivals in order; an upload that was popped has had exactly one callback,
      a queued one none, except that those of the batch being finished have had
      theirs; and every callback carries the outcome of the one transaction that
      carried the upload's own message. */
  lemma AnsweredExactlyOnceInOrder(run: seq<Event>, id: Id)
    requires Valid(run)
    ensures Exec(run).popped + Exec(run).queue == Arrivals(run)
    ensures id in Exec(run).popped ==> Count(Exec(run).calls, id) == 1
    ensures id !in Exec(run).popped ==>
              Count(Exec(run).calls, id) == if Exec(run).phase.Answered? && id in Exec(run).phase.ids then 1 else 0
    ensures forall o :: Call(id, o) in Exec(run).calls ==>
              exists b :: b in Exec(run).sent && id in b.ids && b.outcome == o
    ensures forall i, j :: 0 <= i < j < |Exec(run).sent| ==>
              !(id in Exec(run).sent[i].ids && id in Exec(run).sent[j].ids)
  {
    AlwaysInv(run);
    var s := Exec(run);
    SentOnce(run, id);
    var answered := s.popped + if s.phase.Answered? then s.phase.ids else [];
    assert answered <= s.popped + s.queue;
    DistinctCount(answered, id);
    assert Ids(s.calls) == answered;
    forall o | Call(id, o) in s.calls
      ensures exists b :: b in s.sent && id in b.ids && b.outcome == o
    {
      assert Call(id, o) in CallsOf(s.sent) by {
        if s.phase.Sent? {
          assert Call(id, o) in s.calls + Calls(s.phase.ids, s.phase.outcome);
        }
      }
      CallFromBatch(s.sent, id, o);
    }
  }

  /** The uploads whose messages were sent, in order. */
  function Carried(s: State): seq<Id> {
    s.popped + if s.phase.Sent? || s.phase.Answered? then s.phase.ids else []
  }

  lemma CarriedOnce(arrived: seq<Id>, s: State)
    requires Inv(arrived, s)
    ensures Ids(CallsOf(s.sent)) == Carried(s) && Distinct(Carried(s))
  {
    hide CallsOf;
    assert s.phase.Sent? ==> Ids(s.calls + Calls(s.phase.ids, s.phase.outcome)) == s.popped + s.phase.ids;
    assert Carried(s) <= arrived;
  }

  /** No upload is in two transactions. */
  lemma SentOnce(run: seq<Event>, id: Id)
    requires Valid(run)
    ensures var sent := Exec(run).sent;
            forall i, j :: 0 <= i < j < |sent| ==> !(id in sent[i].ids && id in sent[j].ids)
  {
    hide *;
    AlwaysInv(run);
    CarriedOnce(Arrivals(run), Exec(run));
    DistinctCount(Carried(Exec(run)), id);
    var sent := Exec(run).sent;
    forall i, j | 0 <= i < j < |sent| ensures !(id in sent[i].ids && id in sent[j].ids) {
      if id in sent[i].ids && id in sent[j].ids {
        InTwoBatches(sent, i, j, id);
      }
    }
  }

  lemma {:induction false} InBatch(sent: seq<Batch>, i: nat, id: Id)
    requires i < |sent| && id in sent[i].ids
    ensures multiset(Ids(CallsOf(sent)))[id] >= 1
  {
    hide *;
    LastBatch(sent, id);
    if i < |sent| - 1 {
      InBatch(sent[..|sent| - 1], i, id);
    }
  }

  lemma {:induction false} InTwoBatches(sent: seq<Batch>, i: nat, j: nat, id: Id)
    requires i < j < |sent| && id in sent[i].ids && id in sent[j].ids
    ensures multiset(Ids(CallsOf(sent)))[id] >= 2
  {
    hide *;
    LastBatch(sent, id);
    if j < |sent| - 1 {
      InTwoBatches(sent[..|sent| - 1], i, j, id);
    } else {
      InBatch(sent[..|sent| - 1], i, id);
    }
  }

  lemma LastBatch(sent: seq<Batch>, id: Id)
    requires sent != []
    ensures var front, last := Ids(CallsOf(sent[..|sent| - 1])), sent[|sent| - 1].ids;
            && multiset(Ids(CallsOf(sent)))[id] == multiset(front)[id] + multiset(last)[id]
            && (id in last ==> multiset(last)[id] >= 1)
  {
    var front, last := sent[..|sent| - 1], sent[|sent| - 1];
    assert CallsOf(sent) == CallsOf(front) + Calls(last.ids, last.outcome);
    hide CallsOf;
    IdsConcat(CallsOf(front), last.ids, last.outcome);
    hide Ids;
    assert multiset(Ids(CallsOf(front)) + last.ids) == multiset(Ids(CallsOf(front))) + multiset(last.ids);
  }

  lemma IdsConcat(calls: seq<Call>, ids: seq<Id>, outcome: Outcome)
    ensures Ids(calls + Calls(ids, outcome)) == Ids(calls) + ids
  {
  }

  lemma {:induction false} DistinctCount(ids: seq<Id>, id: Id)
    requires Distinct(ids)
    ensures multiset(ids)[id] == if id in ids then 1 else 0
  {
    if ids != [] {
      var n := |ids| - 1;
      DistinctCount(ids[..n], id);
      assert ids == ids[..n] + [ids[n]];
      assert ids[n] !in ids[..n];
    }
  }

  lemma {:induction false} CallFromBatch(sent: seq<Batch>, id: Id, o: Outcome)
    requires Call(id, o) in CallsOf(sent)
    ensures exists b :: b in sent && id in b.ids && b.outcome == o
  {
    var front, last := sent[..|sent| - 1], sent[|sent| - 1];
    if Call(id, o) in CallsOf(front) {
      CallFromBatch(front, id, o);
    } else {
      assert last in sent && id in last.ids;
    }
  }

  // -------------------------------------------------- one round of the listener

  function Steps(s: State, events: seq<Event>): State {
    if events == [] then s else Apply(Steps(s, events[..|events| - 1]), events[|events| - 1])
  }

  lemma {:induction false} StepsConcat(s: State, a: seq<Event>, b: seq<Event>)
    ensures Steps(s, a + b) == Steps(Steps(s, a), b)
  {
    if b == [] {
      assert a + b == a;
    } else {
      StepsConcat(s, a, b[..|b| - 1]);
      assert (a + b)[..|a + b| - 1] == a + b[..|b| - 1];
    }
  }

  function Arrives(ids: seq<Id>): seq<Event> {
    seq(|ids|, i requires 0 <= i < |ids| => Arrive(ids[i]))
  }

  lemma {:induction false} ArrivesEffect(s: State, ids: seq<Id>)
    ensures Steps(s, Arrives(ids)) == s.(queue := s.queue + ids)
  {
    if ids == [] {
      assert s.queue + ids == s.queue;
    } else {
      var n := |ids| - 1;
      ArrivesEffect(s, ids[..n]);
      assert Arrives(ids)[..n] == Arrives(ids[..n]);
      assert s.queue + ids[..n] + [ids[n]] == s.queue + ids;
    }
  }

  lemma OneStep(s: State, e: Event)
    ensures Steps(s, [e]) == Apply(s, e)
  {
    assert [e][..0] == [];
  }

  /** The machine's steps of one call of the listener that finds `s` unlocked. */
  function Round(n: nat, o: Outcome, during: seq<Id>, late: seq<Id>): seq<Event> {
    [Prepare(n)] + Arrives(during) + [Send(o)] + [Answer] + Arrives(late) + [Pop]
  }

  /** One round answers and pops the n oldest uploads, in order, whatever arrives
      while the transaction is under way. */
  lemma RoundEffect(s: State, n: nat, o: Outcome, during: seq<Id>, late: seq<Id>)
    requires s.phase.Unlocked? && s.queue != [] && n <= |s.queue|
    ensures Steps(s, Round(n, o, during, late)) ==
            State(s.queue[n..] + during + late, Unlocked, s.popped + s.queue[..n],
                  s.sent + [Batch(s.queue[..n], o)], s.calls + Calls(s.queue[..n], o))
  {
    hide Steps;
    var ids := s.queue[..n];
    var prepared := [Prepare(n)] + Arrives(during);
    var answered := prepared + [Send(o)] + [Answer];
    OneStep(s, Prepare(n));
    StepsConcat(s, [Prepare(n)], Arrives(during));
    ArrivesEffect(Apply(s, Prepare(n)), during);
    var s1 := Steps(s, prepared);
    OneStep(s1, Send(o));
    StepsConcat(s, prepared, [Send(o)]);
    var s2 := Apply(s1, Send(o));
    OneStep(s2, Answer);
    StepsConcat(s, prepared + [Send(o)], [Answer]);
    assert (s.queue + during)[..n] == ids;
    var s3 := Apply(s2, Answer);
    ArrivesEffect(s3, late);
    StepsConcat(s, answered, Arrives(late));
    var s4 := Steps(s, answered + Arrives(late));
    OneStep(s4, Pop);
    StepsConcat(s, answered + Arrives(late), [Pop]);
    assert s4.queue[..n] == ids && s4.queue[n..] == s.queue[n..] + during + late;
  }
}
