/** The stray manager and its hands: collecting strays, dealing them out, and
    processing one. */
module Strays {
  import opened Wrappers
  import opened Collections
  import opened ContractIndex
  import opened HandMachine

  // -------------------------------------------------------------- distribution

  /** The hands' strays and the pile after dealing the pile out in order. */
  function Dealt(held: seq<Option<Stray>>, pile: seq<Stray>): (r: (seq<Option<Stray>>, seq<Stray>))
    ensures |r.0| == |held|
  {
    if held == [] then ([], pile)
    else if held[0].Some? || pile == [] then
      var (rest, left) := Dealt(held[1..], pile);
      ([held[0]] + rest, left)
    else
      var (rest, left) := Dealt(held[1..], pile[1..]);
      ([Some(pile[0])] + rest, left)
  }

  function Idle(held: seq<Option<Stray>>): nat {
    if held == [] then 0 else (if held[0].None? then 1 else 0) + Idle(held[1..])
  }

  /** The k-th idle hand gets the k-th stray of the pile; every other hand keeps
      what it has, and what is left of the pile keeps its order. */
  lemma {:induction false} DealtInOrder(held: seq<Option<Stray>>, pile: seq<Stray>)
    ensures var (held', pile') := Dealt(held, pile);
            && pile' == pile[Min(Idle(held), |pile|)..]
            && forall i :: 0 <= i < |held| ==>
                 held'[i] == if held[i].Some? then held[i]
                             else if Idle(held[..i]) < |pile| then Some(pile[Idle(held[..i])])
                             else None
  {
    hide Dealt, Idle;
    if held == [] {
      DealtNobody(pile);
      IdleStep(held);
    } else {
      var takes := held[0].None? && pile != [];
      var pile1 := if takes then pile[1..] else pile;
      DealtStep(held, pile);
      DealtInOrder(held[1..], pile1);
      IdleStep(held);
      forall i | 0 < i < |held|
        ensures Idle(held[..i]) == (if held[0].None? then 1 else 0) + Idle(held[1..][..i - 1])
      {
        IdleStep(held[..i]);
        assert held[..i][1..] == held[1..][..i - 1];
      }
      IdleStep(held[..0]);
    }
  }

  lemma IdleStep(held: seq<Option<Stray>>)
    ensures Idle(held) == if held == [] then 0 else (if held[0].None? then 1 else 0) + Idle(held[1..])
  {
  }

  /** How many of the first hands hold nothing. */
  lemma {:induction false} IdleCounts(held: seq<Option<Stray>>, n: nat)
    requires n <= |held|
    ensures Idle(held[..n]) == |set j | 0 <= j < n && held[j].None?|
  {
    if n > 0 {
      IdleCounts(held, n - 1);
      IdleLast(held[..n]);
      assert held[..n][..n - 1] == held[..n - 1];
      var last := if held[n - 1].None? then {n - 1} else {};
      assert (set j | 0 <= j < n && held[j].None?) == (set j | 0 <= j < n - 1 && held[j].None?) + last;
    }
  }

  lemma {:induction false} IdleLast(held: seq<Option<Stray>>)
    requires held != []
    ensures Idle(held) == Idle(held[..|held| - 1]) + if held[|held| - 1].None? then 1 else 0
  {
    if |held| > 1 {
      IdleLast(held[1..]);
      assert held[1..][..|held| - 2] == held[..|held| - 1][1..];
    }
  }

  /** A hand without a stray gets as many-th a stray as there are hands without one
      before it, as long as there are any; the pile loses those from its front. */
  lemma DealtPlainly(held: seq<Option<Stray>>, pile: seq<Stray>)
    ensures var (held', pile') := Dealt(held, pile);
            && |held'| == |held|
            && (forall i :: 0 <= i < |held| ==>
                  var k := |set j | 0 <= j < i && held[j].None?|;
                  held'[i] == if held[i].Some? then held[i] else if k < |pile| then Some(pile[k]) else None)
            && var idle := |set j | 0 <= j < |held| && held[j].None?|;
               pile' == if idle <= |pile| then pile[idle..] else []
  {
    DealtInOrder(held, pile);
    hide Dealt, Idle;
    forall i | 0 <= i <= |held| ensures Idle(held[..i]) == |set j | 0 <= j < i && held[j].None?| {
      IdleCounts(held, i);
    }
    assert held[..|held|] == held;
  }

  function One(x: Option<Stray>): multiset<Stray> {
    if x.Some? then multiset{x.value} else multiset{}
  }

  function Held(held: seq<Option<Stray>>): multiset<Stray> {
    if held == [] then multiset{}
    else One(held[0]) + Held(held[1..])
  }

  /** Dealing neither loses nor duplicates a stray. */
  lemma {:induction false} DealtConserves(held: seq<Option<Stray>>, pile: seq<Stray>)
    ensures var (held', pile') := Dealt(held, pile);
            Held(held') + multiset(pile') == Held(held) + multiset(pile)
  {
    hide Dealt, Held;
    if held == [] {
      DealtNobody(pile);
    } else {
      var takes := held[0].None? && pile != [];
      var pile1 := if takes then pile[1..] else pile;
      var first := if takes then Some(pile[0]) else held[0];
      var dealt := Dealt(held[1..], pile1);
      DealtConserves(held[1..], pile1);
      DealtStep(held, pile);
      HeldStep(held[0], held[1..]);
      HeldStep(first, dealt.0);
      assert held == [held[0]] + held[1..];
      assert multiset(pile) == (if takes then multiset{pile[0]} else multiset{}) + multiset(pile1) by {
        if takes {
          assert pile == [pile[0]] + pile[1..];
        }
      }
      Regroup(One(first), Held(dealt.0), multiset(dealt.1), Held(held[1..]), multiset(pile1));
      Regroup(One(held[0]), Held(held[1..]), multiset(pile1), Held(held[1..]), multiset(pile1));
    }
  }

  lemma Regroup(x: multiset<Stray>, a: multiset<Stray>, b: multiset<Stray>, c: multiset<Stray>, d: multiset<Stray>)
    requires a + b == c + d
    ensures (x + a) + b == x + (c + d)
    ensures (x + a) + b == a + (x + b)
  {
    assert (x + a) + b == x + (a + b);
  }

  lemma HeldStep(x: Option<Stray>, rest: seq<Option<Stray>>)
    ensures Held([x] + rest) == One(x) + Held(rest)
  {
    assert ([x] + rest)[1..] == rest;
  }

  lemma DealtStep(held: seq<Option<Stray>>, pile: seq<Stray>)
    requires held != []
    ensures var takes := held[0].None? && pile != [];
            var rest := Dealt(held[1..], if takes then pile[1..] else pile);
            Dealt(held, pile) == ([if takes then Some(pile[0]) else held[0]] + rest.0, rest.1)
  {
  }

  /** The strays among `found` whose file the index does not hold. */
  function Unindexed(found: seq<Stray>, db: Store): seq<Stray> {
    if found == [] then []
    else
      var n := |found| - 1;
      Unindexed(found[..n], db) + if found[n].fid in db then [] else [found[n]]
  }

  /** The pile keeps the order of the list. */
  lemma {:induction false} UnindexedConcat(a: seq<Stray>, b: seq<Stray>, db: Store)
    ensures Unindexed(a + b, db) == Unindexed(a, db) + Unindexed(b, db)
  {
    hide Unindexed;
    if b == [] {
      UnindexedNone(db);
      assert a + b == a;
    } else {
      var front, x := b[..|b| - 1], b[|b| - 1];
      UnindexedConcat(a, front, db);
      UnindexedLast(a + front, x, db);
      UnindexedLast(front, x, db);
      assert a + b == (a + front) + [x] && b == front + [x];
    }
  }

  lemma UnindexedNone(db: Store)
    ensures Unindexed([], db) == []
  {
  }

  lemma UnindexedLast(found: seq<Stray>, x: Stray, db: Store)
    ensures Unindexed(found + [x], db) == Unindexed(found, db) + if x.fid in db then [] else [x]
  {
    assert (found + [x])[..|found|] == found;
  }

  /** The filter keeps each stray whose file is unknown as often as the chain
      listed it, and no other. */
  lemma {:induction false} UnindexedExactly(found: seq<Stray>, db: Store, x: Stray)
    ensures multiset(Unindexed(found, db))[x] == if x.fid in db then 0 else multiset(found)[x]
  {
    if found != [] {
      var n := |found| - 1;
      UnindexedExactly(found[..n], db, x);
      assert found == found[..n] + [found[n]];
    }
  }

  /** What a download leaves: the file and its tree, or after a failure part of the
      file or nothing. */
  datatype Fetch = Whole | Part | Nothing

  predicate Found(providers: seq<string>, fetch: string -> Fetch) {
    exists p :: p in providers && fetch(p) == Whole
  }

  /** Whether trying the providers leaves a file on disk, whole or not. */
  predicate Written(providers: seq<string>, fetch: string -> Fetch) {
    exists p :: p in providers && fetch(p) != Nothing
  }

  class StoredFiles {
    var fids: set<string>

    constructor ()
      ensures fids == {}
    {
      fids := {};
    }

    /** True if the file is absent. */
    method FileExist(fid: string) returns (absent: bool)
      ensures absent <==> fid !in fids
    {
      absent := fid !in fids;
    }
  }

  class LittleHand {
    const archive: StoredFiles
    const database: DoubleRefArchiveDB
    var stray: Option<Stray>
    var busy: bool

    constructor (archive: StoredFiles, database: DoubleRefArchiveDB)
      ensures this.archive == archive && this.database == database
      ensures stray.None? && !busy
    {
      this.archive, this.database := archive, database;
      stray, busy := None, false;
    }

    /** Fetches the file from the first provider that has it.  Failed downloads
        before that may leave part of it under the file's name. */
    method FetchFrom(providers: seq<string>, fid: string, fetch: string -> Fetch) returns (found: bool)
      modifies archive
      ensures found <==> exists p :: p in providers && fetch(p) == Whole
      ensures archive.fids ==
              old(archive.fids) + if exists p :: p in providers && fetch(p) != Nothing then {fid} else {}
    {
      found := false;
      for i := 0 to |providers|
        invariant found <==> Found(providers[..i], fetch)
        invariant archive.fids == old(archive.fids) + if Written(providers[..i], fetch) then {fid} else {}
      {
        TriedOneMore(providers, i, fetch);
        if found {
          continue;
        }
        var outcome := fetch(providers[i]);
        if outcome != Nothing {
          archive.fids := archive.fids + {fid};
        }
        found := outcome == Whole;
      }
      assert providers[..|providers|] == providers;
    }

    /** One run of a hand that nothing interrupts.  `providers` are those the chain
        lists for the file, `fetch` what a download from one leaves, `claims` the
        outcome of the claim.  A contract is written exactly if the claim was made
        and succeeded; the claim is made exactly if the file is on disk and nobody
        is listed, or we are not listed and some listed provider has it. */
    method Process(ip: string, providers: seq<string>, fetch: string -> Fetch, claims: bool)
      returns (tried: bool)
      modifies this, archive, database
      ensures old(stray).None? || old(busy) ==>
                && stray == old(stray) && busy == old(busy) && !tried
                && archive.fids == old(archive.fids) && database.db == old(database.db)
      ensures old(stray).Some? && !old(busy) ==>
                var s := old(stray).value;
                && stray.None? && !busy
                && (tried <==> if providers == [] then s.fid in old(archive.fids)
                               else ip !in providers && exists p :: p in providers && fetch(p) == Whole)
                && (tried ==> s.fid in archive.fids)
                && archive.fids == old(archive.fids) +
                     (if ip !in providers && exists p :: p in providers && fetch(p) != Nothing then {s.fid} else {})
                && (if tried && claims && s.cid !in old(database.db) then
                      var list := if s.fid in old(database.db) then old(database.db)[s.fid] else "";
                      database.db == old(database.db)[s.cid := s.fid][s.fid := list + s.cid + ","]
                    else database.db == old(database.db))
    {
      tried := false;
      if stray.None? || busy {
        return;
      }
      busy := true;
      var s := stray.value;
      if providers == [] {
        var absent := archive.FileExist(s.fid);
        if absent {
          Release();
          return;
        }
      } else {
        if ip in providers {
          Release();
          return;
        }
        var found := FetchFrom(providers, s.fid, fetch);
        if !found {
          Release();
          return;
        }
      }
      tried := true;
      if claims {
        var r := database.SetContract(s.cid, s.fid);
      }
      Release();
    }

    method Release()
      modifies this
      ensures stray.None? && !busy
    {
      stray := None;
      busy := false;
    }
  }

  lemma TriedOneMore(providers: seq<string>, i: nat, fetch: string -> Fetch)
    requires i < |providers|
    ensures Found(providers[..i + 1], fetch) <==> Found(providers[..i], fetch) || fetch(providers[i]) == Whole
    ensures Written(providers[..i + 1], fetch) <==> Written(providers[..i], fetch) || fetch(providers[i]) != Nothing
    ensures Found(providers[..i], fetch) ==> Written(providers[..i], fetch)
  {
    assert providers[..i + 1] == providers[..i] + [providers[i]];
  }

  function Strays(hands: seq<LittleHand>): (held: seq<Option<Stray>>)
    reads hands
    ensures |held| == |hands| && forall i :: 0 <= i < |hands| ==> held[i] == hands[i].stray
  {
    seq(|hands|, i requires 0 <= i < |hands| reads hands => hands[i].stray)
  }

  /** The positions of the hands among the first n that hold nothing. */
  ghost function IdleHands(hands: seq<LittleHand>, n: nat): (idle: set<int>)
    requires n <= |hands|
    reads hands
    ensures forall j :: j in idle <==> 0 <= j < n && hands[j].stray.None?
  {
    set j | 0 <= j < n && hands[j].stray.None?
  }

  lemma IdleHandsAre(hands: seq<LittleHand>, n: nat)
    requires n <= |hands|
    ensures |IdleHands(hands, n)| == Idle(Strays(hands)[..n])
  {
    var held := Strays(hands);
    IdleCounts(held, n);
    assert IdleHands(hands, n) == set j | 0 <= j < n && held[j].None?;
  }

  lemma DealtAfter(given: seq<Option<Stray>>, held: seq<Option<Stray>>, pile: seq<Stray>)
    requires held != []
    ensures var takes := held[0].None? && pile != [];
            var rest := Dealt(held[1..], if takes then pile[1..] else pile);
            (given + Dealt(held, pile).0, Dealt(held, pile).1) ==
            ((given + [if takes then Some(pile[0]) else held[0]]) + rest.0, rest.1)
  {
    hide Dealt;
    DealtStep(held, pile);
    var takes := held[0].None? && pile != [];
    var first := if takes then Some(pile[0]) else held[0];
    var rest := Dealt(held[1..], if takes then pile[1..] else pile);
    assert given + ([first] + rest.0) == (given + [first]) + rest.0;
  }

  lemma DealtNobody(pile: seq<Stray>)
    ensures Dealt([], pile) == ([], pile)
  {
  }

  /** A page of strays as the chain listed them, shuffled, and how many it has. */
  datatype StrayPage = StrayPage(strays: seq<Stray>, total: nat)

  lemma DealtNext(given: seq<Option<Stray>>, held: seq<Option<Stray>>, i: nat, pile: seq<Stray>)
    requires i < |held|
    ensures var takes := held[i].None? && pile != [];
            var rest := Dealt(held[i + 1..], if takes then pile[1..] else pile);
            (given + Dealt(held[i..], pile).0, Dealt(held[i..], pile).1) ==
            ((given + [if takes then Some(pile[0]) else held[i]]) + rest.0, rest.1)
  {
    DealtAfter(given, held[i..], pile);
    assert held[i..][1..] == held[i + 1..];
  }

  class StrayManager {
    const archivedb: DoubleRefArchiveDB
    const hands: seq<LittleHand>
    var strays: seq<Stray>

    constructor (archivedb: DoubleRefArchiveDB, hands: seq<LittleHand>)
      ensures this.archivedb == archivedb && this.hands == hands && strays == []
    {
      this.archivedb, this.hands := archivedb, hands;
      strays := [];
    }

    /** Replaces the pile by the unindexed strays of the (shuffled) reply and returns
        the chain's count; an error or an empty reply leaves the pile alone. */
    method CollectStrays(reply: Option<StrayPage>) returns (count: nat)
      modifies this`strays
      ensures reply.None? || reply.value.strays == [] ==> strays == old(strays) && count == 0
      ensures reply.Some? && reply.value.strays != [] ==>
                strays == Unindexed(reply.value.strays, archivedb.db) && count == reply.value.total
    {
      if reply.None? || reply.value.strays == [] {
        return 0;
      }
      var found := reply.value.strays;
      strays := [];
      for i := 0 to |found|
        invariant strays == Unindexed(found[..i], archivedb.db)
      {
        assert found[..i + 1][..i] == found[..i];
        var known := archivedb.GetContracts(found[i].fid);
        if known.Failure? {
          strays := strays + [found[i]];
        }
      }
      assert found[..|found|] == found;
      count := reply.value.total;
    }

    /** Deals the pile out to the hands that hold nothing. */
    method Distribute()
      requires forall i, j :: 0 <= i < j < |hands| ==> hands[i] != hands[j]
      modifies this`strays, hands
      ensures (Strays(hands), strays) == Dealt(old(Strays(hands)), old(strays))
      ensures forall i :: 0 <= i < |hands| ==>
                hands[i].stray == if old(hands[i].stray).Some? then old(hands[i].stray)
                                  else if |old(IdleHands(hands, i))| < |old(strays)|
                                  then Some(old(strays)[|old(IdleHands(hands, i))|])
                                  else None
      ensures var idle := |old(IdleHands(hands, |hands|))|;
              strays == if idle <= |old(strays)| then old(strays)[idle..] else []
      ensures forall h :: h in hands ==> h.busy == old(h.busy)
    {
      hide Dealt, Idle, IdleHands;
      ghost var before := Strays(hands);
      forall i | 0 <= i <= |hands| ensures |IdleHands(hands, i)| == Idle(before[..i]) {
        IdleHandsAre(hands, i);
      }
      DealtInOrder(before, strays);
      assert before[..|hands|] == before;
      DealOut();
    }

    /** The loop of `Distribute`. */
    method DealOut()
      requires forall i, j :: 0 <= i < j < |hands| ==> hands[i] != hands[j]
      modifies this`strays, hands
      ensures (Strays(hands), strays) == Dealt(old(Strays(hands)), old(strays))
      ensures forall h :: h in hands ==> h.busy == old(h.busy)
    {
      hide Dealt;
      ghost var before, given: seq<Option<Stray>> := Strays(hands), [];
      assert before[0..] == before && given + Dealt(before, strays).0 == Dealt(before, strays).0;
      for i := 0 to |hands|
        invariant forall h :: h in hands ==> h.busy == old(h.busy)
        invariant |given| == i && forall j :: 0 <= j < i ==> hands[j].stray == given[j]
        invariant forall j :: i <= j < |hands| ==> hands[j].stray == before[j]
        invariant Dealt(before, old(strays)) ==
                  (given + Dealt(before[i..], strays).0, Dealt(before[i..], strays).1)
      {
        var h := hands[i];
        DealtNext(given, before, i, strays);
        if h.stray.Some? || strays == [] {
          given := given + [h.stray];
          continue;
        }
        h.stray := Some(strays[0]);
        strays := strays[1..];
        given := given + [h.stray];
      }
      DealtNobody(strays);
      assert before[|hands|..] == [] && given + [] == given;
      assert Strays(hands) == given;
    }
  }

  // -------------------------------------------- the methods and the hand machine

  function Assigns(n: nat): seq<Event> {
    seq(n, i requires 0 <= i < n => Assign(i))
  }

  function HeldBy(s: State): seq<Option<Stray>> {
    seq(|s.hands|, i requires 0 <= i < |s.hands| => s.hands[i].stray)
  }

  /** Dealing to the first n hands. */
  lemma {:induction false} AssignsDealPrefix(s: State, n: nat)
    requires n <= |s.hands|
    ensures var s' := Exec(s, Assigns(n));
            && |s'.hands| == |s.hands|
            && s' == s.(hands := s'.hands, pile := s'.pile)
            && (forall j :: 0 <= j < |s.hands| ==> s'.hands[j] == s.hands[j].(stray := s'.hands[j].stray))
            && (forall j :: n <= j < |s.hands| ==> s'.hands[j] == s.hands[j])
            && var rest := Dealt(HeldBy(s)[n..], s'.pile);
               Dealt(HeldBy(s), s.pile) == (HeldBy(s')[..n] + rest.0, rest.1)
  {
    hide Dealt, Exec;
    var held := HeldBy(s);
    if n == 0 {
      NoEvents(s);
      assert Assigns(0) == [];
      assert held[0..] == held && HeldBy(s)[..0] + Dealt(held, s.pile).0 == Dealt(held, s.pile).0;
    } else {
      var i := n - 1;
      AssignsDealPrefix(s, i);
      var before := Exec(s, Assigns(i));
      Extend(s, Assigns(i), Assign(i));
      assert Assigns(n) == Assigns(i) + [Assign(i)];
      var after := Exec(s, Assigns(n));
      DealtAfter(HeldBy(before)[..i], held[i..], before.pile);
      assert held[i..][0] == before.hands[i].stray && held[i..][1..] == held[n..];
      assert HeldBy(after)[..n] == HeldBy(before)[..i] + [after.hands[i].stray];
    }
  }

  lemma NoEvents(s: State)
    ensures Exec(s, []) == s
  {
  }

  /** What `Distribute` does is what the machine's assignments do when no process
      runs in between. */
  lemma AssignsDeal(s: State)
    ensures var s' := Exec(s, Assigns(|s.hands|));
            && (HeldBy(s'), s'.pile) == Dealt(HeldBy(s), s.pile)
            && |s'.hands| == |s.hands|
            && (forall j :: 0 <= j < |s.hands| ==> s'.hands[j] == s.hands[j].(stray := s'.hands[j].stray))
            && s' == s.(hands := s'.hands, pile := s'.pile)
  {
    hide Dealt, Exec;
    AssignsDealPrefix(s, |s.hands|);
    var s' := Exec(s, Assigns(|s.hands|));
    DealtNobody(s'.pile);
    assert HeldBy(s)[|s.hands|..] == [];
    assert HeldBy(s')[..|s.hands|] + [] == HeldBy(s');
  }

  /** The machine's steps of an uninterrupted `Process` of hand i. */
  function ProcessSteps(i: nat, look: Event, tried: bool, claims: bool): seq<Event> {
    [Enter(i), look] + Reporting(i, tried, claims) + [ReleaseStray(i, 0), ReleaseBusy(i, 0)]
  }

  function Reporting(i: nat, tried: bool, claims: bool): seq<Event> {
    if !tried then [] else if !claims then [Claim(i, 0, false)] else [Claim(i, 0, true), Record(i, 0)]
  }

  /** How an uninterrupted `Process` looks for the file. */
  function Fetching(i: nat, ip: string, providers: seq<string>, fetch: string -> Fetch): Event {
    if providers == [] then LocalCheck(i, 0)
    else if ip in providers then GiveUp(i, 0)
    else Download(i, 0, Found(providers, fetch), Written(providers, fetch))
  }

  /** What `Process` does when nothing interrupts it is what the machine's steps
      do: the hand is free again, and the claim and the contract are there
      exactly if it tried and the claim succeeded. */
  lemma ProcessStepsEffect(s: State, i: nat, ip: string, providers: seq<string>, fetch: string -> Fetch, claims: bool)
    requires Inv(s) && i < |s.hands| && s.hands[i].stray.Some? && !s.hands[i].busy
    ensures var x := s.hands[i].stray.value;
            var look := Fetching(i, ip, providers, fetch);
            var tried := if providers == [] then x.fid in s.files
                         else ip !in providers && Found(providers, fetch);
            var noted := if tried && claims then [Note(i, x)] else [];
            Exec(s, ProcessSteps(i, look, tried, claims)) ==
            s.(hands := s.hands[i := Hand(None, false, [])],
               files := s.files + if ip !in providers && Written(providers, fetch) then {x.fid} else {},
               obtained := s.obtained + if tried then [Note(i, x)] else [],
               claims := s.claims + noted, records := s.records + noted)
  {
    assert HandOk(s, i);
    assert Found(providers, fetch) ==> Written(providers, fetch);
    hide Exec, Apply, Step, Lone, Inv, Found, Written;
    var x := s.hands[i].stray.value;
    var look := Fetching(i, ip, providers, fetch);
    var tried := if providers == [] then x.fid in s.files
                 else ip !in providers && Found(providers, fetch);
    assert providers == [] ==> !Written(providers, fetch) by {
      WrittenByNobody(fetch);
    }
    EnterEffect(s, i);
    FetchEffect(s, i, x, look);
    Two(s, Enter(i), look);
    var s1 := s.(files := s.files + (if ip !in providers && Written(providers, fetch) then {x.fid} else {}),
                 obtained := s.obtained + if tried then [Note(i, x)] else []);
    var middle := Reporting(i, tried, claims);
    ReportEffect(s1, i, x, tried, claims);
    var noted := if tried && claims then [Note(i, x)] else [];
    var s2 := s1.(claims := s1.claims + noted, records := s1.records + noted);
    ReleaseEffect(s2, i, x);
    Two(Lone(s2, i, x, Finished), ReleaseStray(i, 0), ReleaseBusy(i, 0));
    Joined(s, [Enter(i), look], middle);
    Joined(s, [Enter(i), look] + middle, [ReleaseStray(i, 0), ReleaseBusy(i, 0)]);
  }

  lemma WrittenByNobody(fetch: string -> Fetch)
    ensures !Written([], fetch)
  {
  }

  lemma Two(s: State, e: Event, f: Event)
    ensures Exec(s, [e, f]) == Apply(Apply(s, e), f)
  {
    hide Exec, Apply;
    NoEvents(s);
    Extend(s, [], e);
    Extend(s, [e], f);
    assert [] + [e] == [e] && [e] + [f] == [e, f];
  }

  lemma {:induction false} Joined(s: State, a: seq<Event>, b: seq<Event>)
    ensures Exec(s, a + b) == Exec(Exec(s, a), b)
  {
    hide Apply;
    if b == [] {
      assert a + b == a;
    } else {
      Joined(s, a, b[..|b| - 1]);
      assert (a + b)[..|a + b| - 1] == a + b[..|b| - 1];
    }
  }

  lemma ReportEffect(s: State, i: nat, x: Stray, tried: bool, claims: bool)
    requires i < |s.hands|
    ensures var noted := if tried && claims then [Note(i, x)] else [];
            Exec(Lone(s, i, x, if tried then Ready else Finished), Reporting(i, tried, claims)) ==
            Lone(s.(claims := s.claims + noted, records := s.records + noted), i, x, Finished)
  {
    hide Exec, Apply, Lone;
    assert s.claims + [] == s.claims && s.records + [] == s.records;
    if !tried {
      NoEvents(Lone(s, i, x, Finished));
    } else {
      var l := Lone(s, i, x, Ready);
      ClaimEffect(s, i, x, claims);
      if claims {
        RecordEffect(s.(claims := s.claims + [Note(i, x)]), i, x);
        Two(l, Claim(i, 0, true), Record(i, 0));
      } else {
        NoEvents(l);
        Extend(l, [], Claim(i, 0, false));
        assert [] + [Claim(i, 0, false)] == [Claim(i, 0, false)];
      }
    }
  }
}
