/** The contract index: one key/value store holding, for every contract id, its
    file id and, for every file id, the list of the contract ids that refer to it.

    The abstract index is a list of links in insertion order.  `Encodes` says
    that a store is the encoding of such a list and nothing else. */
module ContractIndex {
  import opened Wrappers
  import opened Text
  import opened ReferenceList

  type Store = map<string, string>

  datatype IndexError = ContractAlreadyExists | ContractNotFound | FidNotFound | KeyNotFound

  // ---------------------------------------------------------------- batches

  datatype BatchOp = Put(key: string, value: string) | Delete(key: string)

  function ApplyOp(db: Store, op: BatchOp): Store {
    match op
    case Put(k, v) => db[k := v]
    case Delete(k) => db - {k}
  }

  /** A batch is applied as a whole, in the order in which it was filled. */
  function Write(db: Store, batch: seq<BatchOp>): Store {
    if batch == [] then db
    else ApplyOp(Write(db, batch[..|batch| - 1]), batch[|batch| - 1])
  }

  lemma WritePair(db: Store, a: BatchOp, b: BatchOp)
    ensures Write(db, [a, b]) == ApplyOp(ApplyOp(db, a), b)
  {
    assert [a][..|[a]| - 1] == [];
    assert Write(db, [a]) == ApplyOp(db, a);
    assert [a, b][..|[a, b]| - 1] == [a];
  }

  // ------------------------------------------------------- the abstract index

  /** Characters in the bech32 form of a 32-byte hash under a four-letter prefix. */
  const CID_LENGTH := 63

  /** The prefix "jklc" of contract ids. */
  predicate HasCidPrefix(k: string) {
    |k| >= 4 && k[0] == 'j' && k[1] == 'k' && k[2] == 'l' && k[3] == 'c'
  }

  /** The prefix "jklf" of file ids. */
  predicate HasFidPrefix(k: string) {
    |k| >= 4 && k[0] == 'j' && k[1] == 'k' && k[2] == 'l' && k[3] == 'f'
  }

  predicate CidFormat(c: string) {
    |c| == CID_LENGTH && HasCidPrefix(c) && SEPARATOR !in c
  }

  /** The forms of ids, as texts. */
  lemma IdFormsAre(k: string)
    ensures HasCidPrefix(k) <==> "jklc" <= k
    ensures HasFidPrefix(k) <==> "jklf" <= k
    ensures CidFormat(k) <==> |k| == 63 && "jklc" <= k && ',' !in k
  {
  }

  datatype Link = Link(cid: string, fid: string)

  type Links = seq<Link>

  /** Each contract id occurs in one link. */
  predicate WellFormed(links: Links) {
    && (forall i :: 0 <= i < |links| ==> CidFormat(links[i].cid) && HasFidPrefix(links[i].fid))
    && (forall i, j :: 0 <= i < j < |links| ==> links[i].cid != links[j].cid)
  }

  function FidOf(links: Links, cid: string): (r: Option<string>)
    ensures r.Some? ==> Link(cid, r.value) in links
    ensures r.None? ==> forall f :: Link(cid, f) !in links
  {
    if links == [] then None
    else if links[0].cid == cid then Some(links[0].fid)
    else FidOf(links[1..], cid)
  }

  /** The contract ids linked to a file id, in insertion order. */
  function CidsOf(links: Links, fid: string): (cids: seq<string>)
    ensures forall c :: c in cids <==> Link(c, fid) in links
  {
    if links == [] then []
    else if links[0].fid == fid then [links[0].cid] + CidsOf(links[1..], fid)
    else CidsOf(links[1..], fid)
  }

  function Without(links: Links, cid: string): Links {
    if links == [] then []
    else if links[0].cid == cid then links[1..]
    else [links[0]] + Without(links[1..], cid)
  }

  /** What the store must hold under a key. */
  function EncodedValue(links: Links, key: string): Option<string> {
    if FidOf(links, key).Some? then FidOf(links, key)
    else if CidsOf(links, key) != [] then Some(Terminated(CidsOf(links, key)))
    else None
  }

  function Lookup(db: Store, key: string): Option<string> {
    if key in db then Some(db[key]) else None
  }

  /** The store is exactly the encoding of the links. */
  ghost predicate Encodes(db: Store, links: Links) {
    && WellFormed(links)
    && forall key :: Lookup(db, key) == EncodedValue(links, key)
  }

  // ------------------------------------------------------- raw store operations

  /** The store and answer after `SetContract`, on any store and any strings. */
  function AfterSet(db: Store, cid: string, fid: string): (Store, Result<(), IndexError>) {
    if cid in db then (db, Failure(ContractAlreadyExists))
    else
      var list := if fid in db then db[fid] else "";
      (db[cid := fid][fid := list + cid + [SEPARATOR]], Success(()))
  }

  /** The store and answer after `DeleteContract`, on any store and any string. */
  function AfterDelete(db: Store, cid: string): (Store, Result<bool, IndexError>) {
    if cid !in db || db[cid] !in db then (db, Failure(KeyNotFound))
    else
      var fid := db[cid];
      var rest := RemoveFirst(db[fid], cid + [SEPARATOR]);
      if rest == "" then (db - {fid} - {cid}, Success(true))
      else (db[fid := rest] - {cid}, Success(false))
  }

  class DoubleRefArchiveDB {
    var db: Store

    constructor ()
      ensures db == map[]
    {
      db := map[];
    }

    method GetFid(cid: string) returns (r: Result<string, IndexError>)
      ensures r == if cid in db then Success(db[cid]) else Failure(ContractNotFound)
    {
      if cid !in db {
        return Failure(ContractNotFound);
      }
      r := Success(db[cid]);
    }

    method GetContracts(fid: string) returns (r: Result<seq<string>, IndexError>)
      ensures r == if fid in db then Success(Split(db[fid], ',')) else Failure(FidNotFound)
    {
      if fid !in db {
        return Failure(FidNotFound);
      }
      r := Success(Split(db[fid], SEPARATOR));
    }

    method SetContract(cid: string, fid: string) returns (r: Result<(), IndexError>)
      modifies this
      ensures (db, r) == AfterSet(old(db), cid, fid)
      ensures if cid in old(db) then db == old(db) && r == Failure(ContractAlreadyExists)
              else
                && r == Success(())
                && db == old(db)[cid := fid][fid := (if fid in old(db) then old(db)[fid] else "") + cid + ","]
    {
      if cid in db {
        return Failure(ContractAlreadyExists);
      }
      var batch := [Put(cid, fid)];
      batch := AddReference(batch, cid, fid);
      assert batch == [batch[0], batch[1]];
      WritePair(db, batch[0], batch[1]);
      db := Write(db, batch);
      r := Success(());
    }

    method AddReference(batch: seq<BatchOp>, cid: string, fid: string) returns (filled: seq<BatchOp>)
      ensures filled ==
              batch + [Put(fid, (if fid in db then db[fid] else "") + cid + ",")]
    {
      var value := if fid in db then db[fid] else "";
      filled := batch + [Put(fid, value + cid + [SEPARATOR])];
    }

    method DeleteContract(cid: string) returns (r: Result<bool, IndexError>)
      modifies this
      ensures (db, r) == AfterDelete(old(db), cid)
      ensures cid !in old(db) || old(db)[cid] !in old(db) ==> db == old(db) && r == Failure(KeyNotFound)
      ensures cid in old(db) && old(db)[cid] in old(db) ==>
                var fid := old(db)[cid];
                var rest := RemoveFirst(old(db)[fid], cid + ",");
                && r == Success(rest == "")
                && db == (if rest == "" then old(db) - {fid} else old(db)[fid := rest]) - {cid}
    {
      var batch: seq<BatchOp>;
      batch, r := DeleteReference([], cid);
      if r.Failure? {
        return;
      }
      batch := batch + [Delete(cid)];
      assert batch == [batch[0], batch[1]];
      WritePair(db, batch[0], batch[1]);
      db := Write(db, batch);
    }

    method DeleteReference(batch: seq<BatchOp>, cid: string)
      returns (filled: seq<BatchOp>, r: Result<bool, IndexError>)
      ensures r.Failure? <==> cid !in db || db[cid] !in db
      ensures r.Failure? ==> r.error == KeyNotFound && filled == batch
      ensures r.Success? ==>
                var rest := RemoveFirst(db[db[cid]], cid + ",");
                && r.value == (rest == "")
                && filled == batch + [if rest == "" then Delete(db[cid]) else Put(db[cid], rest)]
    {
      filled := batch;
      if cid !in db {
        return filled, Failure(KeyNotFound);
      }
      var fid := db[cid];
      if fid !in db {
        return filled, Failure(KeyNotFound);
      }
      var result := RemoveFirst(db[fid], cid + [SEPARATOR]);
      if result == "" {
        filled := filled + [Delete(fid)];
        r := Success(true);
      } else {
        filled := filled + [Put(fid, result)];
        r := Success(false);
      }
    }
  }

  // ------------------------------------------------- facts about the link list

  lemma {:induction false} FidOfAppend(links: Links, l: Link, key: string)
    ensures FidOf(links + [l], key) ==
            if FidOf(links, key).Some? then FidOf(links, key)
            else if l.cid == key then Some(l.fid) else None
  {
    if links != [] {
      assert (links + [l])[1..] == links[1..] + [l];
      FidOfAppend(links[1..], l, key);
    }
  }

  lemma {:induction false} CidsOfAppend(links: Links, l: Link, fid: string)
    ensures CidsOf(links + [l], fid) == CidsOf(links, fid) + if l.fid == fid then [l.cid] else []
  {
    if links == [] {
      assert links + [l] == [l];
    } else {
      assert (links + [l])[1..] == links[1..] + [l];
      CidsOfAppend(links[1..], l, fid);
    }
  }

  lemma {:induction false} WithoutFacts(links: Links, cid: string)
    requires WellFormed(links)
    ensures WellFormed(Without(links, cid))
    ensures forall l :: l in Without(links, cid) <==> l in links && l.cid != cid
  {
    if links != [] {
      var rest := Without(links[1..], cid);
      WithoutFacts(links[1..], cid);
      assert links == [links[0]] + links[1..];
      if links[0].cid != cid {
        forall j | 0 <= j < |rest| ensures rest[j].cid != links[0].cid {
          assert rest[j] in links[1..];
        }
      }
    }
  }

  lemma FidOfWithout(links: Links, cid: string, key: string)
    requires WellFormed(links)
    ensures FidOf(Without(links, cid), key) == if key == cid then None else FidOf(links, key)
  {
    WithoutFacts(links, cid);
    var w := Without(links, cid);
    if FidOf(w, key).Some? {
      assert Link(key, FidOf(w, key).value) in links;
    }
    if FidOf(links, key).Some? && key != cid {
      assert Link(key, FidOf(links, key).value) in w;
    }
  }

  lemma {:induction false} CidsOfWithout(links: Links, cid: string, fid: string)
    requires WellFormed(links)
    ensures CidsOf(Without(links, cid), fid) == RemoveElement(CidsOf(links, fid), cid)
  {
    if links != [] {
      var rest := CidsOf(links[1..], fid);
      CidsOfWithout(links[1..], cid, fid);
      if links[0].cid == cid {
        HeadOnly(links, fid);
      } else if links[0].fid == fid {
        assert ([links[0].cid] + rest)[1..] == rest;
      }
    }
  }

  /** The first link's contract occurs nowhere else. */
  lemma HeadOnly(links: Links, fid: string)
    requires WellFormed(links) && links != []
    ensures links[0].cid !in CidsOf(links[1..], fid)
    ensures RemoveElement(CidsOf(links, fid), links[0].cid) == CidsOf(links[1..], fid)
  {
    var rest := CidsOf(links[1..], fid);
    assert links[0].cid !in rest;
    assert ([links[0].cid] + rest)[1..] == rest;
  }

  lemma LinkedCids(links: Links, cid: string, fid: string)
    requires WellFormed(links)
    ensures cid in CidsOf(links, fid) <==> FidOf(links, cid) == Some(fid)
    ensures forall c :: c in CidsOf(links, fid) ==> CidFormat(c) && HasFidPrefix(fid)
    ensures SeparatorFree(CidsOf(links, fid))
  {
    forall i | 0 <= i < |CidsOf(links, fid)| ensures SEPARATOR !in CidsOf(links, fid)[i] {
      assert CidsOf(links, fid)[i] in CidsOf(links, fid);
    }
  }

  /** A key cannot be both a contract id and a file id. */
  lemma KeyKinds(links: Links, key: string)
    requires WellFormed(links)
    ensures FidOf(links, key).Some? ==> CidFormat(key) && CidsOf(links, key) == []
    ensures CidsOf(links, key) != [] ==> HasFidPrefix(key) && FidOf(links, key).None?
  {
    if CidsOf(links, key) != [] {
      LinkedCids(links, CidsOf(links, key)[0], key);
    }
  }

  // -------------------------------------------------------------- refinement

  lemma SetRefines(db: Store, links: Links, cid: string, fid: string)
    requires Encodes(db, links) && CidFormat(cid) && HasFidPrefix(fid)
    ensures var (db', r) := AfterSet(db, cid, fid);
            if FidOf(links, cid).Some?
            then r == Failure(ContractAlreadyExists) && Encodes(db', links)
            else r == Success(()) && Encodes(db', links + [Link(cid, fid)])
  {
    KeyKinds(links, cid);
    assert Lookup(db, cid) == EncodedValue(links, cid);
    if FidOf(links, cid).None? {
      assert CidsOf(links, cid) == [];
      SetKeepsForm(links, cid, fid);
      forall key ensures Lookup(AfterSet(db, cid, fid).0, key) == EncodedValue(links + [Link(cid, fid)], key) {
        SetEncodesKey(db, links, cid, fid, key);
      }
    }
  }

  lemma SetKeepsForm(links: Links, cid: string, fid: string)
    requires WellFormed(links) && CidFormat(cid) && HasFidPrefix(fid) && FidOf(links, cid).None?
    ensures WellFormed(links + [Link(cid, fid)])
  {
    forall i | 0 <= i < |links| ensures links[i].cid != cid {
      assert links[i] == Link(links[i].cid, links[i].fid);
    }
  }

  lemma SetEncodesKey(db: Store, links: Links, cid: string, fid: string, key: string)
    requires Encodes(db, links) && CidFormat(cid) && HasFidPrefix(fid)
    requires FidOf(links, cid).None? && cid !in db
    ensures Lookup(AfterSet(db, cid, fid).0, key) == EncodedValue(links + [Link(cid, fid)], key)
  {
    KeyKinds(links, fid);
    assert Lookup(db, key) == EncodedValue(links, key);
    FidOfAppend(links, Link(cid, fid), key);
    CidsOfAppend(links, Link(cid, fid), key);
    if key == fid {
      var list := if fid in db then db[fid] else "";
      assert list == Terminated(CidsOf(links, fid));
      TerminatedAppend(CidsOf(links, fid), cid);
      assert CidsOf(links + [Link(cid, fid)], fid) != [];
    } else if key != cid {
      assert CidsOf(links + [Link(cid, fid)], key) == CidsOf(links, key);
    }
  }

  lemma TerminatedAppend(list: seq<string>, e: string)
    ensures Terminated(list + [e]) == Terminated(list) + e + [SEPARATOR]
  {
    TerminatedConcat(list, [e]);
    assert Terminated([e]) == e + [SEPARATOR];
  }

  /** Deleting from a list the store holds removes exactly that contract. */
  lemma StoredDeletionExact(links: Links, cid: string, fid: string)
    requires WellFormed(links) && FidOf(links, cid) == Some(fid)
    ensures AfterDeletion(CidsOf(links, fid), cid) == Terminated(CidsOf(Without(links, cid), fid))
  {
    LinkedCids(links, cid, fid);
    DeletionExactForFixedLength(CidsOf(links, fid), cid);
    CidsOfWithout(links, cid, fid);
  }

  lemma DeleteRefines(db: Store, links: Links, cid: string)
    requires Encodes(db, links) && CidFormat(cid)
    ensures var (db', r) := AfterDelete(db, cid);
            match FidOf(links, cid)
            case None => r == Failure(KeyNotFound) && Encodes(db', links)
            case Some(fid) =>
              r == Success(CidsOf(Without(links, cid), fid) == []) && Encodes(db', Without(links, cid))
  {
    KeyKinds(links, cid);
    assert Lookup(db, cid) == EncodedValue(links, cid);
    if FidOf(links, cid).Some? {
      var fid := db[cid];
      LinkedCids(links, cid, fid);
      KeyKinds(links, fid);
      assert Lookup(db, fid) == EncodedValue(links, fid);
      StoredDeletionExact(links, cid, fid);
      DeleteEncodes(db, links, cid, fid);
    } else {
      assert CidsOf(links, cid) == [];
    }
  }

  lemma DeleteEncodes(db: Store, links: Links, cid: string, fid: string)
    requires Encodes(db, links) && CidFormat(cid) && HasFidPrefix(fid)
    requires cid in db && db[cid] == fid && fid in db && FidOf(links, cid) == Some(fid)
    requires RemoveFirst(db[fid], cid + [SEPARATOR]) == Terminated(CidsOf(Without(links, cid), fid))
    ensures Encodes(AfterDelete(db, cid).0, Without(links, cid))
    ensures AfterDelete(db, cid).1 == Success(CidsOf(Without(links, cid), fid) == [])
  {
    var links' := Without(links, cid);
    var db' := AfterDelete(db, cid).0;
    KeyKinds(links, fid);
    WithoutFacts(links, cid);
    forall key ensures Lookup(db', key) == EncodedValue(links', key) {
      DeleteEncodesKey(db, links, cid, fid, key);
    }
  }

  lemma DeleteEncodesKey(db: Store, links: Links, cid: string, fid: string, key: string)
    requires Encodes(db, links) && cid in db && db[cid] == fid && fid in db
    requires FidOf(links, cid) == Some(fid) && fid != cid
    requires RemoveFirst(db[fid], cid + [SEPARATOR]) == Terminated(CidsOf(Without(links, cid), fid))
    ensures Lookup(AfterDelete(db, cid).0, key) == EncodedValue(Without(links, cid), key)
  {
    assert Lookup(db, key) == EncodedValue(links, key);
    KeyKinds(links, cid);
    LinkedCids(links, cid, fid);
    KeyKinds(links, fid);
    FidOfWithout(links, cid, key);
    CidsOfWithout(links, cid, key);
    LinkedCids(links, cid, key);
  }

  // ------------------------------------------------------ whole runs of the index

  datatype Op = Set(cid: string, fid: string) | Remove(cid: string)

  datatype Answer = Done | Purge(last: bool) | Refused(error: IndexError)

  predicate OpFormat(op: Op) {
    CidFormat(op.cid) && (op.Set? ==> HasFidPrefix(op.fid))
  }

  function StoreStep(db: Store, op: Op): (Store, Answer) {
    match op
    case Set(c, f) =>
      var (db', r) := AfterSet(db, c, f);
      (db', if r.Success? then Done else Refused(r.error))
    case Remove(c) =>
      var (db', r) := AfterDelete(db, c);
      (db', if r.Success? then Purge(r.value) else Refused(r.error))
  }

  /** The same operations on the abstract index. */
  function LinksStep(links: Links, op: Op): (Links, Answer) {
    match op
    case Set(c, f) =>
      if FidOf(links, c).Some? then (links, Refused(ContractAlreadyExists))
      else (links + [Link(c, f)], Done)
    case Remove(c) =>
      match FidOf(links, c)
      case None => (links, Refused(KeyNotFound))
      case Some(f) => (Without(links, c), Purge(CidsOf(Without(links, c), f) == []))
  }

  function RunStore(ops: seq<Op>): (Store, seq<Answer>) {
    if ops == [] then (map[], [])
    else
      var (db, answers) := RunStore(ops[..|ops| - 1]);
      var (db', a) := StoreStep(db, ops[|ops| - 1]);
      (db', answers + [a])
  }

  function RunLinks(ops: seq<Op>): (Links, seq<Answer>) {
    if ops == [] then ([], [])
    else
      var (links, answers) := RunLinks(ops[..|ops| - 1]);
      var (links', a) := LinksStep(links, ops[|ops| - 1]);
      (links', answers + [a])
  }

  /** After any run from the empty store, the raw store is exactly the encoding
      of the abstract index, and every call gave the abstract answer. */
  lemma {:induction false} RunRefines(ops: seq<Op>)
    requires forall i :: 0 <= i < |ops| ==> OpFormat(ops[i])
    ensures Encodes(RunStore(ops).0, RunLinks(ops).0)
    ensures RunStore(ops).1 == RunLinks(ops).1
  {
    if ops != [] {
      var op := ops[|ops| - 1];
      assert OpFormat(op);
      RunRefines(ops[..|ops| - 1]);
      var db, links := RunStore(ops[..|ops| - 1]).0, RunLinks(ops[..|ops| - 1]).0;
      match op
      case Set(c, f) => SetRefines(db, links, c, f);
      case Remove(c) => DeleteRefines(db, links, c);
    }
  }

  /** What the two lookups answer on a store that encodes an index: the linked
      file, and the referring contracts in insertion order followed by one
      empty piece. */
  lemma LookupsAnswer(db: Store, links: Links, key: string)
    requires Encodes(db, links)
    ensures CidFormat(key) ==> Lookup(db, key) == FidOf(links, key)
    ensures HasFidPrefix(key) ==>
              if CidsOf(links, key) == [] then key !in db
              else key in db && Split(db[key], SEPARATOR) == CidsOf(links, key) + [""]
  {
    KeyKinds(links, key);
    assert Lookup(db, key) == EncodedValue(links, key);
    if HasFidPrefix(key) && CidsOf(links, key) != [] {
      var cids := CidsOf(links, key);
      forall i | 0 <= i < |cids| ensures SEPARATOR !in cids[i] {
        assert cids[i] in cids;
      }
      SplitTerminated(cids);
    }
  }

  // --------------------------------------------- the index as a map of contracts

  /** The contracts in a raw store: every key without the file-id prefix. */
  function Contracts(db: Store): map<string, string> {
    map k | k in db && !HasFidPrefix(k) :: db[k]
  }

  /** The contracts are the keys that are no file ids, with their values. */
  lemma ContractsAre(db: Store, c: string)
    ensures c in Contracts(db) <==> c in db && !("jklf" <= c)
    ensures c in Contracts(db) ==> Contracts(db)[c] == db[c]
  {
    IdFormsAre(c);
  }

  ghost predicate Consistent(db: Store) {
    exists links :: Encodes(db, links)
  }

  predicate Referenced(contracts: map<string, string>, fid: string) {
    exists c :: c in contracts && contracts[c] == fid
  }

  lemma EmptyConsistent()
    ensures Consistent(map[]) && Contracts(map[]) == map[]
  {
    assert Encodes(map[], []);
  }

  lemma ContractsAreLinks(db: Store, links: Links, cid: string)
    requires Encodes(db, links)
    ensures Lookup(Contracts(db), cid) == FidOf(links, cid)
  {
    KeyKinds(links, cid);
    assert Lookup(db, cid) == EncodedValue(links, cid);
  }

  lemma KeyFormats(db: Store)
    requires Consistent(db)
    ensures forall k :: k in db ==> CidFormat(k) || HasFidPrefix(k)
    ensures forall c :: c in Contracts(db) ==> CidFormat(c) && HasFidPrefix(db[c])
  {
    var links :| Encodes(db, links);
    forall k | k in db ensures CidFormat(k) || HasFidPrefix(k) {
      assert Lookup(db, k) == EncodedValue(links, k);
      KeyKinds(links, k);
    }
    forall c | c in Contracts(db) ensures CidFormat(c) && HasFidPrefix(db[c]) {
      ContractsAreLinks(db, links, c);
    }
  }

  lemma ReferencedByLinks(db: Store, links: Links, fid: string)
    requires Encodes(db, links)
    ensures Referenced(Contracts(db), fid) <==> CidsOf(links, fid) != []
  {
    if CidsOf(links, fid) != [] {
      var c := CidsOf(links, fid)[0];
      LinkedCids(links, c, fid);
      ContractsAreLinks(db, links, c);
      assert c in Contracts(db) && Contracts(db)[c] == fid;
    }
    if Referenced(Contracts(db), fid) {
      var c :| c in Contracts(db) && Contracts(db)[c] == fid;
      ContractsAreLinks(db, links, c);
      LinkedCids(links, c, fid);
    }
  }

  /** The two directions of the index agree: a file id is a key exactly when a
      contract refers to it, and its list names exactly those contracts. */
  lemma DirectionsAgree(db: Store, fid: string, cid: string)
    requires Consistent(db) && HasFidPrefix(fid)
    ensures fid in db <==> Referenced(Contracts(db), fid)
    ensures fid in db ==>
              (cid in Split(db[fid], SEPARATOR) && cid != "" <==> cid in Contracts(db) && db[cid] == fid)
  {
    var links :| Encodes(db, links);
    ReferencedByLinks(db, links, fid);
    LookupsAnswer(db, links, fid);
    LinkedCids(links, cid, fid);
    ContractsAreLinks(db, links, cid);
  }

  lemma SetOnContracts(db: Store, cid: string, fid: string)
    requires Consistent(db) && CidFormat(cid) && HasFidPrefix(fid)
    ensures var (db', r) := AfterSet(db, cid, fid);
            && Consistent(db')
            && (r.Failure? <==> cid in Contracts(db))
            && Contracts(db') == if r.Failure? then Contracts(db) else Contracts(db)[cid := fid]
  {
    var links :| Encodes(db, links);
    SetRefines(db, links, cid, fid);
    ContractsAreLinks(db, links, cid);
  }

  /** Deleting a contract takes away that contract only, and reports a purge
      exactly when no contract refers to its file any more. */
  lemma DeleteOnContracts(db: Store, cid: string)
    requires Consistent(db) && cid in Contracts(db)
    ensures var (db', r) := AfterDelete(db, cid);
            && Consistent(db')
            && Contracts(db') == Contracts(db) - {cid}
            && r == Success(!Referenced(Contracts(db) - {cid}, db[cid]))
  {
    var links :| Encodes(db, links);
    KeyFormats(db);
    ContractsAreLinks(db, links, cid);
    DeleteRefines(db, links, cid);
    DeleteFromContracts(db, cid);
    ReferencedByLinks(AfterDelete(db, cid).0, Without(links, cid), db[cid]);
  }

  lemma DeleteFromContracts(db: Store, cid: string)
    requires Consistent(db) && cid in Contracts(db)
    ensures Contracts(AfterDelete(db, cid).0) == Contracts(db) - {cid}
  {
    KeyFormats(db);
    DirectionsAgree(db, db[cid], cid);
    assert Contracts(db)[cid] == db[cid];
  }

  /** A file id is not a contract: deleting it finds no list under its value. */
  lemma DeleteOfFileKey(db: Store, key: string)
    requires Consistent(db) && key in db && HasFidPrefix(key)
    ensures AfterDelete(db, key) == (db, Failure(KeyNotFound))
  {
    var links :| Encodes(db, links);
    LookupsAnswer(db, links, key);
    LinkedCids(links, "", key);
    assert Lookup(db, key) == EncodedValue(links, key);
    KeyKinds(links, key);
    var value, first := db[key], CidsOf(links, key)[0];
    assert first in CidsOf(links, key);
    assert value[|first|] == SEPARATOR && value[3] == first[3];
    KeyFormats(db);
  }
}
