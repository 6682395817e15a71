/** Recollecting the chain's active deals into the index, then pruning the
    directories that the index does not mention. */
module Recollection {
  import opened ContractIndex
  import opened Collections
  import ActiveDeals

  /** The contracts after inserting every deal whose contract id is not taken. */
  function Recollected(contracts: map<string, string>, deals: seq<Link>): map<string, string> {
    if deals == [] then contracts
    else
      var before := Recollected(contracts, deals[..|deals| - 1]);
      var d := deals[|deals| - 1];
      if d.cid in before then before else before[d.cid := d.fid]
  }

  /** The directories that survive pruning. */
  function Kept(dirs: set<string>, contracts: map<string, string>): set<string> {
    set d | d in dirs && Referenced(contracts, d)
  }

  /** The first deal for a contract id that the index does not hold. */
  predicate New(contracts: map<string, string>, deals: seq<Link>, j: int)
    requires 0 <= j < |deals|
  {
    deals[j].cid !in contracts && forall k :: 0 <= k < j ==> deals[k].cid != deals[j].cid
  }

  predicate AddedByDeal(contracts: map<string, string>, deals: seq<Link>, f: string) {
    exists j :: 0 <= j < |deals| && deals[j].fid == f && New(contracts, deals, j)
  }

  lemma {:induction false} RecollectedContracts(contracts: map<string, string>, deals: seq<Link>, c: string)
    ensures c in Recollected(contracts, deals) <==>
            c in contracts || exists j :: 0 <= j < |deals| && deals[j].cid == c
    ensures c in contracts ==> Recollected(contracts, deals)[c] == contracts[c]
    ensures c in Recollected(contracts, deals) && c !in contracts ==>
              exists j :: 0 <= j < |deals| && New(contracts, deals, j) &&
                deals[j] == Link(c, Recollected(contracts, deals)[c])
    ensures forall j :: 0 <= j < |deals| && New(contracts, deals, j) && deals[j].cid == c ==>
              c in Recollected(contracts, deals) && Recollected(contracts, deals)[c] == deals[j].fid
  {
    if deals != [] {
      var n := |deals| - 1;
      var front := deals[..n];
      RecollectedContracts(contracts, front, c);
      forall j | 0 <= j < n ensures New(contracts, front, j) == New(contracts, deals, j) {
      }
      if c in Recollected(contracts, front) {
        if c !in contracts {
          var j :| 0 <= j < |front| && New(contracts, front, j) &&
                   front[j] == Link(c, Recollected(contracts, front)[c]);
          assert deals[j] == front[j] && New(contracts, deals, j);
        }
      } else if deals[n].cid == c {
        assert New(contracts, deals, n);
      }
    }
  }

  /** A file is referenced afterwards exactly if it was before, or a deal whose
      contract id was free brought it in. */
  lemma ReferencedAfterRecollection(contracts: map<string, string>, deals: seq<Link>, f: string)
    ensures Referenced(Recollected(contracts, deals), f) <==>
            Referenced(contracts, f) || AddedByDeal(contracts, deals, f)
  {
    var after := Recollected(contracts, deals);
    if Referenced(after, f) {
      var c :| c in after && after[c] == f;
      RecollectedContracts(contracts, deals, c);
    }
    if Referenced(contracts, f) {
      var c :| c in contracts && contracts[c] == f;
      RecollectedContracts(contracts, deals, c);
      assert after[c] == f;
    }
    if AddedByDeal(contracts, deals, f) {
      var j :| 0 <= j < |deals| && deals[j].fid == f && New(contracts, deals, j);
      RecollectedContracts(contracts, deals, deals[j].cid);
      assert after[deals[j].cid] == f;
    }
  }

  /** Index and chain agree, and the chain names one file for each contract. */
  predicate Agree(contracts: map<string, string>, deals: seq<Link>) {
    && (forall i :: 0 <= i < |deals| && deals[i].cid in contracts ==> contracts[deals[i].cid] == deals[i].fid)
    && (forall i, j :: 0 <= i < j < |deals| && deals[i].cid == deals[j].cid ==> deals[i].fid == deals[j].fid)
  }

  lemma {:induction false} FirstDealFor(contracts: map<string, string>, deals: seq<Link>, i: int) returns (j: int)
    requires 0 <= i < |deals| && deals[i].cid !in contracts
    ensures 0 <= j <= i && deals[j].cid == deals[i].cid && New(contracts, deals, j)
    decreases i
  {
    if New(contracts, deals, i) {
      j := i;
    } else {
      var k :| 0 <= k < i && deals[k].cid == deals[i].cid;
      j := FirstDealFor(contracts, deals, k);
    }
  }

  /** Recollection followed by pruning removes the directory of an active deal
      exactly when that deal's file is referenced neither by the index nor by a
      deal with a free contract id; under agreement no such directory is removed. */
  lemma LiveDealsKept(contracts: map<string, string>, deals: seq<Link>, dirs: set<string>)
    ensures forall d :: d in deals && d.fid in dirs ==>
              (d.fid in Kept(dirs, Recollected(contracts, deals)) <==>
               Referenced(contracts, d.fid) || AddedByDeal(contracts, deals, d.fid))
    ensures Agree(contracts, deals) ==>
              forall d :: d in deals && d.fid in dirs ==> d.fid in Kept(dirs, Recollected(contracts, deals))
  {
    forall d | d in deals && d.fid in dirs
      ensures d.fid in Kept(dirs, Recollected(contracts, deals)) <==>
              Referenced(contracts, d.fid) || AddedByDeal(contracts, deals, d.fid)
      ensures Agree(contracts, deals) ==> d.fid in Kept(dirs, Recollected(contracts, deals))
    {
      ReferencedAfterRecollection(contracts, deals, d.fid);
      var i :| 0 <= i < |deals| && deals[i] == d;
      if Agree(contracts, deals) {
        if d.cid in contracts {
          assert contracts[d.cid] == d.fid;
        } else {
          var j := FirstDealFor(contracts, deals, i);
          assert deals[j].fid == d.fid;
        }
      }
    }
  }

  /** Where index and chain disagree, a live deal's directory can be pruned. */
  lemma DisagreementLosesDeal()
    ensures var contracts, deals := map["c" := "g"], [Link("c", "f")];
            !Agree(contracts, deals) && "f" !in Kept({"f", "g"}, Recollected(contracts, deals))
  {
    var contracts, deals := map["c" := "g"], [Link("c", "f")];
    assert Recollected(contracts, deals) == contracts by {
      assert deals[..|deals| - 1] == [];
    }
    assert deals[0].cid in contracts;
  }

  lemma {:induction false} RecollectedTwice(contracts: map<string, string>, deals: seq<Link>, k: nat)
    requires k <= |deals|
    ensures Recollected(Recollected(contracts, deals), deals[..k]) == Recollected(contracts, deals)
  {
    if k > 0 {
      RecollectedTwice(contracts, deals, k - 1);
      assert deals[..k][..|deals[..k]| - 1] == deals[..k - 1];
      RecollectedContracts(contracts, deals, deals[k - 1].cid);
    }
  }

  /** Running the pair again changes nothing. */
  lemma PairIdempotent(contracts: map<string, string>, deals: seq<Link>, dirs: set<string>)
    ensures var after := Recollected(contracts, deals);
            Recollected(after, deals) == after && Kept(Kept(dirs, after), after) == Kept(dirs, after)
  {
    RecollectedTwice(contracts, deals, |deals|);
    assert deals[..|deals|] == deals;
  }

  // ------------------------------------------------------- the deals that are queried

  function LinksOf(deals: seq<ActiveDeals.Deal>): seq<Link> {
    seq(|deals|, i requires 0 <= i < |deals| => Link(deals[i].cid, deals[i].fid))
  }

  /** A provider's deals on all pages, as contracts for files. */
  function OwnLinks(pages: seq<seq<ActiveDeals.Deal>>, address: string): seq<Link> {
    LinksOf(ActiveDeals.OfProvider(Flatten(pages), address))
  }

  lemma OwnLinksStep(listed: seq<ActiveDeals.Deal>, address: string)
    requires listed != []
    ensures var n := |listed| - 1;
            var before := LinksOf(ActiveDeals.OfProvider(listed[..n], address));
            LinksOf(ActiveDeals.OfProvider(listed, address)) ==
            if listed[n].provider == address then before + [Link(listed[n].cid, listed[n].fid)] else before
  {
  }

  lemma RecollectedStep(contracts: map<string, string>, deals: seq<Link>, l: Link)
    ensures Recollected(contracts, deals + [l]) ==
            if l.cid in Recollected(contracts, deals) then Recollected(contracts, deals)
            else Recollected(contracts, deals)[l.cid := l.fid]
  {
    assert (deals + [l])[..|deals|] == deals;
  }

  predicate Names(d: ActiveDeals.Deal, address: string, cid: string) {
    d.provider == address && d.cid == cid
  }

  predicate FirstToName(listed: seq<ActiveDeals.Deal>, address: string, cid: string, j: int)
    requires 0 <= j < |listed|
  {
    Names(listed[j], address, cid) && forall k :: 0 <= k < j ==> !Names(listed[k], address, cid)
  }

  lemma FirstInFront(listed: seq<ActiveDeals.Deal>, address: string, cid: string, j: int)
    requires 0 <= j < |listed| - 1
    ensures FirstToName(listed[..|listed| - 1], address, cid, j) <==> FirstToName(listed, address, cid, j)
  {
    assert forall k :: 0 <= k < |listed| - 1 ==> listed[..|listed| - 1][k] == listed[k];
  }

  /** What is held for a contract after our listed deals have been inserted: what was
      held before, or the file of the first of our deals with its id. */
  predicate HeldRightly(contracts: map<string, string>, after: map<string, string>,
                        listed: seq<ActiveDeals.Deal>, address: string, cid: string) {
    && (cid in after <==> cid in contracts || exists j :: 0 <= j < |listed| && Names(listed[j], address, cid))
    && (cid in contracts ==> cid in after && after[cid] == contracts[cid])
    && (cid !in contracts ==>
          forall j :: 0 <= j < |listed| && FirstToName(listed, address, cid, j) ==>
            cid in after && after[cid] == listed[j].fid)
  }

  lemma InsertedOneMore(contracts: map<string, string>, before: map<string, string>, after: map<string, string>,
                        listed: seq<ActiveDeals.Deal>, address: string, cid: string)
    requires listed != []
    requires var front, d := listed[..|listed| - 1], listed[|listed| - 1];
             && HeldRightly(contracts, before, front, address, cid)
             && after == if d.provider == address && d.cid !in before then before[d.cid := d.fid] else before
    ensures HeldRightly(contracts, after, listed, address, cid)
  {
    var n := |listed| - 1;
    var front, last := listed[..n], listed[n];
    assert forall j :: 0 <= j < n ==> front[j] == listed[j];
    LastToName(listed, address, cid);
    hide FirstToName;
    forall j | 0 <= j < n ensures FirstToName(front, address, cid, j) <==> FirstToName(listed, address, cid, j) {
      FirstInFront(listed, address, cid, j);
    }
    if cid in before {
      assert cid in contracts || exists j :: 0 <= j < n && Names(listed[j], address, cid);
    }
  }

  lemma {:induction false} RecollectedOwnDeals(
      contracts: map<string, string>, listed: seq<ActiveDeals.Deal>, address: string, cid: string)
    ensures HeldRightly(contracts, Recollected(contracts, LinksOf(ActiveDeals.OfProvider(listed, address))),
                        listed, address, cid)
  {
    if listed != [] {
      hide *;
      var n := |listed| - 1;
      RecollectedOwnDeals(contracts, listed[..n], address, cid);
      OwnLinksStep(listed, address);
      var before := LinksOf(ActiveDeals.OfProvider(listed[..n], address));
      RecollectedStep(contracts, before, Link(listed[n].cid, listed[n].fid));
      InsertedOneMore(contracts, Recollected(contracts, before),
                      Recollected(contracts, LinksOf(ActiveDeals.OfProvider(listed, address))), listed, address, cid);
    }
  }

  /** The last is the first to name a contract exactly if it names it and none before does. */
  lemma LastToName(listed: seq<ActiveDeals.Deal>, address: string, cid: string)
    requires listed != []
    ensures var n := |listed| - 1;
            FirstToName(listed, address, cid, n) <==>
            Names(listed[n], address, cid) && !exists j :: 0 <= j < n && Names(listed[j], address, cid)
  {
  }

  /** Recollecting what the chain lists for a provider, and pruning, keeps the
      directory of each of that provider's deals on any page, if index and chain
      agree on them; in general exactly those that are referenced. */
  lemma OwnDealsKept(contracts: map<string, string>, pages: seq<seq<ActiveDeals.Deal>>, address: string,
                     dirs: set<string>, d: ActiveDeals.Deal)
    requires d in Flatten(pages) && d.provider == address && d.fid in dirs
    ensures var deals := OwnLinks(pages, address);
            var kept := Kept(dirs, Recollected(contracts, deals));
            && (d.fid in kept <==> Referenced(contracts, d.fid) || AddedByDeal(contracts, deals, d.fid))
            && (Agree(contracts, deals) ==> d.fid in kept)
  {
    hide Recollected, Kept, Agree, AddedByDeal, Referenced;
    var mine := ActiveDeals.OfProvider(Flatten(pages), address);
    assert d in mine;
    var i :| 0 <= i < |mine| && mine[i] == d;
    assert LinksOf(mine)[i] == Link(d.cid, d.fid);
    LiveDealsKept(contracts, OwnLinks(pages, address), dirs);
  }
}
