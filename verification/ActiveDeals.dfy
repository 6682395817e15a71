/** Listing the chain's active deals page by page. */
module ActiveDeals {
  import opened Wrappers
  import opened Collections

  datatype Deal = Deal(cid: string, fid: string, provider: string)

  /** The deals of a provider, in order: the meaning of every query here. */
  function OfProvider(deals: seq<Deal>, provider: string): (r: seq<Deal>)
    ensures forall d :: d in r <==> d in deals && d.provider == provider
  {
    if deals == [] then []
    else
      var n := |deals| - 1;
      OfProvider(deals[..n], provider) + if deals[n].provider == provider then [deals[n]] else []
  }

  lemma {:induction false} OfProviderConcat(a: seq<Deal>, b: seq<Deal>, provider: string)
    ensures OfProvider(a + b, provider) == OfProvider(a, provider) + OfProvider(b, provider)
  {
    if b == [] {
      assert a + b == a;
    } else {
      var n := |b| - 1;
      assert (a + b)[..|a + b| - 1] == a + b[..n];
      OfProviderConcat(a, b[..n], provider);
      if b[n].provider == provider {
        assert OfProvider(a + b, provider) == (OfProvider(a, provider) + OfProvider(b[..n], provider)) + [b[n]];
      }
    }
  }

  /** The filter loses and duplicates nothing. */
  lemma {:induction false} OfProviderCounts(deals: seq<Deal>, provider: string, d: Deal)
    ensures multiset(OfProvider(deals, provider))[d] == if d.provider == provider then multiset(deals)[d] else 0
  {
    if deals != [] {
      var n := |deals| - 1;
      assert deals == deals[..n] + [deals[n]];
      OfProviderCounts(deals[..n], provider, d);
    }
  }

  /** One answer of the chain: a page, and whether another one follows. */
  datatype Response = Response(deals: seq<Deal>, next: Option<nat>)

  datatype QueryError = RequestFailed

  /** The chain at one height, split into pages; the key of a page is its
      position.  `outcomes` says of each request, in the order they are made,
      whether it succeeds, and requests beyond it succeed. */
  class QueryClient {
    const pages: seq<seq<Deal>>
    var outcomes: seq<bool>

    constructor (pages: seq<seq<Deal>>, outcomes: seq<bool>)
      requires pages != []
      ensures this.pages == pages && this.outcomes == outcomes
    {
      this.pages, this.outcomes := pages, outcomes;
    }

    ghost predicate Succeeds()
      reads this
    {
      outcomes == [] || outcomes[0]
    }

    method ActiveDealsAll(key: nat) returns (r: Result<Response, QueryError>)
      requires key < |pages|
      modifies this
      ensures old(Succeeds()) ==>
                r == Success(Response(pages[key], if key + 1 < |pages| then Some(key + 1) else None))
      ensures !old(Succeeds()) ==> r == Failure(RequestFailed)
      ensures outcomes == if old(outcomes) == [] then [] else old(outcomes)[1..]
    {
      var ok := outcomes == [] || outcomes[0];
      if outcomes != [] {
        outcomes := outcomes[1..];
      }
      if !ok {
        return Failure(RequestFailed);
      }
      return Success(Response(pages[key], if key + 1 < |pages| then Some(key + 1) else None));
    }
  }

  /** Whether the first n requests all succeed. */
  predicate AllSucceed(outcomes: seq<bool>, n: nat) {
    forall i :: 0 <= i < n && i < |outcomes| ==> outcomes[i]
  }

  /** How many of the first n requests succeed before one fails. */
  function Succeeding(outcomes: seq<bool>, n: nat): (k: nat)
    ensures k <= n
  {
    if n == 0 || (outcomes != [] && !outcomes[0]) then 0
    else 1 + Succeeding(if outcomes == [] then [] else outcomes[1..], n - 1)
  }

  lemma {:induction false} SucceedingUpTo(outcomes: seq<bool>, n: nat, k: nat)
    requires k <= n && AllSucceed(outcomes, k)
    ensures k <= Succeeding(outcomes, n)
    ensures k < |outcomes| && !outcomes[k] ==> k == Succeeding(outcomes, n)
  {
    if k > 0 {
      var rest := if outcomes == [] then [] else outcomes[1..];
      assert forall i :: 0 <= i < k - 1 && i < |rest| ==> rest[i] == outcomes[i + 1];
      SucceedingUpTo(rest, n - 1, k - 1);
    }
  }

  class DealQueries {
    const client: QueryClient
    const address: string

    constructor (client: QueryClient, address: string)
      ensures this.client == client && this.address == address
    {
      this.client, this.address := client, address;
    }

    /** Our own deals, retrying every follow-up request until it succeeds: an
        error exactly if the first request fails, otherwise our deals on all
        pages, whatever follow-up requests failed on the way. */
    method QueryOnlyMyActiveDeals() returns (r: Result<seq<Deal>, QueryError>)
      requires client.pages != []
      modifies client
      ensures r.Failure? <==> !old(client.Succeeds())
      ensures r.Success? ==> r.value == OfProvider(Flatten(client.pages), address)
    {
      hide OfProvider, Flatten;
      var first := client.ActiveDealsAll(0);
      if first.Failure? {
        return Failure(first.error);
      }
      var resp := first.value;
      var activeDeals := AppendMine([], resp.deals);
      assert [] + OfProvider(resp.deals, address) == OfProvider(resp.deals, address);
      ghost var at := 0;
      FirstPage(client.pages);
      while resp.next.Some?
        invariant 0 <= at < |client.pages|
        invariant resp == Response(client.pages[at], if at + 1 < |client.pages| then Some(at + 1) else None)
        invariant activeDeals == OfProvider(Flatten(client.pages[..at + 1]), address)
        decreases |client.pages| - at, |client.outcomes|
      {
        var again := client.ActiveDealsAll(resp.next.value);
        if again.Failure? {
          continue;
        }
        resp := again.value;
        activeDeals := AppendMine(activeDeals, resp.deals);
        at := at + 1;
        NextPage(client.pages, at);
        OfProviderConcat(Flatten(client.pages[..at]), client.pages[at], address);
      }
      assert client.pages[..at + 1] == client.pages;
      return Success(activeDeals);
    }

    /** The loop that both page handlers of `QueryOnlyMyActiveDeals` contain. */
    method AppendMine(mine: seq<Deal>, deals: seq<Deal>) returns (r: seq<Deal>)
      ensures r == mine + OfProvider(deals, address)
    {
      hide OfProvider;
      r := mine;
      OneMoreDeal(deals, 0, address);
      assert mine + [] == mine;
      for i := 0 to |deals|
        invariant r == mine + OfProvider(deals[..i], address)
      {
        OneMoreDeal(deals, i, address);
        if deals[i].provider == address {
          assert mine + (OfProvider(deals[..i], address) + [deals[i]]) == r + [deals[i]];
          r := r + [deals[i]];
        }
      }
      assert deals[..|deals|] == deals;
    }

    /** All deals, giving up at the first failure: an error exactly if one of the
        requests for the pages fails, and the pages before it in any case. */
    method QueryAllActiveDeals() returns (activeDeals: seq<Deal>, err: Option<QueryError>)
      requires client.pages != []
      modifies client
      ensures err.None? <==> AllSucceed(old(client.outcomes), |client.pages|)
      ensures activeDeals == Flatten(client.pages[..Succeeding(old(client.outcomes), |client.pages|)])
    {
      hide Succeeding, Flatten;
      NoPages(client.pages);
      SucceedingUpTo(client.outcomes, |client.pages|, 0);
      activeDeals, err := [], None;
      var first := client.ActiveDealsAll(0);
      if first.Failure? {
        return [], Some(first.error);
      }
      var resp := first.value;
      activeDeals := resp.deals;
      ghost var at := 0;
      FirstPage(client.pages);
      while resp.next.Some?
        invariant 0 <= at < |client.pages| && err.None?
        invariant resp == Response(client.pages[at], if at + 1 < |client.pages| then Some(at + 1) else None)
        invariant activeDeals == Flatten(client.pages[..at + 1])
        invariant AllSucceed(old(client.outcomes), at + 1)
        invariant client.outcomes == if at + 1 <= |old(client.outcomes)| then old(client.outcomes)[at + 1..] else []
        decreases |client.pages| - at
      {
        SucceedingUpTo(old(client.outcomes), |client.pages|, at + 1);
        var again := client.ActiveDealsAll(resp.next.value);
        if again.Failure? {
          assert !old(client.outcomes)[at + 1];
          return activeDeals, Some(again.error);
        }
        resp := again.value;
        activeDeals := activeDeals + resp.deals;
        at := at + 1;
        NextPage(client.pages, at);
      }
      SucceedingUpTo(old(client.outcomes), |client.pages|, at + 1);
    }

    /** All our deals, by listing everything and filtering. */
    method QueryMyActiveDeals() returns (r: Result<seq<Deal>, QueryError>)
      requires client.pages != []
      modifies client
      ensures r.Success? <==> AllSucceed(old(client.outcomes), |client.pages|)
      ensures r.Success? ==> r.value == OfProvider(Flatten(client.pages), address)
    {
      var all, err := QueryAllActiveDeals();
      if err.Some? {
        return Failure(err.value);
      }
      SucceedingUpTo(old(client.outcomes), |client.pages|, |client.pages|);
      assert client.pages[..|client.pages|] == client.pages;
      var mine := AppendMine([], all);
      return Success(mine);
    }
  }

  lemma OneMoreDeal(deals: seq<Deal>, i: nat, provider: string)
    requires i <= |deals|
    ensures OfProvider(deals[..0], provider) == []
    ensures i < |deals| ==>
              OfProvider(deals[..i + 1], provider) ==
              if deals[i].provider == provider then OfProvider(deals[..i], provider) + [deals[i]]
              else OfProvider(deals[..i], provider)
  {
    if i < |deals| {
      assert deals[..i + 1][..i] == deals[..i];
    }
  }

  lemma NoPages(pages: seq<seq<Deal>>)
    ensures Flatten(pages[..0]) == []
  {
  }

  lemma FirstPage(pages: seq<seq<Deal>>)
    requires pages != []
    ensures Flatten(pages[..1]) == pages[0]
  {
    assert pages[..1][..0] == [];
  }

  lemma NextPage(pages: seq<seq<Deal>>, k: nat)
    requires k < |pages|
    ensures Flatten(pages[..k + 1]) == Flatten(pages[..k]) + pages[k]
  {
    assert pages[..k + 1][..k] == pages[..k];
  }
}
