/**
 * SocketPool: a per-endpoint cache of open connections with a size cap.
 * The static state of the Java class (the map of lists, the endpoint list and
 * the per-endpoint cap) is the state of one `SocketPool` object here. An
 * endpoint is represented by its `Address`, the (host, port) pair that its
 * equals and hashCode compare, which is all HashMap and HashSet look at.
 * A connection is an object with a `closed` flag; opening one either yields a
 * fresh open connection or fails with the I/O message passed in.
 */
module Pooling {
  import opened Wrappers
  import opened EndPoints
  import opened BasicUtilities

  /** A cached connection; only whether its socket is closed is modelled. */
  class SocketPoolEntry {
    var closed: bool

    constructor()
      ensures !closed
    {
      closed := false;
    }
  }

  type Lists = map<Address, seq<SocketPoolEntry>>

  // ------------------------------------------------- the pool as a value

  /** The most entries a list may hold: the cap, but a missing key always takes one. */
  function Limit(cap: int): int {
    if cap < 1 then 1 else cap
  }

  /** No list is longer than the cap allows. */
  predicate BoundedBy(pool: Lists, cap: int) {
    forall ep :: ep in pool ==> |pool[ep]| <= Limit(cap)
  }

  /** An empty list for every endpoint of `eps` that is not this host. */
  function EmptyLists(eps: set<Address>, localHost: Option<string>): (r: Lists)
    ensures forall ep :: ep in r <==> ep in eps && !IsHostLocalHost(ep.host, localHost)
    ensures forall ep :: ep in r ==> r[ep] == []
  {
    map ep | ep in eps && !IsHostLocalHost(ep.host, localHost) :: []
  }

  function Elements(eps: seq<Address>): set<Address> {
    set ep | ep in eps
  }

  /** One more endpoint: an empty list for it unless it is this host. */
  lemma InitListsStep(eps: seq<Address>, k: int, localHost: Option<string>)
    requires 0 <= k < |eps|
    ensures var before := EmptyLists(Elements(eps[..k]), localHost);
      EmptyLists(Elements(eps[..k + 1]), localHost) ==
        if IsHostLocalHost(eps[k].host, localHost) then before else before[eps[k] := []]
  {
    assert Elements(eps[..k + 1]) == Elements(eps[..k]) + {eps[k]};
  }

  /** A connection for `ep` is cached. */
  predicate HasCached(pool: Lists, ep: Address) {
    ep in pool && |pool[ep]| > 0
  }

  /** The pool after getSocketPoolEntry polls the head of `ep`'s list. */
  function Taken(pool: Lists, ep: Address): (r: Lists)
    requires HasCached(pool, ep)
    ensures ep in r <==> |pool[ep]| > 1
    ensures ep in r ==> r[ep] == pool[ep][1..]
    ensures forall k :: k != ep ==> (k in r <==> k in pool)
    ensures forall k :: k != ep && k in r ==> r[k] == pool[k]
  {
    if |pool[ep]| == 1 then pool - {ep} else pool[ep := pool[ep][1..]]
  }

  /** The list of `ep` is full: a returned connection is closed instead of cached. */
  predicate AtCapacity(pool: Lists, ep: Address, cap: int) {
    ep in pool && |pool[ep]| >= cap
  }

  /** The pool after returnSocketPoolEntry hands `e` back for `ep`. */
  function Returned(pool: Lists, ep: Address, e: SocketPoolEntry, cap: int): (r: Lists)
    ensures ep in r
    ensures ep !in pool ==> r[ep] == [e]
    ensures ep in pool && !AtCapacity(pool, ep, cap) ==> r[ep] == pool[ep] + [e]
    ensures AtCapacity(pool, ep, cap) ==> r == pool
    ensures forall k :: k != ep ==> (k in r <==> k in pool)
    ensures forall k :: k != ep && k in r ==> r[k] == pool[k]
  {
    if ep !in pool then pool[ep := [e]]
    else if |pool[ep]| < cap then pool[ep := pool[ep] + [e]]
    else pool
  }

  /** Every connection cached in `pool`. */
  function AllEntries(pool: Lists): set<SocketPoolEntry> {
    set ep, e | ep in pool && e in pool[ep] :: e
  }

  /** The connections cached for one endpoint. */
  function EntriesOf(pool: Lists, ep: Address): set<SocketPoolEntry> {
    if ep in pool then set e | e in pool[ep] else {}
  }

  // ------------------------------------------------------ the cap is kept

  lemma TakenKeepsBound(pool: Lists, ep: Address, cap: int)
    requires BoundedBy(pool, cap) && HasCached(pool, ep)
    ensures BoundedBy(Taken(pool, ep), cap)
  {
    var r := Taken(pool, ep);
    forall k | k in r
      ensures |r[k]| <= Limit(cap)
    {
      if k == ep {
        assert |r[k]| == |pool[ep]| - 1;
      } else {
        assert r[k] == pool[k];
      }
    }
  }

  lemma ReturnedKeepsBound(pool: Lists, ep: Address, e: SocketPoolEntry, cap: int)
    requires BoundedBy(pool, cap)
    ensures BoundedBy(Returned(pool, ep, e, cap), cap)
  {
    var r := Returned(pool, ep, e, cap);
    forall k | k in r
      ensures |r[k]| <= Limit(cap)
    {
      if k != ep {
        assert r[k] == pool[k];
      }
    }
  }

  lemma EmptyListsKeepBound(pool: Lists, eps: set<Address>, localHost: Option<string>, cap: int)
    requires BoundedBy(pool, cap)
    ensures BoundedBy(pool + EmptyLists(eps, localHost), cap)
  {
    var r := pool + EmptyLists(eps, localHost);
    forall k | k in r
      ensures |r[k]| <= Limit(cap)
    {
      if k in EmptyLists(eps, localHost) {
        assert r[k] == [];
      } else {
        assert r[k] == pool[k];
      }
    }
  }

  /** A connection returned for an endpoint with nothing cached is the next one
      handed out, and taking it leaves the pool as it was. */
  lemma ReturnThenTake(pool: Lists, ep: Address, e: SocketPoolEntry, cap: int)
    requires ep !in pool
    ensures HasCached(Returned(pool, ep, e, cap), ep)
    ensures Returned(pool, ep, e, cap)[ep][0] == e
    ensures Taken(Returned(pool, ep, e, cap), ep) == pool
  {
    var r := Returned(pool, ep, e, cap);
    assert r == pool[ep := [e]];
    assert r - {ep} == pool;
  }

  /** The list of an endpoint is a queue: connections come back out in the order
      they were returned. */
  lemma ReturnedGoesLast(pool: Lists, ep: Address, e: SocketPoolEntry, cap: int)
    requires HasCached(pool, ep) && !AtCapacity(pool, ep, cap)
    ensures HasCached(Returned(pool, ep, e, cap), ep)
    ensures Returned(pool, ep, e, cap)[ep][0] == pool[ep][0]
    ensures Taken(Returned(pool, ep, e, cap), ep)[ep] == pool[ep][1..] + [e]
  {
    var r := Returned(pool, ep, e, cap);
    assert r[ep] == pool[ep] + [e];
    assert r[ep][1..] == pool[ep][1..] + [e];
  }

  /** The endpoints updatePool adds: in the new list but not the old one. */
  function Added(olds: seq<Address>, news: seq<Address>): set<Address> {
    Elements(news) - Elements(olds)
  }

  /** The endpoints updatePool disconnects: in the old list, not the new one,
      and no longer owning a position on the hash ring. */
  function Dropped(olds: seq<Address>, news: seq<Address>, hashed: set<Address>): set<Address> {
    Elements(olds) - Elements(news) - hashed
  }

  /** The map after a successful updatePool. */
  function Updated(pool: Lists, olds: seq<Address>, news: seq<Address>, hashed: set<Address>, localHost: Option<string>): (r: Lists)
    ensures forall ep :: ep in r <==>
      (ep in Added(olds, news) && !IsHostLocalHost(ep.host, localHost)) ||
      (ep in pool && ep !in Dropped(olds, news, hashed))
    ensures forall ep :: ep in r && ep in Added(olds, news) && !IsHostLocalHost(ep.host, localHost) ==> r[ep] == []
    ensures forall ep :: ep in r && !(ep in Added(olds, news) && !IsHostLocalHost(ep.host, localHost)) ==> r[ep] == pool[ep]
  {
    (pool + EmptyLists(Added(olds, news), localHost)) - Dropped(olds, news, hashed)
  }

  /** An endpoint in both lists keeps exactly the connections it had cached. */
  lemma UpdateKeepsSurvivors(pool: Lists, olds: seq<Address>, news: seq<Address>, hashed: set<Address>, localHost: Option<string>, ep: Address)
    requires ep in olds && ep in news
    ensures ep in Updated(pool, olds, news, hashed, localHost) <==> ep in pool
    ensures ep in pool ==> Updated(pool, olds, news, hashed, localHost)[ep] == pool[ep]
  {
    assert ep in Elements(olds) && ep in Elements(news);
  }

  lemma UpdatedKeepsBound(pool: Lists, olds: seq<Address>, news: seq<Address>, hashed: set<Address>, localHost: Option<string>, cap: int)
    requires BoundedBy(pool, cap)
    ensures BoundedBy(Updated(pool, olds, news, hashed, localHost), cap)
  {
    var r := Updated(pool, olds, news, hashed, localHost);
    forall k | k in r
      ensures |r[k]| <= Limit(cap)
    {
      if !(k in Added(olds, news) && !IsHostLocalHost(k.host, localHost)) {
        assert r[k] == pool[k];
      }
    }
  }

  /** One more endpoint handled by the first loop of updatePool. */
  lemma EmptyListsStep(pool: Lists, done: set<Address>, ep: Address, localHost: Option<string>)
    ensures IsHostLocalHost(ep.host, localHost) ==>
      pool + EmptyLists(done + {ep}, localHost) == pool + EmptyLists(done, localHost)
    ensures !IsHostLocalHost(ep.host, localHost) ==>
      pool + EmptyLists(done + {ep}, localHost) == (pool + EmptyLists(done, localHost))[ep := []]
  {
  }

  /** The connections of one endpoint are among all cached connections. */
  lemma EntriesWithin(pool: Lists, ep: Address)
    ensures EntriesOf(pool, ep) <= AllEntries(pool)
  {
  }

  /** Putting empty lists never adds a connection; every other endpoint keeps its own. */
  lemma EmptyListsDropEntries(pool: Lists, eps: set<Address>, localHost: Option<string>)
    ensures AllEntries(pool + EmptyLists(eps, localHost)) <= AllEntries(pool)
  {
    var r := pool + EmptyLists(eps, localHost);
    forall e | e in AllEntries(r)
      ensures e in AllEntries(pool)
    {
      var ep :| ep in r && e in r[ep];
      assert ep !in EmptyLists(eps, localHost);
      assert e in EntriesOf(pool, ep);
    }
  }

  /** Every connection in `s` is closed. */
  predicate AllClosed(s: set<SocketPoolEntry>)
    reads s
  {
    forall e :: e in s ==> e.closed
  }

  // ------------------------------------------------------------ the class

  class SocketPool {
    /** socketPool: endpoint -> cached connections, head first. */
    var pool: Lists
    /** endPoints; None until initPool (null). */
    var endPoints: Option<seq<Address>>
    /** perEndPointpoolSize. */
    var perEndPointPoolSize: int

    /** The state of the class before any call: an empty map, no list, cap 0. */
    constructor()
      ensures pool == map[] && endPoints == None && perEndPointPoolSize == 0
    {
      pool := map[];
      endPoints := None;
      perEndPointPoolSize := 0;
    }

    predicate Bounded()
      reads this
    {
      BoundedBy(pool, perEndPointPoolSize)
    }

    /** initPool(List<EndPoint>, int): refused when the pool is in use or the
        arguments are invalid; otherwise an empty list (initEndPoint) for every
        endpoint that is not this host, and no connection opened. */
    method InitPool(endPointList: Option<seq<Address>>, poolSize: int, localHost: Option<string>)
      returns (r: Result<()>)
      modifies this
      ensures |old(pool)| > 0 ==>
        r == Err(SocketPoolFailure("Socket pool has already been initialized"))
      ensures |old(pool)| == 0 && (endPointList.None? || |endPointList.value| == 0 || poolSize == 0) ==>
        r == Err(SocketPoolFailure("Invalid initialization parameters"))
      ensures r.Err? ==>
        pool == old(pool) && endPoints == old(endPoints) && perEndPointPoolSize == old(perEndPointPoolSize)
      ensures r.Ok? <==> |old(pool)| == 0 && endPointList.Some? && |endPointList.value| > 0 && poolSize != 0
      ensures r.Ok? ==>
        endPoints == endPointList && perEndPointPoolSize == poolSize &&
        pool == EmptyLists(Elements(endPointList.value), localHost)
      ensures r.Ok? ==> Bounded()
    {
      if |pool| > 0 {
        return Err(SocketPoolFailure("Socket pool has already been initialized"));
      }
      if endPointList.None? || |endPointList.value| == 0 || poolSize == 0 {
        return Err(SocketPoolFailure("Invalid initialization parameters"));
      }
      var eps := endPointList.value;
      endPoints := endPointList;
      perEndPointPoolSize := poolSize;
      assert pool == EmptyLists(Elements(eps[..0]), localHost);
      for k := 0 to |eps|
        invariant pool == EmptyLists(Elements(eps[..k]), localHost)
        invariant endPoints == endPointList && perEndPointPoolSize == poolSize
      {
        InitListsStep(eps, k, localHost);
        if !IsHostLocalHost(eps[k].host, localHost) {
          pool := pool[eps[k] := []];
        }
      }
      assert eps[..|eps|] == eps;
      return Ok(());
    }

    /** disconnectEndPoint(EndPoint): every cached socket of `ep` closed; the map
        itself is left to the caller. A missing key is a null dereference. */
    method DisconnectEndPoint(ep: Address) returns (r: Result<()>)
      modifies EntriesOf(pool, ep)
      ensures r.Err? <==> ep !in pool
      ensures r.Err? ==> r.error == RuntimeFailure(NullPointer)
      ensures r.Ok? ==> forall e :: e in pool[ep] ==> e.closed
    {
      if ep !in pool {
        return Err(RuntimeFailure(NullPointer));
      }
      var socketList := pool[ep];
      for k := 0 to |socketList|
        invariant forall j :: 0 <= j < k ==> socketList[j].closed
      {
        if !socketList[k].closed {
          socketList[k].closed := true;
        }
      }
      return Ok(());
    }

    /** getSocketPoolEntry(EndPoint): the head of the endpoint's cached list,
        dropping the key once the list is empty; with nothing cached, a new
        connection and an unchanged map. */
    method GetSocketPoolEntry(ep: Option<Address>, connectError: Option<string>)
      returns (r: Result<SocketPoolEntry>)
      modifies this
      ensures endPoints == old(endPoints) && perEndPointPoolSize == old(perEndPointPoolSize)
      ensures ep.None? ==>
        r == Err(SocketPoolFailure("Request socket for invalid EndPoint")) && pool == old(pool)
      ensures ep.Some? && HasCached(old(pool), ep.value) ==>
        r == Ok(old(pool)[ep.value][0]) && pool == Taken(old(pool), ep.value)
      ensures ep.Some? && !HasCached(old(pool), ep.value) && connectError.Some? ==>
        r == Err(SocketPoolFailure(connectError.value)) && pool == old(pool)
      ensures ep.Some? && !HasCached(old(pool), ep.value) && connectError.None? ==>
        r.Ok? && fresh(r.value) && !r.value.closed && pool == old(pool)
      ensures old(Bounded()) ==> Bounded()
    {
      if ep.None? {
        return Err(SocketPoolFailure("Request socket for invalid EndPoint"));
      }
      var key := ep.value;
      if key in pool && |pool[key]| > 0 {
        var socketList := pool[key];
        var entry := socketList[0];
        socketList := socketList[1..];
        if |socketList| == 0 {
          pool := pool - {key};
        } else {
          pool := pool[key := socketList];
        }
        if old(Bounded()) {
          TakenKeepsBound(old(pool), key, perEndPointPoolSize);
        }
        return Ok(entry);
      }
      if connectError.Some? {
        return Err(SocketPoolFailure(connectError.value));
      }
      var entry := new SocketPoolEntry();
      return Ok(entry);
    }

    /** returnSocketPoolEntry(EndPoint, SocketPoolEntry): appended at the tail
        while the list is below the cap, closed when it is full, and a new
        one-entry list for an endpoint with none. */
    method ReturnSocketPoolEntry(ep: Option<Address>, entry: SocketPoolEntry?) returns (r: Result<()>)
      modifies this, entry
      ensures endPoints == old(endPoints) && perEndPointPoolSize == old(perEndPointPoolSize)
      ensures r.Err? <==> ep.None? || entry == null
      ensures r.Err? ==>
        r.error == SocketPoolFailure("Can't add SocketEntry back to pool. Invalid EndPoint or SocketEntry.") &&
        pool == old(pool)
      ensures r.Err? && entry != null ==> entry.closed == old(entry.closed)
      ensures r.Ok? ==>
        pool == Returned(old(pool), ep.value, entry, perEndPointPoolSize) &&
        entry.closed == (old(entry.closed) || AtCapacity(old(pool), ep.value, perEndPointPoolSize))
      ensures old(Bounded()) ==> Bounded()
    {
      if ep.None? || entry == null {
        return Err(SocketPoolFailure("Can't add SocketEntry back to pool. Invalid EndPoint or SocketEntry."));
      }
      var key := ep.value;
      var socketList: seq<SocketPoolEntry> := [];
      if key in pool {
        socketList := pool[key];
        if |socketList| < perEndPointPoolSize {
          socketList := socketList + [entry];
        } else {
          if !entry.closed {
            entry.closed := true;
          }
          assert pool[key := socketList] == pool;
        }
      } else {
        socketList := socketList + [entry];
        assert socketList == [entry];
      }
      pool := pool[key := socketList];
      assert pool == Returned(old(pool), key, entry, perEndPointPoolSize);
      if old(Bounded()) {
        ReturnedKeepsBound(old(pool), key, entry, perEndPointPoolSize);
      }
      return Ok(());
    }

    /** updatePool(List<EndPoint>): an empty list for every added endpoint that is
        not this host; every dropped endpoint disconnected and deleted; the new
        list recorded. The set of endpoints still on the hash ring is `hashed`.
        A dropped endpoint with no key in the map (this host, or one whose
        connections are all checked out) makes disconnectEndPoint dereference
        null: the update stops part way and the endpoint list is not replaced. */
    method UpdatePool(newList: Option<seq<Address>>, hashed: set<Address>, localHost: Option<string>)
      returns (r: Result<()>)
      modifies this, AllEntries(pool)
      ensures perEndPointPoolSize == old(perEndPointPoolSize)
      ensures newList.None? || old(endPoints).None? ==> r == Err(RuntimeFailure(NullPointer)) && pool == old(pool)
      ensures r.Err? ==> r.error == RuntimeFailure(NullPointer) && endPoints == old(endPoints)
      ensures newList.Some? && old(endPoints).Some? ==>
        var dropped := Dropped(old(endPoints).value, newList.value, hashed);
        (r.Err? <==> exists ep :: ep in dropped && ep !in old(pool)) &&
        (r.Ok? ==>
          endPoints == newList &&
          pool == Updated(old(pool), old(endPoints).value, newList.value, hashed, localHost) &&
          forall ep :: ep in dropped ==> AllClosed(EntriesOf(old(pool), ep)))
      ensures r.Ok? && old(Bounded()) ==> Bounded()
    {
      if newList.None? || endPoints.None? {
        return Err(RuntimeFailure(NullPointer));
      }
      var olds, news := endPoints.value, newList.value;
      var added := Elements(news) - Elements(olds);
      var removed := Elements(olds) - Elements(news);
      ghost var start := pool;
      PutEmptyLists(added, localHost);
      EmptyListsDropEntries(start, added, localHost);
      forall ep | ep in removed
        ensures EntriesOf(pool, ep) == EntriesOf(start, ep)
      {
        assert ep !in added;
      }
      r := DisconnectAll(removed, hashed);
      if r.Err? {
        return;
      }
      endPoints := Some(news);
      assert pool == Updated(start, olds, news, hashed, localHost);
      if old(Bounded()) {
        UpdatedKeepsBound(start, olds, news, hashed, localHost, perEndPointPoolSize);
      }
    }

    /** The first loop of updatePool: initEndPoint's empty list put for every
        added endpoint that is not this host, in the set's iteration order. */
    method PutEmptyLists(added: set<Address>, localHost: Option<string>)
      modifies this
      ensures pool == old(pool) + EmptyLists(added, localHost)
      ensures endPoints == old(endPoints) && perEndPointPoolSize == old(perEndPointPoolSize)
    {
      var todo := added;
      while todo != {}
        invariant todo <= added
        invariant pool == old(pool) + EmptyLists(added - todo, localHost)
        invariant endPoints == old(endPoints) && perEndPointPoolSize == old(perEndPointPoolSize)
        decreases todo
      {
        ghost var some := PickMember(todo);
        var ep :| ep in todo;
        EmptyListsStep(old(pool), added - todo, ep, localHost);
        if !IsHostLocalHost(ep.host, localHost) {
          pool := pool[ep := []];
        }
        assert added - (todo - {ep}) == (added - todo) + {ep};
        todo := todo - {ep};
      }
    }

    /** The second loop of updatePool: every removed endpoint that is off the
        ring disconnected and deleted, in the set's iteration order, stopping at
        the first one without a key. */
    method DisconnectAll(removed: set<Address>, hashed: set<Address>) returns (r: Result<()>)
      modifies this, AllEntries(pool)
      ensures endPoints == old(endPoints) && perEndPointPoolSize == old(perEndPointPoolSize)
      ensures r.Err? <==> exists ep :: ep in removed - hashed && ep !in old(pool)
      ensures r.Err? ==> r.error == RuntimeFailure(NullPointer)
      ensures r.Ok? ==> pool == old(pool) - (removed - hashed)
      ensures r.Ok? ==> forall ep :: ep in removed - hashed ==> AllClosed(EntriesOf(old(pool), ep))
    {
      ghost var dropped := removed - hashed;
      var todo := removed;
      while todo != {}
        invariant todo <= removed
        invariant pool == old(pool) - (dropped - todo)
        invariant forall ep :: ep in dropped - todo ==> ep in old(pool) && AllClosed(EntriesOf(old(pool), ep))
        invariant endPoints == old(endPoints) && perEndPointPoolSize == old(perEndPointPoolSize)
        decreases todo
      {
        ghost var some := PickMember(todo);
        var ep :| ep in todo;
        if ep !in hashed {
          if ep in pool {
            assert EntriesOf(pool, ep) == EntriesOf(old(pool), ep);
            EntriesWithin(old(pool), ep);
          }
          var d := DisconnectEndPoint(ep);
          if d.Err? {
            assert ep in dropped && ep !in old(pool);
            return d;
          }
          pool := pool - {ep};
        }
        assert dropped - (todo - {ep}) == (dropped - todo) + (if ep in hashed then {} else {ep});
        todo := todo - {ep};
      }
      assert dropped - todo == dropped;
      return Ok(());
    }

    /** shutdown() as written: it deletes from the map inside a for-each over its
        entry set, so after the first endpoint is disconnected and deleted the
        HashMap iterator throws ConcurrentModificationException whenever another
        entry is left. Which endpoint goes first is the map's iteration order. */
    method ShutdownAsWritten() returns (r: Result<()>)
      modifies this, AllEntries(pool)
      ensures endPoints == old(endPoints) && perEndPointPoolSize == old(perEndPointPoolSize)
      ensures r.Err? <==> |old(pool)| >= 2
      ensures r.Err? ==> r.error == RuntimeFailure(ConcurrentModification)
      ensures r.Err? ==> exists ep :: ep in old(pool) && pool == old(pool) - {ep} && AllClosed(EntriesOf(old(pool), ep))
      ensures r.Ok? ==> pool == map[] && AllClosed(AllEntries(old(pool)))
    {
      if |pool| == 0 {
        assert AllEntries(pool) == {};
        return Ok(());
      }
      ghost var start := pool;
      ghost var some := PickMember(pool.Keys);
      var ep :| ep in pool;
      EntriesWithin(pool, ep);
      var d := DisconnectEndPoint(ep);
      pool := pool - {ep};
      assert pool.Keys == start.Keys - {ep};
      if |pool| > 0 {
        return Err(RuntimeFailure(ConcurrentModification));
      }
      assert start.Keys == {ep};
      assert AllEntries(start) == EntriesOf(start, ep);
      return Ok(());
    }

    /** shutdown() as intended: every cached socket closed and the map emptied
        (deleting through the iterator, or from a copy of the key set). */
    method Shutdown()
      modifies this, AllEntries(pool)
      ensures endPoints == old(endPoints) && perEndPointPoolSize == old(perEndPointPoolSize)
      ensures pool == map[]
      ensures AllClosed(AllEntries(old(pool)))
    {
      ghost var start := pool;
      while |pool| > 0
        invariant pool.Keys <= start.Keys
        invariant forall ep :: ep in pool ==> pool[ep] == start[ep]
        invariant forall ep :: ep in start && ep !in pool ==> AllClosed(EntriesOf(start, ep))
        invariant endPoints == old(endPoints) && perEndPointPoolSize == old(perEndPointPoolSize)
        decreases pool.Keys
      {
        ghost var some := PickMember(pool.Keys);
        var ep :| ep in pool;
        assert EntriesOf(pool, ep) == EntriesOf(start, ep);
        EntriesWithin(start, ep);
        var d := DisconnectEndPoint(ep);
        pool := pool - {ep};
      }
      assert pool == map[];
      forall e | e in AllEntries(start)
        ensures e.closed
      {
        var ep :| ep in start && e in start[ep];
        assert e in EntriesOf(start, ep);
      }
    }
  }
}
