/**
 * The relational database, replaced by in-memory tables. Only the tables and columns
 * that the services probe or change are kept: the Client table, the Trip table's id and
 * capacity, and the Client_Trip registration table.
 */
module Tables {
  import opened Wrappers

  /** A row of the Client table; NULL Telephone and Pesel columns are None. */
  datatype ClientRow = ClientRow(
    idClient: int, firstName: string, lastName: string, email: string,
    telephone: Option<string>, pesel: Option<string>)

  /** The columns of a Trip row that the services read directly: the id and MaxPeople. */
  datatype TripRow = TripRow(idTrip: int, maxPeople: int)

  /** A row of Client_Trip: dates are yyyyMMdd integers, a NULL PaymentDate means unpaid. */
  datatype Registration = Registration(idClient: int, idTrip: int, registeredAt: int, paymentDate: Option<int>)

  /** The database: each table is a sequence of rows in storage order. */
  class Database {
    var clients: seq<ClientRow>
    var trips: seq<TripRow>
    var clientTrips: seq<Registration>

    constructor (clients: seq<ClientRow>, trips: seq<TripRow>, clientTrips: seq<Registration>)
      ensures this.clients == clients && this.trips == trips && this.clientTrips == clientTrips
    {
      this.clients := clients;
      this.trips := trips;
      this.clientTrips := clientTrips;
    }
  }

  /** The first index whose element satisfies p: what a single-row probe with a WHERE clause returns. */
  function Find<T>(s: seq<T>, p: T -> bool): (r: Option<nat>)
    ensures r.None? <==> forall i :: 0 <= i < |s| ==> !p(s[i])
    ensures r.Some? ==> r.value < |s| && p(s[r.value]) && forall i :: 0 <= i < r.value ==> !p(s[i])
  {
    if s == [] then None
    else if p(s[0]) then Some(0)
    else match Find(s[1..], p)
      case None => None
      case Some(i) => Some(i + 1)
  }

  predicate HasClient(clients: seq<ClientRow>, id: int)
  {
    exists i :: 0 <= i < |clients| && clients[i].idClient == id
  }

  predicate HasTrip(trips: seq<TripRow>, id: int)
  {
    exists i :: 0 <= i < |trips| && trips[i].idTrip == id
  }

  predicate Registered(regs: seq<Registration>, clientId: int, tripId: int)
  {
    exists i :: 0 <= i < |regs| && regs[i].idClient == clientId && regs[i].idTrip == tripId
  }

  /** MaxPeople of the first Trip row with this id. */
  function Capacity(trips: seq<TripRow>, id: int): int
    requires HasTrip(trips, id)
  {
    if trips[0].idTrip == id then trips[0].maxPeople
    else
      assert HasTrip(trips[1..], id) by {
        var i :| 0 <= i < |trips| && trips[i].idTrip == id;
        assert trips[1..][i - 1] == trips[i];
      }
      Capacity(trips[1..], id)
  }

  /** The capacity read is that of the first Trip row with the id. */
  lemma {:induction false} CapacityIsFirstRow(trips: seq<TripRow>, id: int, i: int)
    requires 0 <= i < |trips| && trips[i].idTrip == id
    requires forall j :: 0 <= j < i ==> trips[j].idTrip != id
    ensures HasTrip(trips, id) && Capacity(trips, id) == trips[i].maxPeople
    decreases i
  {
    if i > 0 {
      CapacityIsFirstRow(trips[1..], id, i - 1);
    }
  }

  /** COUNT(*) of the registrations for a trip. */
  function CountFor(regs: seq<Registration>, tripId: int): nat
  {
    if regs == [] then 0
    else CountFor(regs[..|regs| - 1], tripId) + (if regs[|regs| - 1].idTrip == tripId then 1 else 0)
  }

  /** The registration table after deleting every row of the pair (clientId, tripId). */
  function RemovePair(regs: seq<Registration>, clientId: int, tripId: int): (r: seq<Registration>)
    ensures forall x :: x in r <==> x in regs && !(x.idClient == clientId && x.idTrip == tripId)
    ensures !Registered(r, clientId, tripId)
    ensures !Registered(regs, clientId, tripId) ==> r == regs
    ensures forall x :: multiset(r)[x] == if x.idClient == clientId && x.idTrip == tripId then 0 else multiset(regs)[x]
    ensures |r| <= |regs|
  {
    if regs == [] then []
    else
      var init, last := regs[..|regs| - 1], regs[|regs| - 1];
      assert regs == init + [last];
      var rest := RemovePair(init, clientId, tripId);
      assert !Registered(regs, clientId, tripId) ==> !Registered(init, clientId, tripId) by {
        if Registered(init, clientId, tripId) {
          var i :| 0 <= i < |init| && init[i].idClient == clientId && init[i].idTrip == tripId;
          assert regs[i] == init[i];
        }
      }
      var r := if last.idClient == clientId && last.idTrip == tripId then rest else rest + [last];
      assert multiset(regs) == multiset(init) + multiset{last};
      assert r == rest || multiset(r) == multiset(rest) + multiset{last};
      assert !Registered(r, clientId, tripId) by {
        forall i | 0 <= i < |r| ensures !(r[i].idClient == clientId && r[i].idTrip == tripId) {
          if i < |rest| {
            assert r[i] == rest[i];
          }
        }
      }
      r
  }

  // The table invariants that the controllers' pre-checks are there to keep.

  /** At most one registration per (client, trip) pair. */
  ghost predicate AtMostOnePerPair(regs: seq<Registration>)
  {
    forall i, j :: 0 <= i < j < |regs| ==>
      !(regs[i].idClient == regs[j].idClient && regs[i].idTrip == regs[j].idTrip)
  }

  /** No trip has more registrations than the MaxPeople its (first) Trip row allows. */
  ghost predicate WithinCapacity(trips: seq<TripRow>, regs: seq<Registration>)
  {
    forall t :: HasTrip(trips, t) ==> CountFor(regs, t) <= Capacity(trips, t)
  }

  /** Every registration names an existing client and an existing trip. */
  ghost predicate ReferencesExist(clients: seq<ClientRow>, trips: seq<TripRow>, regs: seq<Registration>)
  {
    forall i :: 0 <= i < |regs| ==> HasClient(clients, regs[i].idClient) && HasTrip(trips, regs[i].idTrip)
  }

  // How inserting and deleting registrations affect the invariants.

  lemma RegisteredAfterAppend(regs: seq<Registration>, r: Registration)
    ensures Registered(regs + [r], r.idClient, r.idTrip)
    ensures forall c, t :: Registered(regs, c, t) ==> Registered(regs + [r], c, t)
  {
    assert (regs + [r])[|regs|] == r;
    forall c, t | Registered(regs, c, t) ensures Registered(regs + [r], c, t) {
      var i :| 0 <= i < |regs| && regs[i].idClient == c && regs[i].idTrip == t;
      assert (regs + [r])[i] == regs[i];
    }
  }

  lemma CountAfterAppend(regs: seq<Registration>, r: Registration, t: int)
    ensures CountFor(regs + [r], t) == CountFor(regs, t) + (if r.idTrip == t then 1 else 0)
  {
    assert (regs + [r])[..|regs|] == regs;
  }

  /** Inserting a pair that is not yet registered keeps pairs unique. */
  lemma AppendKeepsPairsUnique(regs: seq<Registration>, r: Registration)
    requires AtMostOnePerPair(regs)
    requires !Registered(regs, r.idClient, r.idTrip)
    ensures AtMostOnePerPair(regs + [r])
  {
    var rs := regs + [r];
    forall i, j | 0 <= i < j < |rs| ensures !(rs[i].idClient == rs[j].idClient && rs[i].idTrip == rs[j].idTrip) {
      if j < |regs| {
        assert rs[i] == regs[i] && rs[j] == regs[j];
      } else {
        assert rs[i] == regs[i];
      }
    }
  }

  /** Inserting into an existing trip that still has a free place keeps every trip within capacity. */
  lemma AppendKeepsCapacity(trips: seq<TripRow>, regs: seq<Registration>, r: Registration)
    requires WithinCapacity(trips, regs)
    requires HasTrip(trips, r.idTrip) && CountFor(regs, r.idTrip) < Capacity(trips, r.idTrip)
    ensures WithinCapacity(trips, regs + [r])
  {
    forall t | HasTrip(trips, t) ensures CountFor(regs + [r], t) <= Capacity(trips, t) {
      CountAfterAppend(regs, r, t);
    }
  }

  lemma AppendKeepsReferences(clients: seq<ClientRow>, trips: seq<TripRow>, regs: seq<Registration>, r: Registration)
    requires ReferencesExist(clients, trips, regs)
    requires HasClient(clients, r.idClient) && HasTrip(trips, r.idTrip)
    ensures ReferencesExist(clients, trips, regs + [r])
  {
    var rs := regs + [r];
    forall i | 0 <= i < |rs| ensures HasClient(clients, rs[i].idClient) && HasTrip(trips, rs[i].idTrip) {
      if i < |regs| {
        assert rs[i] == regs[i];
      }
    }
  }

  /** Deleting a pair's rows never raises any trip's count. */
  lemma {:induction false} RemoveNeverRaisesCount(regs: seq<Registration>, clientId: int, tripId: int, t: int)
    ensures CountFor(RemovePair(regs, clientId, tripId), t) <= CountFor(regs, t)
    decreases |regs|
  {
    if regs != [] {
      var init, last := regs[..|regs| - 1], regs[|regs| - 1];
      RemoveNeverRaisesCount(init, clientId, tripId, t);
      var rest := RemovePair(init, clientId, tripId);
      if !(last.idClient == clientId && last.idTrip == tripId) {
        CountAfterAppend(rest, last, t);
      }
    }
  }

  /** Deleting a pair's rows leaves the count of every other trip as it was. */
  lemma {:induction false} RemoveKeepsOtherCounts(regs: seq<Registration>, clientId: int, tripId: int, t: int)
    requires t != tripId
    ensures CountFor(RemovePair(regs, clientId, tripId), t) == CountFor(regs, t)
    decreases |regs|
  {
    if regs != [] {
      var init, last := regs[..|regs| - 1], regs[|regs| - 1];
      RemoveKeepsOtherCounts(init, clientId, tripId, t);
      var rest := RemovePair(init, clientId, tripId);
      if !(last.idClient == clientId && last.idTrip == tripId) {
        CountAfterAppend(rest, last, t);
      }
    }
  }

  /** Deleting a pair's rows keeps every table invariant. */
  lemma RemoveKeepsInvariants(clients: seq<ClientRow>, trips: seq<TripRow>, regs: seq<Registration>, clientId: int, tripId: int)
    ensures AtMostOnePerPair(regs) ==> AtMostOnePerPair(RemovePair(regs, clientId, tripId))
    ensures WithinCapacity(trips, regs) ==> WithinCapacity(trips, RemovePair(regs, clientId, tripId))
    ensures ReferencesExist(clients, trips, regs) ==> ReferencesExist(clients, trips, RemovePair(regs, clientId, tripId))
  {
    var r := RemovePair(regs, clientId, tripId);
    if WithinCapacity(trips, regs) {
      forall t | HasTrip(trips, t) ensures CountFor(r, t) <= Capacity(trips, t) {
        RemoveNeverRaisesCount(regs, clientId, tripId, t);
      }
    }
    if ReferencesExist(clients, trips, regs) {
      forall i | 0 <= i < |r| ensures HasClient(clients, r[i].idClient) && HasTrip(trips, r[i].idTrip) {
        assert r[i] in regs;
        var j :| 0 <= j < |regs| && regs[j] == r[i];
      }
    }
    if AtMostOnePerPair(regs) {
      RemoveKeepsPairsUnique(regs, clientId, tripId);
    }
  }

  lemma {:induction false} RemoveKeepsPairsUnique(regs: seq<Registration>, clientId: int, tripId: int)
    requires AtMostOnePerPair(regs)
    ensures AtMostOnePerPair(RemovePair(regs, clientId, tripId))
    decreases |regs|
  {
    if regs != [] {
      var init, last := regs[..|regs| - 1], regs[|regs| - 1];
      assert AtMostOnePerPair(init) by {
        forall i, j | 0 <= i < j < |init|
          ensures !(init[i].idClient == init[j].idClient && init[i].idTrip == init[j].idTrip)
        {
          assert init[i] == regs[i] && init[j] == regs[j];
        }
      }
      RemoveKeepsPairsUnique(init, clientId, tripId);
      var rest := RemovePair(init, clientId, tripId);
      if !(last.idClient == clientId && last.idTrip == tripId) {
        assert !Registered(rest, last.idClient, last.idTrip) by {
          forall i | 0 <= i < |rest| ensures !(rest[i].idClient == last.idClient && rest[i].idTrip == last.idTrip) {
            assert rest[i] in init;
            var j :| 0 <= j < |init| && init[j] == rest[i];
            assert regs[j] == init[j];
          }
        }
        AppendKeepsPairsUnique(rest, last);
      }
    }
  }
}
