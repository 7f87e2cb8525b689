/**
 * The clients endpoints: each action runs its existence and state checks one after the
 * other, answers with the first one that fails, and only then calls the service.
 * Calls are taken to run one at a time.
 */
module ClientsController {
  import opened Wrappers
  import opened Tables
  import opened Responses
  import Grouping
  import ClientService
  import TripsService

  /** GET /clients: always 200 with every client. */
  method GetClients(db: Database) returns (r: Response<seq<ClientService.ClientDTO>>)
    ensures r.Status() == 200 && r.Ok?
    ensures |r.body| == |db.clients|
    ensures forall i :: 0 <= i < |r.body| ==> r.body[i] == ClientService.ToClientDTO(db.clients[i])
  {
    var clients := ClientService.GetClients(db);
    r := Ok(clients);
  }

  /** GET /clients/{id}: 404 when the client is missing, otherwise 200 with its record. */
  function GetClient(db: Database, id: int): (r: Response<Option<ClientService.ClientDTO>>)
    reads db
    ensures r.Status() == 404 <==> !HasClient(db.clients, id)
    ensures r.Status() == 404 ==> r == ClientNotFound(id)
    ensures r.Status() != 404 ==> r.Ok? && r.body == ClientService.GetClient(db, id)
    ensures r.Ok? ==> r.body.Some? && r.body.value.idClient == id
  {
    if !ClientService.ClientExists(db, id) then
      ClientNotFound(id)
    else
      Ok(ClientService.GetClient(db, id))
  }

  /** GET /clients/{id}/trips: 404 when the client is missing, otherwise 200 with the folded rows. */
  method GetTripsForClient(db: Database, clientId: int, rows: seq<ClientService.ClientTripRow>)
    returns (r: Response<seq<ClientService.ClientTripDTO>>)
    ensures r.Status() == 404 <==> !HasClient(db.clients, clientId)
    ensures r.Status() == 404 ==> r == ClientNotFound(clientId)
    ensures r.Status() != 404 ==> r == Ok(Grouping.Grouped(rows))
  {
    if !ClientService.ClientExists(db, clientId) {
      return ClientNotFound(clientId);
    }
    var trips := ClientService.GetTripsForClient(clientId, rows);
    return Ok(trips);
  }

  /** The four checks of AddTrip, all passed. */
  ghost predicate MayRegister(clients: seq<ClientRow>, trips: seq<TripRow>, regs: seq<Registration>, clientId: int, tripId: int)
  {
    && HasClient(clients, clientId)
    && HasTrip(trips, tripId)
    && !Registered(regs, clientId, tripId)
    && CountFor(regs, tripId) < Capacity(trips, tripId)
  }

  /**
   * PUT /clients/{clientId}/trips/{tripId}: client missing 404, trip missing 404, already
   * registered 409, trip full 400, in that order; otherwise one row is inserted and 201 returned.
   */
  method AddTrip(db: Database, clientId: int, tripId: int, today: int) returns (r: Response<()>)
    requires ClientService.IsDate8(today)
    modifies db
    ensures db.clients == old(db.clients) && db.trips == old(db.trips)
    ensures !HasClient(db.clients, clientId) ==> r == ClientNotFound(clientId)
    ensures HasClient(db.clients, clientId) && !HasTrip(db.trips, tripId) ==> r == TripNotFound(tripId)
    ensures (HasClient(db.clients, clientId) && HasTrip(db.trips, tripId)
             && Registered(old(db.clientTrips), clientId, tripId))
         ==> r == AlreadyRegistered(clientId, tripId)
    ensures (HasClient(db.clients, clientId) && HasTrip(db.trips, tripId)
             && !Registered(old(db.clientTrips), clientId, tripId)
             && CountFor(old(db.clientTrips), tripId) >= Capacity(db.trips, tripId))
         ==> r == TripFull(tripId)
    ensures r == Created <==> MayRegister(db.clients, db.trips, old(db.clientTrips), clientId, tripId)
    ensures r == Created ==> db.clientTrips == old(db.clientTrips) + [Registration(clientId, tripId, today, None)]
    ensures r == Created ==> Registered(db.clientTrips, clientId, tripId)
    ensures r != Created ==> db.clientTrips == old(db.clientTrips)
    ensures AtMostOnePerPair(old(db.clientTrips)) ==> AtMostOnePerPair(db.clientTrips)
    ensures WithinCapacity(db.trips, old(db.clientTrips)) ==> WithinCapacity(db.trips, db.clientTrips)
    ensures ReferencesExist(db.clients, db.trips, old(db.clientTrips))
         ==> ReferencesExist(db.clients, db.trips, db.clientTrips)
  {
    if !ClientService.ClientExists(db, clientId) {
      return ClientNotFound(clientId);
    }
    if !TripsService.TripExists(db, tripId) {
      return TripNotFound(tripId);
    }
    if ClientService.IsClientRegisteredForTrip(db, clientId, tripId) {
      return AlreadyRegistered(clientId, tripId);
    }
    if TripsService.IsTripFull(db, tripId) {
      return TripFull(tripId);
    }
    var reg := Registration(clientId, tripId, today, None);
    if AtMostOnePerPair(db.clientTrips) {
      AppendKeepsPairsUnique(db.clientTrips, reg);
    }
    if ReferencesExist(db.clients, db.trips, db.clientTrips) {
      AppendKeepsReferences(db.clients, db.trips, db.clientTrips, reg);
    }
    if WithinCapacity(db.trips, db.clientTrips) {
      AppendKeepsCapacity(db.trips, db.clientTrips, reg);
    }
    ClientService.AddClientToTheTrip(db, clientId, tripId, today);
    return Created;
  }

  /**
   * DELETE /clients/{clientId}/trips/{tripId}: client missing 404, trip missing 404, not
   * registered 400, in that order; otherwise the pair's rows are deleted and 204 returned.
   */
  method DeleteClientFromTrip(db: Database, clientId: int, tripId: int) returns (r: Response<()>)
    modifies db
    ensures db.clients == old(db.clients) && db.trips == old(db.trips)
    ensures !HasClient(db.clients, clientId) ==> r == ClientNotFound(clientId)
    ensures HasClient(db.clients, clientId) && !HasTrip(db.trips, tripId) ==> r == TripNotFound(tripId)
    ensures (HasClient(db.clients, clientId) && HasTrip(db.trips, tripId)
             && !Registered(old(db.clientTrips), clientId, tripId))
         ==> r == NotRegistered(clientId, tripId)
    ensures r == NoContent
        <==> (HasClient(db.clients, clientId) && HasTrip(db.trips, tripId)
              && Registered(old(db.clientTrips), clientId, tripId))
    ensures r == NoContent ==> db.clientTrips == RemovePair(old(db.clientTrips), clientId, tripId)
    ensures r == NoContent ==> !Registered(db.clientTrips, clientId, tripId)
    ensures r != NoContent ==> db.clientTrips == old(db.clientTrips)
    ensures AtMostOnePerPair(old(db.clientTrips)) ==> AtMostOnePerPair(db.clientTrips)
    ensures WithinCapacity(db.trips, old(db.clientTrips)) ==> WithinCapacity(db.trips, db.clientTrips)
    ensures ReferencesExist(db.clients, db.trips, old(db.clientTrips))
         ==> ReferencesExist(db.clients, db.trips, db.clientTrips)
  {
    if !ClientService.ClientExists(db, clientId) {
      return ClientNotFound(clientId);
    }
    if !TripsService.TripExists(db, tripId) {
      return TripNotFound(tripId);
    }
    if !ClientService.IsClientRegisteredForTrip(db, clientId, tripId) {
      return NotRegistered(clientId, tripId);
    }
    RemoveKeepsInvariants(db.clients, db.trips, db.clientTrips, clientId, tripId);
    ClientService.DeleteClientTripRegistration(db, clientId, tripId);
    return NoContent;
  }
}
