/**
 * The client data-access service: existence probes, row-to-DTO mapping, the per-client
 * trip listing and the two writes to the registration table.
 */
module ClientService {
  import opened Wrappers
  import opened Tables
  import Grouping

  /** The client record handed to callers; a NULL column stays None. */
  datatype ClientDTO = ClientDTO(
    idClient: int, firstName: string, lastName: string, email: string,
    telephone: Option<string>, pesel: Option<string>)

  /** The columns of one row of the per-client join besides the trip id and the country. */
  datatype ClientTripInfo = ClientTripInfo(
    name: string, description: string, dateFrom: int, dateTo: int, maxPeople: int,
    registeredAt: int, paymentDate: Option<int>)

  type ClientTripRow = Grouping.JoinRow<ClientTripInfo>
  type ClientTripDTO = Grouping.Group<ClientTripInfo>

  /** A date in the yyyyMMdd encoding of the registration table. */
  predicate IsDate8(d: int)
  {
    10000000 <= d <= 99999999
  }

  function ToClientDTO(row: ClientRow): ClientDTO
  {
    ClientDTO(row.idClient, row.firstName, row.lastName, row.email, row.telephone, row.pesel)
  }

  function ClientExists(db: Database, clientId: int): (r: bool)
    reads db
    ensures r <==> HasClient(db.clients, clientId)
  {
    Find(db.clients, (row: ClientRow) => row.idClient == clientId).Some?
  }

  /** Every client row as a DTO, in table order. */
  method GetClients(db: Database) returns (clients: seq<ClientDTO>)
    ensures |clients| == |db.clients|
    ensures forall i :: 0 <= i < |clients| ==> clients[i] == ToClientDTO(db.clients[i])
  {
    clients := [];
    var i := 0;
    while i < |db.clients|
      invariant 0 <= i <= |db.clients|
      invariant |clients| == i
      invariant forall j :: 0 <= j < i ==> clients[j] == ToClientDTO(db.clients[j])
    {
      clients := clients + [ToClientDTO(db.clients[i])];
      i := i + 1;
    }
  }

  /** Row i is the first Client row with this id: the one a single ReadAsync sees. */
  predicate FirstClientRow(clients: seq<ClientRow>, id: int, i: int)
  {
    0 <= i < |clients| && clients[i].idClient == id && forall j :: 0 <= j < i ==> clients[j].idClient != id
  }

  /** The DTO of the first client row with this id, or None (null) when there is none. */
  function GetClient(db: Database, id: int): (r: Option<ClientDTO>)
    reads db
    ensures r.None? <==> !HasClient(db.clients, id)
    ensures r.Some? ==> r.value.idClient == id
    ensures r.Some? ==> exists i :: FirstClientRow(db.clients, id, i) && r.value == ToClientDTO(db.clients[i])
  {
    match Find(db.clients, (row: ClientRow) => row.idClient == id)
    case None => None
    case Some(i) => Some(ToClientDTO(db.clients[i]))
  }

  /** The client's registrations folded into one record per trip id (rows: the join result for clientId). */
  method GetTripsForClient(clientId: int, rows: seq<ClientTripRow>) returns (trips: seq<ClientTripDTO>)
    ensures trips == Grouping.Grouped(rows)
    ensures forall i, j :: 0 <= i < j < |trips| ==> trips[i].key != trips[j].key
    ensures forall k :: Grouping.HasKey(rows, k) <==> exists i :: 0 <= i < |trips| && trips[i].key == k
  {
    trips := Grouping.GroupByKey(rows);
  }

  /** Inserts the row (clientId, tripId, today, NULL); no check is made here. */
  method AddClientToTheTrip(db: Database, clientId: int, tripId: int, today: int)
    requires IsDate8(today)
    modifies db
    ensures db.clientTrips == old(db.clientTrips) + [Registration(clientId, tripId, today, None)]
    ensures db.clients == old(db.clients) && db.trips == old(db.trips)
    ensures Registered(db.clientTrips, clientId, tripId)
  {
    RegisteredAfterAppend(db.clientTrips, Registration(clientId, tripId, today, None));
    db.clientTrips := db.clientTrips + [Registration(clientId, tripId, today, None)];
  }

  function IsClientRegisteredForTrip(db: Database, clientId: int, tripId: int): (r: bool)
    reads db
    ensures r <==> Registered(db.clientTrips, clientId, tripId)
  {
    Find(db.clientTrips, (x: Registration) => x.idClient == clientId && x.idTrip == tripId).Some?
  }

  /** Deletes every row of the pair; deleting a pair that is not registered changes nothing. */
  method DeleteClientTripRegistration(db: Database, clientId: int, tripId: int)
    modifies db
    ensures db.clientTrips == RemovePair(old(db.clientTrips), clientId, tripId)
    ensures !Registered(db.clientTrips, clientId, tripId)
    ensures !Registered(old(db.clientTrips), clientId, tripId) ==> db.clientTrips == old(db.clientTrips)
    ensures db.clients == old(db.clients) && db.trips == old(db.trips)
  {
    db.clientTrips := RemovePair(db.clientTrips, clientId, tripId);
  }
}
