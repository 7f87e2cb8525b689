/**
 * The trip data-access service: the trip listing and single-trip folds over left-join rows,
 * the existence probe and the capacity rule.
 */
module TripsService {
  import opened Wrappers
  import opened Tables
  import opened Grouping

  /** The columns of one row of the trip/country join besides the trip id and the country. */
  datatype TripInfo = TripInfo(name: string, description: string, dateFrom: int, dateTo: int, maxPeople: int)

  type TripJoinRow = JoinRow<TripInfo>
  type TripDTO = Group<TripInfo>

  /** One record per trip, in order of first appearance (rows: the join result ordered by trip id). */
  method GetTrips(rows: seq<TripJoinRow>) returns (trips: seq<TripDTO>)
    ensures trips == Grouped(rows)
    ensures forall i, j :: 0 <= i < j < |trips| ==> trips[i].key != trips[j].key
    ensures forall k :: HasKey(rows, k) <==> exists i :: 0 <= i < |trips| && trips[i].key == k
    ensures SortedByKey(rows) ==> forall i, j :: 0 <= i < j < |trips| ==> trips[i].key < trips[j].key
  {
    trips := GroupByKey(rows);
    if SortedByKey(rows) {
      SortedKeysAscending(rows);
    }
  }

  function TripExists(db: Database, tripId: int): (r: bool)
    reads db
    ensures r <==> HasTrip(db.trips, tripId)
  {
    Find(db.trips, (t: TripRow) => t.idTrip == tripId).Some?
  }

  /**
   * The record built from the first row, with every later row only adding its country
   * (rows: the join result for tripId). An empty result gives None, the null the source returns.
   */
  method GetTrip(tripId: int, rows: seq<TripJoinRow>) returns (trip: Option<TripDTO>)
    ensures trip == Collapse(rows)
    ensures trip.None? <==> rows == []
    ensures trip.Some? ==> trip.value.key == rows[0].key && trip.value.head == rows[0].head
    ensures trip.Some? && (forall i :: 0 <= i < |rows| ==> rows[i].key == tripId) ==> trip.value.key == tripId
  {
    trip := None;
    var i := 0;
    while i < |rows|
      invariant 0 <= i <= |rows|
      invariant trip == Collapse(rows[..i])
    {
      var row := rows[i];
      assert rows[..i + 1] == rows[..i] + [row];
      assert rows[..i + 1][..i] == rows[..i];
      assert CountryNames(rows[..i + 1])
          == CountryNames(rows[..i]) + if row.country.Some? then [row.country.value] else [];
      assert rows[..i + 1][0] == rows[0];
      if trip.None? {
        assert i == 0 && rows[..i] == [];
        trip := Some(Group(row.key, row.head, []));
      }
      if row.country.Some? {
        trip := Some(trip.value.(countries := trip.value.countries + [row.country.value]));
      } else {
        assert trip.value.countries + [] == trip.value.countries;
      }
      assert trip == Collapse(rows[..i + 1]);
      i := i + 1;
    }
    assert rows[..i] == rows;
  }

  /** Full when the trip's registrations reach its MaxPeople; a trip that does not exist is never full. */
  function IsTripFull(db: Database, tripId: int): (r: bool)
    reads db
    ensures !HasTrip(db.trips, tripId) ==> !r
    ensures HasTrip(db.trips, tripId) ==> (r <==> CountFor(db.clientTrips, tripId) >= Capacity(db.trips, tripId))
  {
    match Find(db.trips, (t: TripRow) => t.idTrip == tripId)
    case None => false
    case Some(i) =>
      CapacityIsFirstRow(db.trips, tripId, i);
      CountFor(db.clientTrips, tripId) >= db.trips[i].maxPeople
  }
}
