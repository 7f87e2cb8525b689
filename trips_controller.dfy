/** The trips endpoints: a listing, and a lookup guarded by an existence check. */
module TripsController {
  import opened Wrappers
  import opened Tables
  import opened Responses
  import Grouping
  import TripsService

  /** GET /trips: always 200 with the service's listing (rows: the join result ordered by trip id). */
  method GetTrips(rows: seq<TripsService.TripJoinRow>) returns (r: Response<seq<TripsService.TripDTO>>)
    ensures r.Status() == 200
    ensures r == Ok(Grouping.Grouped(rows))
    ensures Grouping.SortedByKey(rows) ==> forall i, j :: 0 <= i < j < |r.body| ==> r.body[i].key < r.body[j].key
  {
    var trips := TripsService.GetTrips(rows);
    r := Ok(trips);
  }

  /**
   * GET /trips/{id}: 404 when the trip does not exist, without reading the join rows;
   * otherwise 200 with the record the service builds from them (rows: the join result for id).
   */
  method GetTrip(db: Database, id: int, rows: seq<TripsService.TripJoinRow>) returns (r: Response<Option<TripsService.TripDTO>>)
    ensures r.Status() == 404 <==> !HasTrip(db.trips, id)
    ensures r.Status() == 404 ==> r == TripNotFound(id)
    ensures r.Status() != 404 ==> r == Ok(Grouping.Collapse(rows))
    ensures r.Ok? && rows != [] && (forall i :: 0 <= i < |rows| ==> rows[i].key == id)
         ==> r.body.Some? && r.body.value.key == id
  {
    if !TripsService.TripExists(db, id) {
      return TripNotFound(id);
    }
    var trip := TripsService.GetTrip(id, rows);
    return Ok(trip);
  }
}
