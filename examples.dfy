/**
 * Worked request sequences, proved from the controllers' contracts alone: client 5 exists,
 * trip 10 has MaxPeople 2 and two of its places are taken by clients 1 and 2.
 */
module Examples {
  import opened Wrappers
  import opened Tables
  import opened Responses
  import ClientService
  import ClientsController

  function SampleClients(): seq<ClientRow>
  {
    [ ClientRow(5, "Ann", "Nowak", "ann@example.com", None, None),
      ClientRow(1, "Bo", "Lis", "bo@example.com", Some("123"), None),
      ClientRow(2, "Cy", "Kot", "cy@example.com", None, Some("900")) ]
  }

  /** Registering client 5 for the full trip answers 400 and inserts nothing. */
  method FullTripIsRefused(today: int)
    requires ClientService.IsDate8(today)
  {
    var regs := [Registration(1, 10, 20240101, None), Registration(2, 10, 20240102, Some(20240105))];
    var db := new Database(SampleClients(), [TripRow(10, 2)], regs);
    assert db.clients[0].idClient == 5 && HasClient(db.clients, 5);
    assert db.trips[0].idTrip == 10 && HasTrip(db.trips, 10);
    assert Capacity(db.trips, 10) == 2;
    assert !Registered(db.clientTrips, 5, 10);
    assert CountFor(db.clientTrips, 10) == 2 by {
      assert regs[..1][..0] == [] && regs[..|regs| - 1] == regs[..1];
    }
    var r := ClientsController.AddTrip(db, 5, 10, today);
    assert r == TripFull(10) && r.Status() == 400;
    assert db.clientTrips == regs;
  }

  /** Cancelling client 1's registration answers 204 and leaves only client 2's row. */
  method CancellationFreesPlace()
  {
    var regs := [Registration(1, 10, 20240101, None), Registration(2, 10, 20240102, Some(20240105))];
    var db := new Database(SampleClients(), [TripRow(10, 2)], regs);
    assert db.clients[1].idClient == 1 && HasClient(db.clients, 1);
    assert db.trips[0].idTrip == 10 && HasTrip(db.trips, 10);
    assert db.clientTrips[0].idClient == 1 && db.clientTrips[0].idTrip == 10;
    var r := ClientsController.DeleteClientFromTrip(db, 1, 10);
    assert r == NoContent && r.Status() == 204;
    assert db.clientTrips == [Registration(2, 10, 20240102, Some(20240105))] by {
      assert regs[..1][..0] == [] && regs[..|regs| - 1] == regs[..1];
    }
  }

  /** With a place free, registering client 5 answers 201 and inserts its row; registering again answers 409. */
  method FreePlaceIsTakenOnce(today: int)
    requires ClientService.IsDate8(today)
  {
    var regs := [Registration(2, 10, 20240102, Some(20240105))];
    var db := new Database(SampleClients(), [TripRow(10, 2)], regs);
    assert db.clients[0].idClient == 5 && HasClient(db.clients, 5);
    assert db.trips[0].idTrip == 10 && HasTrip(db.trips, 10);
    assert Capacity(db.trips, 10) == 2;
    assert !Registered(db.clientTrips, 5, 10);
    assert CountFor(db.clientTrips, 10) == 1 by {
      assert regs[..0] == [];
    }
    var r := ClientsController.AddTrip(db, 5, 10, today);
    assert r == Created && r.Status() == 201;
    assert db.clientTrips == regs + [Registration(5, 10, today, None)];
    r := ClientsController.AddTrip(db, 5, 10, today);
    assert r == AlreadyRegistered(5, 10) && r.Status() == 409;
    assert |db.clientTrips| == 2;
  }
}
