# Tutorial8 clients and trips API: a Dafny model

This project models the core of an ASP.NET REST API for clients and trips, written in C#:

- **Registration rules.** Clients register for trips through a `Client_Trip` join table. The controllers run a fixed sequence of existence, duplicate and capacity checks before each write.
- **Row grouping.** The services turn flat left-join rows into one record per trip, and each record collects its country names.

The SQL database becomes three in-memory tables, the fields of class `Tables.Database`:

- `clients`: the rows of `Client`, in storage order;
- `trips`: the `IdTrip` and `MaxPeople` columns of `Trip`;
- `clientTrips`: the rows of `Client_Trip`.

A probe such as `SELECT 1 ... WHERE` reads the first matching row (`Tables.Find`). The results of the join queries are passed in as sequences of `Grouping.JoinRow` values. Each such value holds the trip id, the trip's other columns and a country name that may be NULL (`Option<string>`).

Module layout:

- `Grouping` holds the fold that `GetTrips` and `GetTripsForClient` share. A loop over a map keyed by trip id and a key-order sequence is proved equal to a declarative reference, `Grouped`. The single-trip fold of `GetTrip` has its own reference, `Collapse`.
- `ClientService` and `TripsService` hold the services. The probes are functions that read the database. The two writes are methods that modify it.
- `ClientsController` and `TripsController` return a `Responses.Response`: one constructor per outcome, with `Status()` giving the HTTP code. The 404 outcomes carry the id that the error message names.
- `Tables` holds the table invariants that the controllers' pre-checks keep, with lemmas for inserting and deleting rows. The invariants are at most one row per pair, no trip over its `MaxPeople`, and every registration naming an existing client and trip.
- `Examples` walks through a full-trip scenario using only the controllers' contracts. Client 5 asks for trip 10, which has `MaxPeople` 2 and both places taken.

Where the code's behaviour is surprising, the model follows the code:

- `TripsService.GetTrip` returns `null` when no row matches, although its declared type is non-null. It does not return a "not found" value. The model returns `None`.
- `GetTrips` orders trips by id only through the query's `ORDER BY`, and the fold itself keeps first-appearance order. The model states ascending order under the condition that the rows are sorted.
- Folding the listing's rows filtered to one id gives exactly that id's listed record (`Grouping.CollapseFilter`). A `GetTrip` row stream in a different order is not covered.

## Model

| member | source | states |
|---|---|---|
| `Tables.Find` | Tutorial8/Services/ClientService.cs:25-28 | a keyed probe finds nothing iff no row matches, and otherwise finds the first matching row |
| `Tables.RemovePair` | Tutorial8/Services/ClientService.cs:222-228 | after deleting a pair: a row remains iff it was there and belongs to another pair; every other row keeps its number of copies; the pair is no longer registered; deleting an absent pair leaves the table unchanged |
| `Tables.CapacityIsFirstRow` | Tutorial8/Services/TripsService.cs:164-166 | the capacity read is the `MaxPeople` of the first Trip row with that id |
| `Tables.RegisteredAfterAppend` | Tutorial8/Services/ClientService.cs:184-192 | after a row is inserted, its pair is registered, and every pair registered before still is |
| `Tables.CountAfterAppend` | Tutorial8/Services/TripsService.cs:170-172 | inserting a row raises the `COUNT(*)` of its own trip by one and leaves every other trip's count unchanged |
| `Tables.AppendKeepsPairsUnique` | Tutorial8/Controllers/ClientsController.cs:104-114 | inserting a pair that the duplicate check found unregistered keeps at most one row per pair |
| `Tables.AppendKeepsCapacity` | Tutorial8/Controllers/ClientsController.cs:109-114 | inserting into an existing trip that the capacity check found not full keeps every trip within `MaxPeople` |
| `Tables.AppendKeepsReferences` | Tutorial8/Controllers/ClientsController.cs:94-114 | inserting a row whose client and trip both passed the existence checks keeps every registration pointing at existing rows |
| `Tables.RemoveKeepsOtherCounts` | Tutorial8/Services/ClientService.cs:222-223 | deleting a pair's rows leaves the `COUNT(*)` of every other trip unchanged |
| `Tables.RemoveNeverRaisesCount` | Tutorial8/Services/ClientService.cs:222-223 | deleting a pair's rows never raises any trip's registration count |
| `Tables.RemoveKeepsPairsUnique` | Tutorial8/Services/ClientService.cs:222-223 | deleting a pair's rows keeps at most one row per pair |
| `Tables.RemoveKeepsInvariants` | Tutorial8/Controllers/ClientsController.cs:132-148 | deleting a pair's rows keeps all three table invariants |
| `Grouping.Filter` | Tutorial8/Services/TripsService.cs:45-70 | the rows selected for a trip id all carry that id and come from the stream; there are some iff the id occurs |
| `Grouping.Keys` | Tutorial8/Services/TripsService.cs:45-61 | the keys the fold creates records for are exactly the trip ids in the stream, each once |
| `Grouping.Grouped` | Tutorial8/Services/TripsService.cs:45-73 | one record per distinct trip id, in first-appearance order; no id appears twice; each record is that id's group |
| `Grouping.GroupByKey` | Tutorial8/Services/TripsService.cs:43-73 | the dictionary-and-order loop returns exactly the reference grouping `Grouped` |
| `Grouping.AddRow` | Tutorial8/Services/ClientService.cs:143-168 | one iteration: a new id gets a record with no countries and joins the key order; a non-NULL country is appended to its id's record; other records are untouched |
| `Grouping.FoldStep` | Tutorial8/Services/TripsService.cs:45-70 | one iteration keeps the dictionary and key order in step with the reference grouping of the rows read so far |
| `Grouping.FoldedValues` | Tutorial8/Services/TripsService.cs:73 | reading the dictionary's values in key-insertion order gives the reference grouping |
| `Grouping.FirstRowDonates` | Tutorial8/Services/ClientService.cs:145-163 | a record's fields are those of the first row with its trip id |
| `Grouping.LaterRowsOnlyAppend` | Tutorial8/Services/ClientService.cs:145-168 | rows after the first with an id never change that record's fields; they only append their non-NULL countries, in order |
| `Grouping.CountryMembership` | Tutorial8/Services/ClientService.cs:165-168 | a name is in a record's countries iff some row with that id carries it as a non-NULL country |
| `Grouping.EmptyCountries` | Tutorial8/Services/TripsService.cs:58-70 | a record's country list is empty iff every row with its id has a NULL country |
| `Grouping.CountryNamesAppend` | Tutorial8/Services/TripsService.cs:63-70 | the countries of two consecutive row runs are the first run's followed by the second's, so row order is kept |
| `Grouping.SortedKeysAscending` | Tutorial8/Services/TripsService.cs:35 | rows sorted by trip id give records in strictly ascending id order |
| `Grouping.CollapseFilter` | Tutorial8/Services/TripsService.cs:123-148 | the single-trip fold over one id's rows gives that id's record from the listing fold, or null when the id has no rows |
| `Grouping.CollapseAgreesWithGrouped` | Tutorial8/Services/TripsService.cs:45-70 | every record of the listing fold equals the single-trip fold of its id's rows |
| `ClientService.ClientExists` | Tutorial8/Services/ClientService.cs:20-29 | true iff some Client row has the id |
| `ClientService.GetClients` | Tutorial8/Services/ClientService.cs:34-70 | one DTO per Client row, in table order, each the row's columns with NULLs kept as None |
| `ClientService.GetClient` | Tutorial8/Services/ClientService.cs:76-111 | null iff no Client row has the id; otherwise the DTO of the first such row, whose id is the requested one |
| `ClientService.GetTripsForClient` | Tutorial8/Services/ClientService.cs:117-172 | the reference grouping of the client's join rows: one record per distinct trip id, no duplicates |
| `ClientService.AddClientToTheTrip` | Tutorial8/Services/ClientService.cs:179-193 | appends exactly the row (client, trip, today, NULL) without validation; other tables unchanged; the pair is then registered |
| `ClientService.IsClientRegisteredForTrip` | Tutorial8/Services/ClientService.cs:200-212 | true iff some registration row has that client and trip |
| `ClientService.DeleteClientTripRegistration` | Tutorial8/Services/ClientService.cs:217-229 | removes every row of the pair and no other; the pair is then unregistered; an absent pair is a no-op |
| `TripsService.GetTrips` | Tutorial8/Services/TripsService.cs:19-74 | the reference grouping of the join rows: one record per distinct id; ascending ids when the rows are sorted by id |
| `TripsService.TripExists` | Tutorial8/Services/TripsService.cs:81-90 | true iff some Trip row has the id |
| `TripsService.GetTrip` | Tutorial8/Services/TripsService.cs:97-151 | null iff there are no rows; otherwise the first row's fields with every non-NULL country; its id is the requested one when the rows are that trip's |
| `TripsService.IsTripFull` | Tutorial8/Services/TripsService.cs:158-175 | false for a missing trip; otherwise true iff the trip's registration count reaches its `MaxPeople` |
| `ClientsController.GetClients` | Tutorial8/Controllers/ClientsController.cs:33-37 | always 200 with every client's DTO; the tables are not modified |
| `ClientsController.GetClient` | Tutorial8/Controllers/ClientsController.cs:48-57 | 404 naming the id iff the client is missing; otherwise 200 with a record whose id is the requested one |
| `ClientsController.GetTripsForClient` | Tutorial8/Controllers/ClientsController.cs:68-77 | 404 naming the id iff the client is missing; otherwise 200 with the grouped trips |
| `ClientsController.AddTrip` | Tutorial8/Controllers/ClientsController.cs:92-116 | client missing 404, trip missing 404, already registered 409, full 400, checked in that order; 201 iff all four pass, and then exactly one row is appended; any failure leaves the table unchanged; the three table invariants are kept |
| `ClientsController.DeleteClientFromTrip` | Tutorial8/Controllers/ClientsController.cs:130-149 | client missing 404, trip missing 404, not registered 400, checked in that order; 204 iff all pass, and then the pair is unregistered; any failure leaves the table unchanged; the invariants are kept |
| `TripsController.GetTrips` | Tutorial8/Controllers/TripsController.cs:31-35 | always 200 with the grouped trips; ascending ids when the rows are sorted; no table is modified |
| `TripsController.GetTrip` | Tutorial8/Controllers/TripsController.cs:47-56 | 404 naming the id iff the trip does not exist; otherwise 200 with the single-trip fold of its rows; no table is modified |

## Left out

- Database plumbing is not modelled: connection strings, `SqlConnection`/`SqlCommand`, async/await and storage errors. A storage error is never caught in the source, and the model has no such failure path.
- The SQL text is not modelled. The join and filter results are inputs, and "sorted by `IdTrip`" (the `ORDER BY` of `GetTrips`) is a condition on the rows. The Trip table keeps only the two columns the services read directly.
- `DateTime.Now` and its `yyyyMMdd` formatting are not modelled. The date is the parameter `today`, which must be an 8-digit integer (`ClientService.IsDate8`).
- Concurrency is not modelled, and calls run one at a time. The check-then-insert races in `AddTrip` fall outside the model, so the invariants hold only for sequential calls.
- HTTP routing, attributes and the exact message strings are not modelled. Outcomes are `Responses.Response` values carrying the ids their messages name.
- `ASP.NET` might write a null `Ok` body as 204. The model keeps 200 with a `None` body.
- DTO field values are opaque. `DateTime` columns are integers. A `CountryDTO { Name }` is represented by its name string. A DTO's flat trip columns are grouped into one header value (`TripInfo`, `ClientTripInfo`).
- .NET does not promise that `Dictionary.Values` comes out in insertion order, but the model assumes it does.
- `TripsController.GetTrip`: the model cannot state that the service is never called when the trip is missing. It states only that the 404 outcome does not depend on the rows.
- The interfaces `IClientService` and `ITripsService` only declare signatures, so there is nothing in them to model.
