/**
 * The two sample tables loaded into the engine at start-up and shown beside
 * the editor: twenty stations, and three days of revenue for each station.
 */
module Fixtures {
  import opened Values
  import opened TableSort

  function StationRow(id: int, name: string, borough: string): Row
  {
    map["id" := Int(id), "name" := Text(name), "borough" := Text(borough)]
  }

  /** The station names, in source order; the station at index `i` has id `i + 1`. */
  const StationNames: seq<string> := [
    "Times Sq - 42 St",
    "Grand Central - 42 St",
    "Flushing - Main St",
    "Atlantic Av - Barclays Ctr",
    "Yankee Stadium - 161 St",
    "34 St - Penn Station",
    "125 St",
    "Jackson Hts - Roosevelt Av",
    "Coney Island - Stillwell Av",
    "Fordham Rd",
    "Lexington Av - 59 St",
    "Queensboro Plaza",
    "Jay St - MetroTech",
    "Pelham Bay Park",
    "86 St",
    "Astoria - Ditmars Blvd",
    "Church Av",
    "3 Av - 149 St",
    "Canal St",
    "Jamaica Center - Parsons/Archer"
  ]

  const StationBoroughs: seq<string> := [
    "Manhattan", "Manhattan", "Queens", "Brooklyn", "Bronx",
    "Manhattan", "Manhattan", "Queens", "Brooklyn", "Bronx",
    "Manhattan", "Queens", "Brooklyn", "Bronx", "Manhattan",
    "Queens", "Brooklyn", "Bronx", "Manhattan", "Queens"
  ]

  /** The stations table: ids 1 through 20 in order, with their names and boroughs. */
  const Stations: seq<Row> := seq(20, i requires 0 <= i < 20 => StationRow(i + 1, StationNames[i], StationBoroughs[i]))

  function TransactionRow(stationId: int, date: string, revenue: int): Row
  {
    map["station_id" := Int(stationId), "date" := Text(date), "revenue" := Int(revenue)]
  }

  /** The three days, and the revenue of station 1 on each of them. */
  const Dates: seq<string> := ["2024-06-01", "2024-06-02", "2024-06-03"]
  const BaseRevenue: seq<int> := [7000, 7200, 7300]

  /** The `Array.from` callback: the three transactions of the station at index `i`. */
  function StationDays(i: nat): seq<Row>
  {
    [ TransactionRow(i + 1, "2024-06-01", 7000 + i * 500),
      TransactionRow(i + 1, "2024-06-02", 7200 + i * 500),
      TransactionRow(i + 1, "2024-06-03", 7300 + i * 500) ]
  }

  /** `Array.prototype.flat` on a list of lists. */
  function Flatten(blocks: seq<seq<Row>>): seq<Row>
  {
    if |blocks| == 0 then [] else Flatten(blocks[..|blocks| - 1]) + blocks[|blocks| - 1]
  }

  /** Flattening blocks of three puts element `j % 3` of block `j / 3` at position `j`. */
  lemma {:induction false} FlattenTriples(blocks: seq<seq<Row>>)
    requires forall i :: 0 <= i < |blocks| ==> |blocks[i]| == 3
    ensures |Flatten(blocks)| == 3 * |blocks|
    ensures forall j :: 0 <= j < 3 * |blocks| ==> Flatten(blocks)[j] == blocks[j / 3][j % 3]
  {
    if |blocks| > 0 {
      var n := |blocks| - 1;
      var init := blocks[..n];
      FlattenTriples(init);
      forall j | 0 <= j < 3 * |blocks|
        ensures Flatten(blocks)[j] == blocks[j / 3][j % 3]
      {
        if j < 3 * n {
          assert init[j / 3] == blocks[j / 3];
        } else {
          assert j / 3 == n;
        }
      }
    }
  }

  /**
   * The transactions table: 60 rows, station `i + 1` on the three days in
   * order, with revenue 7000, 7200 and 7300 plus 500 per preceding station.
   */
  function RevenueData(): (rows: seq<Row>)
    ensures |rows| == 60
    ensures forall j :: 0 <= j < 60 ==>
              rows[j] == TransactionRow(j / 3 + 1, Dates[j % 3], BaseRevenue[j % 3] + 500 * (j / 3))
  {
    var blocks := seq(20, i requires 0 <= i < 20 => StationDays(i));
    FlattenTriples(blocks);
    var rows := Flatten(blocks);
    assert forall j :: 0 <= j < 60 ==>
      rows[j] == TransactionRow(j / 3 + 1, Dates[j % 3], BaseRevenue[j % 3] + 500 * (j / 3)) by {
      forall j | 0 <= j < 60
        ensures rows[j] == TransactionRow(j / 3 + 1, Dates[j % 3], BaseRevenue[j % 3] + 500 * (j / 3))
      {
        var i, d := j / 3, j % 3;
        assert rows[j] == StationDays(i)[d];
        assert d == 0 || d == 1 || d == 2;
      }
    }
    rows
  }

  /** The station ids are 1 through 20, in order, so every id is a station's. */
  lemma StationIds()
    ensures |Stations| == 20
    ensures forall i :: 0 <= i < 20 ==> Stations[i]["id"] == Int(i + 1)
  {
  }

  /** Every transaction refers to an existing station. */
  lemma TransactionsReferToStations(j: nat)
    requires j < 60
    ensures exists i :: 0 <= i < |Stations| && Stations[i]["id"] == RevenueData()[j]["station_id"]
  {
    StationIds();
    assert Stations[j / 3]["id"] == RevenueData()[j]["station_id"];
  }

  /** Every column of the stations table holds one kind of value. */
  lemma StationColumnsSortable()
    ensures Sortable(Stations, "id") && Sortable(Stations, "name") && Sortable(Stations, "borough")
  {
    forall r | r in Stations
      ensures Lookup(r, "id").Int? && Lookup(r, "name").Text? && Lookup(r, "borough").Text?
    {
      var j :| 0 <= j < |Stations| && Stations[j] == r;
      StationRowColumns(j + 1, StationNames[j], StationBoroughs[j]);
    }
  }

  lemma StationRowColumns(id: int, name: string, borough: string)
    ensures var r := StationRow(id, name, borough);
            Lookup(r, "id") == Int(id) && Lookup(r, "name") == Text(name) && Lookup(r, "borough") == Text(borough)
  {
  }

  lemma TransactionRowColumns(stationId: int, date: string, revenue: int)
    ensures var r := TransactionRow(stationId, date, revenue);
            && Lookup(r, "station_id") == Int(stationId)
            && Lookup(r, "date") == Text(date)
            && Lookup(r, "revenue") == Int(revenue)
  {
  }

  /** Every column of the transactions table holds one kind of value. */
  lemma TransactionColumnsSortable()
    ensures Sortable(RevenueData(), "station_id") && Sortable(RevenueData(), "date")
    ensures Sortable(RevenueData(), "revenue")
  {
    var rows := RevenueData();
    forall r | r in rows
      ensures Lookup(r, "station_id").Int? && Lookup(r, "date").Text? && Lookup(r, "revenue").Int?
    {
      var j :| 0 <= j < |rows| && rows[j] == r;
      TransactionRowColumns(j / 3 + 1, Dates[j % 3], BaseRevenue[j % 3] + 500 * (j / 3));
    }
  }
}
