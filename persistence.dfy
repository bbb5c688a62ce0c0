/**
  The store side of the ingestion path: the four tables the bridge writes, the identity tag
  every row carries, `getUserId`, and `saveToDatabase`, which decides from the nulls of a
  parsed reading which rows to insert.

  The Supabase store is external. It is modelled by what the bridge asks of it: the
  append-only log of the inserts issued, oldest first.
*/
module Persistence {
  import opened Wrappers
  import opened Esp32Parser

  /** The identity tag of the one physical device. */
  const DefaultIotUserId: string := "00000000-0000-0000-0000-000000000000"

  /** One row inserted into one table; the constructor names the table. */
  datatype Row =
    | SensorData(suhu: string, userId: string)
    | TemperatureSetting(suhuMin: string, suhuMax: string, userId: string)
    | HeaterStatus(status: string, userId: string)
    | Riwayat(durasiHeater: nat, durasiPompa: nat, userId: string)
  {
    /** The table `saveToDatabase` names for the row. */
    function Table(): string {
      match this
      case SensorData(_, _) => "sensor_data"
      case TemperatureSetting(_, _, _) => "temperature_setting"
      case HeaterStatus(_, _) => "heater_status"
      case Riwayat(_, _, _) => "riwayat"
    }

    /** Position of the row's table in the order `saveToDatabase` writes them. */
    function Rank(): nat {
      match this
      case SensorData(_, _) => 0
      case TemperatureSetting(_, _, _) => 1
      case HeaterStatus(_, _) => 2
      case Riwayat(_, _, _) => 3
    }
  }

  /** The external record store, as the log of the inserts it receives. */
  class Store {
    var log: seq<Row>

    constructor ()
      ensures log == []
    {
      log := [];
    }

    /** `supabase.from(row.Table()).insert([row])`; the response is not looked at. */
    method Insert(row: Row)
      modifies this
      ensures log == old(log) + [row]
    {
      log := log + [row];
    }
  }

  /** `getUserId`: a missing (`undefined`/`null`) or empty caller id falls back to the
      device's tag. */
  function GetUserId(requestUserId: Option<string>): (r: string)
    ensures r != []
    ensures r == DefaultIotUserId || requestUserId == Some(r)
  {
    if requestUserId.Some? && requestUserId.value != [] then requestUserId.value else DefaultIotUserId
  }

  /** A truthy id is kept; a falsy one becomes the device's tag. */
  lemma GetUserIdTruthy(requestUserId: Option<string>)
    ensures requestUserId.Some? && requestUserId.value != [] ==> GetUserId(requestUserId) == requestUserId.value
    ensures requestUserId == None || requestUserId == Some([]) ==> GetUserId(requestUserId) == DefaultIotUserId
  {
  }

  /** Applying the default twice changes nothing. */
  lemma GetUserIdIdempotent(requestUserId: Option<string>)
    ensures GetUserId(Some(GetUserId(requestUserId))) == GetUserId(requestUserId)
  {
  }

  /** The rows `saveToDatabase` inserts for a reading, in the order it inserts them. */
  function Dispatch(data: Reading): (r: seq<Row>)
    ensures |r| <= 4
    ensures forall i :: 0 <= i < |r| ==> r[i].userId == DefaultIotUserId
  {
    (if data.suhu.Some? then [SensorData(data.suhu.value, DefaultIotUserId)] else [])
    + (if data.min.Some? && data.max.Some?
       then [TemperatureSetting(data.min.value, data.max.value, DefaultIotUserId)] else [])
    + (if data.mode.Some? then [HeaterStatus(data.mode.value, DefaultIotUserId)] else [])
    + (if data.durasiHeater.Some? && data.durasiPompa.Some?
       then [Riwayat(data.durasiHeater.value, data.durasiPompa.value, DefaultIotUserId)] else [])
  }

  /** `saveToDatabase`: one insert per table whose fields are all present, in a fixed order,
      each row tagged with the device's id. Every insert is attempted whatever the store
      answered to the previous one. */
  method SaveToDatabase(db: Store, data: Reading)
    modifies db
    ensures db.log == old(db.log) + Dispatch(data)
  {
    if data.suhu.Some? {
      db.Insert(SensorData(data.suhu.value, DefaultIotUserId));
    }
    if data.min.Some? && data.max.Some? {
      db.Insert(TemperatureSetting(data.min.value, data.max.value, DefaultIotUserId));
    }
    if data.mode.Some? {
      db.Insert(HeaterStatus(data.mode.value, DefaultIotUserId));
    }
    if data.durasiHeater.Some? && data.durasiPompa.Some? {
      db.Insert(Riwayat(data.durasiHeater.value, data.durasiPompa.value, DefaultIotUserId));
    }
  }

  /** The decision table: a row goes to each table exactly when that table's fields are all
      non-null, carrying those fields unchanged and the device's tag; tables come in the fixed
      order sensor_data, temperature_setting, heater_status, riwayat, each at most once. */
  lemma DispatchDecisions(data: Reading)
    ensures var rows := Dispatch(data);
      (forall i :: 0 <= i < |rows| ==> rows[i].userId == DefaultIotUserId) &&
      (forall i, j :: 0 <= i < j < |rows| ==> rows[i].Rank() < rows[j].Rank()) &&
      (forall x :: SensorData(x, DefaultIotUserId) in rows <==> data.suhu == Some(x)) &&
      (forall lo, hi :: TemperatureSetting(lo, hi, DefaultIotUserId) in rows <==>
        data.min == Some(lo) && data.max == Some(hi)) &&
      (forall m :: HeaterStatus(m, DefaultIotUserId) in rows <==> data.mode == Some(m)) &&
      (forall h: nat, p: nat :: Riwayat(h, p, DefaultIotUserId) in rows <==>
        data.durasiHeater == Some(h) && data.durasiPompa == Some(p))
  {
    DispatchTagsAndOrder(data);
    DispatchMembers(data);
  }

  /** Every row carries the device's tag, and the tables come in a strictly increasing order,
      so no table is written twice. */
  lemma DispatchTagsAndOrder(data: Reading)
    ensures var rows := Dispatch(data);
      (forall i :: 0 <= i < |rows| ==> rows[i].userId == DefaultIotUserId) &&
      (forall i, j :: 0 <= i < j < |rows| ==> rows[i].Rank() < rows[j].Rank()) &&
      (forall i, j :: 0 <= i < j < |rows| ==> rows[i].Table() != rows[j].Table())
  {
  }

  /** Which rows occur, table by table. */
  lemma DispatchMembers(data: Reading)
    ensures var rows := Dispatch(data);
      (forall x :: SensorData(x, DefaultIotUserId) in rows <==> data.suhu == Some(x)) &&
      (forall lo, hi :: TemperatureSetting(lo, hi, DefaultIotUserId) in rows <==>
        data.min == Some(lo) && data.max == Some(hi)) &&
      (forall m :: HeaterStatus(m, DefaultIotUserId) in rows <==> data.mode == Some(m)) &&
      (forall h: nat, p: nat :: Riwayat(h, p, DefaultIotUserId) in rows <==>
        data.durasiHeater == Some(h) && data.durasiPompa == Some(p))
  {
  }

  /** A reading with a temperature leads to between one and four inserts, and to four exactly
      when all six fields are present. */
  lemma DispatchCount(data: Reading)
    requires data.suhu.Some?
    ensures 1 <= |Dispatch(data)| <= 4
    ensures |Dispatch(data)| == 4 <==>
      data.mode.Some? && data.min.Some? && data.max.Some? &&
      data.durasiHeater.Some? && data.durasiPompa.Some?
  {
  }

  /** `Min` without `Max` skips the temperature setting and nothing else. */
  lemma MinWithoutMax(data: Reading)
    requires data.min.Some? && data.max.None?
    ensures Dispatch(data) == Dispatch(data.(min := None))
    ensures forall i :: 0 <= i < |Dispatch(data)| ==> !Dispatch(data)[i].TemperatureSetting?
  {
  }

  /** A reading with all six fields is stored as four rows, one per table, in order. */
  lemma DispatchComplete(data: Reading)
    requires data.suhu.Some? && data.mode.Some? && data.min.Some? && data.max.Some?
    requires data.durasiHeater.Some? && data.durasiPompa.Some?
    ensures Dispatch(data) == [
      SensorData(data.suhu.value, DefaultIotUserId),
      TemperatureSetting(data.min.value, data.max.value, DefaultIotUserId),
      HeaterStatus(data.mode.value, DefaultIotUserId),
      Riwayat(data.durasiHeater.value, data.durasiPompa.value, DefaultIotUserId)]
    ensures Dispatch(data)[0].Table() == "sensor_data" && Dispatch(data)[1].Table() == "temperature_setting"
    ensures Dispatch(data)[2].Table() == "heater_status" && Dispatch(data)[3].Table() == "riwayat"
  {
  }

  /** The documented status line is stored as four rows. */
  lemma ExampleLineDispatch()
    ensures ParseEsp32Data(ExampleLine).Some?
    ensures Dispatch(ParseEsp32Data(ExampleLine).value) == [
      SensorData("32.5", DefaultIotUserId),
      TemperatureSetting("30", "40", DefaultIotUserId),
      HeaterStatus("auto", DefaultIotUserId),
      Riwayat(120, 60, DefaultIotUserId)]
  {
    ExampleLineParses();
    DispatchComplete(ParseEsp32Data(ExampleLine).value);
  }
}
