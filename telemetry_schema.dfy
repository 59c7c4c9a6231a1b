/**
 * The parts of the satellite's telemetry schema the telemetry views read.
 * A JavaScript object is read through `Object.entries`, so it is kept as the
 * sequence of its entries in iteration order.
 */
module TelemetrySchema {
  import opened Wrappers

  datatype FieldSchema = FieldSchema(name: string)

  /** A telemetry: its numeric id (`metadata.id`) and its fields. */
  datatype Telemetry = Telemetry(id: nat, fields: seq<FieldSchema>)

  datatype TelemetryComponent = TelemetryComponent(telemetries: seq<(string, Telemetry)>)

  /** The name of a telemetry stream: `channel.component.telemetry`. */
  function StreamName(channel: string, component: string, telemetry: string): string
  {
    channel + "." + component + "." + telemetry
  }

  /** The field names of a telemetry, in schema order. */
  function FieldNames(fields: seq<FieldSchema>): (names: seq<string>)
    ensures |names| == |fields|
    ensures forall i :: 0 <= i < |fields| ==> names[i] == fields[i].name
  {
    if fields == [] then [] else [fields[0].name] + FieldNames(fields[1..])
  }

  /** `Object.entries(o).find(([name, _]) => name === key)`: the value of the
    * first entry named `key`. */
  function Find<V>(entries: seq<(string, V)>, key: string): (r: Option<V>)
    ensures r.None? <==> forall i :: 0 <= i < |entries| ==> entries[i].0 != key
    ensures r.Some? ==> exists i :: 0 <= i < |entries| && entries[i] == (key, r.value) &&
                                    forall j :: 0 <= j < i ==> entries[j].0 != key
  {
    if entries == [] then None
    else if entries[0].0 == key then Some(entries[0].1)
    else
      var r := Find(entries[1..], key);
      if r.Some? then
        ghost var i :| 0 <= i < |entries| - 1 && entries[1..][i] == (key, r.value) &&
                       forall j :: 0 <= j < i ==> entries[1..][j].0 != key;
        assert entries[i + 1] == (key, r.value);
        r
      else r
  }
}
