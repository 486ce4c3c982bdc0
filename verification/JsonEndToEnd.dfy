/** The writer and the reader put together, as a client uses them. */
module JsonEndToEnd {
  import opened JsonValue
  import opened JsonWriting
  import opened JsonWriter
  import opened JsonReader
  import opened JsonRoundTrip
  import opened Wrappers

  /** A value tree without reals, stored as text and loaded again, comes back normalised and without an error. */
  method StoreAndLoad(v: Value, scan: string -> Option<real>, show: real -> string) returns (ok: bool, loaded: Value)
    requires WellFormed(v) && RealFree(v)
    ensures ok && loaded == Normalize(v)
  {
    var writer := new FastWriter(show);
    var text := writer.WriteDocument(v);
    var reader := new Reader(scan);
    ok, loaded := reader.Parse(text, Null);
    RoundTrip(v, Null, scan, show);
  }
}
