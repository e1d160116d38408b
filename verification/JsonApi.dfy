/** The public entry points of cJSON on trees: print, and parse what was printed. */
module JsonApi {
  import opened Bytes
  import opened Memory
  import opened JsonSpec
  import opened JsonTree
  import opened JsonRoundTrip
  import opened JsonPrinter
  import JsonParser

  /** cJSON_Print. */
  method Print(item: CJson, ghost v: Json) returns (out: array<byte>)
    requires item.Denotes(v) && Printable(v)
    ensures fresh(out) && CStr(out, PrintValue(v, 0, true))
  {
    out := PrintNode(item, v, 0, true);
  }

  /** cJSON_PrintUnformatted. */
  method PrintUnformatted(item: CJson, ghost v: Json) returns (out: array<byte>)
    requires item.Denotes(v) && Printable(v)
    ensures fresh(out) && CStr(out, PrintValue(v, 0, false))
  {
    out := PrintNode(item, v, 0, false);
  }

  /** Printing a tree, in either format, and parsing the buffer builds a new tree of the same value. */
  method PrintThenParse(item: CJson, ghost v: Json, fmt: bool) returns (copy: CJson?)
    requires item.Denotes(v) && Printable(v)
    ensures copy != null && fresh(copy) && copy.Denotes(v)
  {
    var out;
    if fmt {
      out := Print(item, v);
    } else {
      out := PrintUnformatted(item, v);
    }
    RoundTrip(v, 0, fmt);
    var n := Strlen(out, PrintValue(v, 0, fmt));
    copy := JsonParser.Parse(out[..n]);
  }
}
