/** Printer and parser together, on trees of items. */
module JsonEndToEnd {
  import opened Bytes
  import opened JsonText
  import opened JsonSyntax
  import opened JsonItem
  import opened JsonPrinter
  import opened JsonParser
  import opened JsonRoundTrip

  /** Every JSON text, whatever follows it, parses into a new tree with its meaning. */
  method ParseDoc(text: bytes, ghost ws: bytes, ghost d: Doc, ghost rest: bytes) returns (c: Item?, ghost r: set<Item>)
    requires White(ws) && Legal(d) && Ends(rest) && text == ws + (DocText(d) + rest)
    ensures c != null && fresh(c) && fresh(r) && Denotes(c, Meaning(d), r)
  {
    hide ParseValue, Denotes, Skip, DocText, Meaning, Legal;
    DocStart(d, rest);
    SkipTo(ws, DocText(d) + rest);
    DocRead(d, rest);
    c, r := Parse(text);
  }

  /** A printed tree parses into a new tree with the same meaning. */
  method Reprint(item: Item, fmt: bool, ghost v: Value, ghost r: set<Item>) returns (copy: Item?, ghost r': set<Item>)
    requires Printable(v) && Denotes(item, v, r)
    ensures copy != null && fresh(copy) && fresh(r') && Denotes(copy, v, r')
  {
    hide ParseValue, PrintValue, Denotes, Printable, Skip;
    var text := RenderValue(item, 0, fmt, v, r);
    WholeText(v, fmt);
    copy, r' := Parse(text);
  }
}
