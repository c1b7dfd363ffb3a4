/** The nodes of a JSON tree: children in a list linked both ways. */
module JsonItem {
  import opened Bytes
  import opened JsonText

  datatype Kind = FALSE | TRUE | NULL | NUMBER | STRING | ARRAY | OBJECT

  class Item {
    var kind: Kind
    var next: Item?
    var prev: Item?
    var child: Item?
    var valuestring: Option<bytes>
    var valueint: int
    var valuedouble: real
    var name: Option<bytes>

    constructor ()
      ensures Blank()
    {
      kind, next, prev, child := FALSE, null, null, null;
      valuestring, valueint, valuedouble, name := None, 0, 0.0, None;
    }

    predicate Blank()
      reads this
    {
      && kind == FALSE && next == null && prev == null && child == null
      && valuestring == None && valueint == 0 && valuedouble == 0.0 && name == None
    }
  }

  /** Conversion to `int`: the fraction is dropped. */
  function Trunc(x: real): int {
    if x >= 0.0 then x.Floor else -((-x).Floor)
  }

  /** Towards zero, by less than one. */
  lemma TruncIs(x: real)
    ensures x >= 0.0 ==> 0 <= Trunc(x) && Trunc(x) as real <= x < Trunc(x) as real + 1.0
    ensures x <= 0.0 ==> Trunc(x) <= 0 && Trunc(x) as real - 1.0 < x <= Trunc(x) as real
  {
  }

  /** The values for which the conversion to `int` is defined. */
  predicate Converts(x: real) {
    INT_MIN as real - 1.0 < x < INT_MAX as real + 1.0
  }

  /** The item stands for v, with all descendants in r. Its own links, which belong to
      its parent's list, and its name do not matter. */
  ghost predicate Denotes(item: Item, v: Value, r: set<Item>)
    reads item`kind, item`child, item`valuestring, item`valueint, item`valuedouble, r
    decreases v, 0
  {
    match v
    case Null => item.kind == NULL
    case Bool(b) => item.kind == if b then TRUE else FALSE
    case Number(x) => item.kind == NUMBER && item.valuedouble == x && (Converts(x) ==> item.valueint == Trunc(x))
    case String(t) => item.kind == STRING && item.valuestring == Some(t)
    case Array(es) => item.kind == ARRAY && Elements(null, item.child, es, r)
    case Object(ms) => item.kind == OBJECT && Members(null, item.child, ms, r)
  }

  /** The list from `first` on, which comes after `before`. */
  ghost predicate Elements(before: Item?, first: Item?, es: seq<Value>, r: set<Item>)
    reads r
    decreases es, 1
  {
    if es == [] then first == null
    else && first != null && first in r && first.prev == before
         && Denotes(first, es[0], r) && Elements(first, first.next, es[1..], r)
  }

  ghost predicate Members(before: Item?, first: Item?, ms: seq<Member>, r: set<Item>)
    reads r
    decreases ms, 1
  {
    if ms == [] then first == null
    else && first != null && first in r && first.prev == before && first.name == Some(ms[0].name)
         && Denotes(first, ms[0].value, r) && Members(first, first.next, ms[1..], r)
  }
}
