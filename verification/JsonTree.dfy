/** cJSON nodes: a tree whose children are a doubly linked list. */
module JsonTree {
  import opened Bytes
  import opened Decimal
  import opened Memory
  import opened JsonSpec

  // The type codes of cJSON.h.
  const FALSE := 0
  const TRUE := 1
  const NULL := 2
  const NUMBER := 3
  const STRING := 4
  const ARRAY := 5
  const OBJECT := 6

  /** m * 10^e, cut towards zero. */
  function Truncated(m: int, e: int): int {
    if e >= 0 then m * Pow10(e) else if m >= 0 then m / Pow10(-e) else -((-m) / Pow10(-e))
  }

  /** Its quotient: what is cut off is less than one in size, and has the sign of the number. */
  lemma TruncatedIs(m: int, k: nat)
    ensures Truncated(m, k) == m * Pow10(k)
    ensures var rest := m - Truncated(m, 0 - k) * Pow10(k);
      if m >= 0 then 0 <= rest < Pow10(k) else 0 - Pow10(k) < rest <= 0
  {
    var p := Pow10(k);
    if k > 0 {
      if m >= 0 {
        assert m == m / p * p + m % p;
      } else {
        assert -m == (-m) / p * p + (-m) % p;
        assert -((-m) / p) * p == -((-m) / p * p);
      }
    }
  }

  class CJson {
    var next: CJson?
    var prev: CJson?
    var child: CJson?
    var ty: int
    var valuestring: array?<byte>
    var valueint: int
    var mantissa: int // valuedouble is mantissa * 10^scale
    var scale: int
    var name: array?<byte>
    ghost var kids: seq<CJson>  // the children, in order
    ghost var sub: set<object>  // everything strictly below this node

    /** cJSON_New_Item: all fields zero. */
    constructor ()
      ensures next == null && prev == null && name == null && Blank()
    {
      next, prev, child, ty, valuestring, name := null, null, null, FALSE, null, null;
      valueint, mantissa, scale := 0, 0, 0;
      kids, sub := [], {};
    }

    ghost predicate Blank()
      reads this`child, this`kids, this`sub, this`valuestring
    {
      child == null && kids == [] && sub == {} && valuestring == null
    }

    /** The children hang together: child, next and prev agree with kids, all of them below this node. */
    ghost predicate Linked()
      reads this`child, this`kids, this`sub, sub
    {
      && child == (if kids == [] then null else kids[0])
      && (forall i :: 0 <= i < |kids| ==> kids[i] in sub)
      && (forall i {:trigger kids[i].next} :: 0 <= i < |kids| ==> kids[i].next == (if i + 1 < |kids| then kids[i + 1] else null))
      && (forall i {:trigger kids[i].prev} :: 0 <= i < |kids| ==> kids[i].prev == (if i > 0 then kids[i - 1] else null))
    }

    ghost predicate Scalar(v: Json)
      reads this`ty, this`valueint, this`mantissa, this`scale, this`valuestring, this`sub, sub
    {
      match v
      case Null => ty == NULL
      case False => ty == FALSE
      case True => ty == TRUE
      case Number(m, e) => ty == NUMBER && mantissa == m && scale == e && valueint == Truncated(m, e)
      case String(b) => ty == STRING && valuestring != null && valuestring in sub && CStr(valuestring, b)
      case _ => false
    }

    /** The tree under this node is the value v. */
    ghost predicate Denotes(v: Json)
      reads this`ty, this`valueint, this`mantissa, this`scale, this`valuestring, this`child, this`kids, this`sub, sub
      decreases v
    {
      match v
      case Array(items) =>
        && ty == ARRAY && |kids| == |items| && Linked()
        && (forall i :: 0 <= i < |items| ==> kids[i].sub <= sub && kids[i].Denotes(items[i]))
      case Object(members) =>
        && ty == OBJECT && |kids| == |members| && Linked()
        && (forall i :: 0 <= i < |members| ==> kids[i].sub <= sub && kids[i].Denotes(members[i].value))
        && (forall i :: 0 <= i < |members| ==> kids[i].Named(members[i].key, sub))
      case _ => Scalar(v)
    }

    /** The key of an object member. */
    ghost predicate Named(key: seq<byte>, below: set<object>)
      reads this`name, below
    {
      name != null && name in below && CStr(name, key)
    }
  }
}
