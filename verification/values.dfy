/** Python values as they reach the engine: decoded JSON, and an optional result. */
module Values {

  datatype Option<+T> = None | Some(value: T)

  /** A decoded JSON value. `text` is what Python's `str()` prints for the value; its
      formatting is not modelled, so it is carried along and ignored by equality. */
  datatype Value =
    | Null
    | Bool(b: bool)
    | Number(quantity: real, text: string)
    | Str(s: string)
    | List(items: seq<Value>, text: string)
    | Dict(entries: map<string, Value>, text: string)
  {
    /** Python's bool is a number: True == 1 and False == 0. */
    predicate IsNumeric() { Bool? || Number? }

    function Quantity(): real
      requires IsNumeric()
    {
      if Number? then quantity else if b then 1.0 else 0.0
    }

    /** bool(v) */
    predicate Truthy() {
      match this
      case Null => false
      case Bool(b) => b
      case Number(q, _) => q != 0.0
      case Str(s) => s != ""
      case List(items, _) => items != []
      case Dict(entries, _) => entries != map[]
    }

    /** str(v) */
    function Text(): string {
      match this
      case Null => "None"
      case Bool(b) => if b then "True" else "False"
      case Str(s) => s
      case Number(_, t) => t
      case List(_, t) => t
      case Dict(_, t) => t
    }
  }

  /** Python's `a == b` on decoded JSON. */
  predicate PyEq(a: Value, b: Value)
    decreases a
  {
    match (a, b)
    case (Null, Null) => true
    case (Str(s), Str(t)) => s == t
    case (List(xs, _), List(ys, _)) =>
      |xs| == |ys| && forall i | 0 <= i < |xs| :: PyEq(xs[i], ys[i])
    case (Dict(m, _), Dict(n, _)) =>
      m.Keys == n.Keys && forall k | k in m.Keys :: PyEq(m[k], n[k])
    case _ => a.IsNumeric() && b.IsNumeric() && a.Quantity() == b.Quantity()
  }

  lemma {:induction false} PyEqSymmetric(a: Value, b: Value)
    requires PyEq(a, b)
    ensures PyEq(b, a)
    decreases a
  {
    match (a, b)
    case (List(xs, _), List(ys, _)) =>
      forall i | 0 <= i < |xs| ensures PyEq(ys[i], xs[i]) { PyEqSymmetric(xs[i], ys[i]); }
    case (Dict(m, _), Dict(n, _)) =>
      forall k | k in n.Keys ensures PyEq(n[k], m[k]) { PyEqSymmetric(m[k], n[k]); }
    case _ =>
  }

  lemma {:induction false} PyEqTransitive(a: Value, b: Value, c: Value)
    requires PyEq(a, b) && PyEq(b, c)
    ensures PyEq(a, c)
    decreases a
  {
    match (a, b, c)
    case (List(xs, _), List(ys, _), List(zs, _)) =>
      forall i | 0 <= i < |xs| ensures PyEq(xs[i], zs[i]) { PyEqTransitive(xs[i], ys[i], zs[i]); }
    case (Dict(m, _), Dict(n, _), Dict(o, _)) =>
      forall k | k in m.Keys ensures PyEq(m[k], o[k]) { PyEqTransitive(m[k], n[k], o[k]); }
    case _ =>
  }

  /** What equals a given value: a string or None only itself; a number or a boolean every number
      and boolean of its quantity; a list the lists of its length equal item by item; a table
      the tables of its keys equal entry by entry. */
  lemma EqualExactly(v: Value, w: Value)
    ensures w.Str? || w.Null? ==> (PyEq(v, w) <==> v == w)
    ensures w.Bool? ==> (PyEq(v, w) <==> v == w || (v.Number? && v.quantity == if w.b then 1.0 else 0.0))
    ensures w.Number? ==>
              (PyEq(v, w) <==> (v.Number? && v.quantity == w.quantity) ||
                               (v.Bool? && w.quantity == if v.b then 1.0 else 0.0))
    ensures w.List? ==>
              (PyEq(v, w) <==> v.List? && |v.items| == |w.items| &&
                               forall i | 0 <= i < |w.items| :: PyEq(v.items[i], w.items[i]))
    ensures w.Dict? ==>
              (PyEq(v, w) <==> v.Dict? && v.entries.Keys == w.entries.Keys &&
                               forall k | k in w.entries :: PyEq(v.entries[k], w.entries[k]))
  {
  }

  /** dict.get(k): None when the key is absent. */
  function Get(args: map<string, Value>, k: string): Value {
    if k in args then args[k] else Null
  }
}
