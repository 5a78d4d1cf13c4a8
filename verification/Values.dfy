/** JavaScript values as the table blots pass them around, and the DOM attribute strings they
    are stored as. Every attribute map of the table (a cell line's `data-*` attributes, a
    column's attributes, a cell's, a row's) is an `Attrs` map from the attribute's name, with
    the `data-` prefix dropped, to the string the DOM holds. */
module JsValues {

  datatype Option<T> = None | Some(value: T)

  /** The string a DOM attribute holds. `Numeric(num, unit)` is the decimal form of `num`
      followed by `unit` ("" for a bare number, "pt", "%", ...), a suffix that does not
      continue the number; `Str(s)` is any other string (a colour, an alignment, an id),
      which never starts with a decimal number. */
  datatype AttrText = Numeric(num: real, unit: string) | Str(s: string)

  /** A JavaScript value handed to `format`, or read from a `formats()` object
      (booleans are not part of the model). */
  datatype JsValue = Undefined | Null | NaN | Number(r: real) | Text(t: AttrText)

  type Attrs = map<string, AttrText>
  type Formats = map<string, JsValue>

  /** JavaScript truthiness: `undefined`, `null`, `NaN`, `0` and `""` are falsy. */
  predicate Truthy(v: JsValue) {
    match v
    case Number(r) => r != 0.0
    case Text(t) => t.Numeric? || t.s != ""
    case _ => false
  }

  /** What `setAttribute(name, v)` stores: `String(v)`. */
  function ToAttr(v: JsValue): AttrText {
    match v
    case Undefined => Str("undefined")
    case Null => Str("null")
    case NaN => Str("NaN")
    case Number(r) => Numeric(r, "")
    case Text(t) => t
  }

  /** `a || b` */
  function Or(a: JsValue, b: JsValue): JsValue {
    if Truthy(a) then a else b
  }

  /** `obj[key]` on a plain object: `undefined` when the key is missing. */
  function Get(obj: Formats, key: string): JsValue {
    if key in obj then obj[key] else Undefined
  }

  /** `getAttribute(name)`: `null` when the attribute is missing. */
  function GetAttribute(attrs: Attrs, name: string): JsValue {
    if name in attrs then Text(attrs[name]) else Null
  }

  /** `value ? setAttribute(name, value) : removeAttribute(name)`, the write every `format`
      of a cell line and a cell performs (`toggleAttribute`, src/formats/table.js:506-512). */
  function Toggle(attrs: Attrs, name: string, value: JsValue): (r: Attrs)
    ensures name in r <==> Truthy(value)
    ensures Truthy(value) ==> r[name] == ToAttr(value)
    ensures forall k :: k != name ==> (k in r <==> k in attrs)
    ensures forall k :: k != name && k in r ==> r[k] == attrs[k]
  {
    if Truthy(value) then attrs[name := ToAttr(value)] else attrs - {name}
  }

  /** A truthy value is stored as a non-empty string, so it reads back as a truthy string. */
  lemma TruthyStoresNonEmpty(v: JsValue)
    requires Truthy(v)
    ensures ToAttr(v) != Str("") && Truthy(Text(ToAttr(v)))
    ensures v.Text? ==> Text(ToAttr(v)) == v
  {
  }

  /** Truncation toward zero, as `parseInt` reads the integral part of a decimal. */
  function Trunc(r: real): (n: int)
    ensures r >= 0.0 ==> n as real <= r < n as real + 1.0
    ensures r < 0.0 ==> n as real - 1.0 < r <= n as real
  {
    if r >= 0.0 then r.Floor else -((-r).Floor)
  }

  /** `parseInt(v, 10)`; `None` is `NaN`. The value is first turned into its string. */
  function ParseInt(v: JsValue): Option<int> {
    match v
    case Number(r) => Some(Trunc(r))
    case Text(Numeric(r, _)) => Some(Trunc(r))
    case _ => None
  }

  /** `parseFloat(v)`; `None` is `NaN`. */
  function ParseFloat(v: JsValue): Option<real> {
    match v
    case Number(r) => Some(r)
    case Text(Numeric(r, _)) => Some(r)
    case _ => None
  }

  /** `Number(v)`, the conversion behind `v > 1`: a unit suffix makes the string `NaN`,
      the empty string and `null` are 0. */
  function ToNumber(v: JsValue): (n: Option<real>)
    ensures v.Text? && v.t.Numeric? && v.t.unit != "" ==> n.None?
  {
    match v
    case Number(r) => Some(r)
    case Null => Some(0.0)
    case Text(Numeric(r, u)) => if u == "" then Some(r) else None
    case Text(Str(s)) => if s == "" then Some(0.0) else None
    case _ => None
  }

  /** `n + delta` where `n` came from `parseInt`: `NaN` stays `NaN`. */
  function AddTo(n: Option<int>, delta: int): JsValue {
    if n.Some? then Number((n.value + delta) as real) else NaN
  }
}
