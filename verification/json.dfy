/**
 * Values produced by `JSON.parse`, with the two JavaScript conversions the
 * connector applies to them: truthiness (`||`, `!`) and `String(v)`, which
 * template interpolation and a regular-expression test apply to a value.
 */
module JsonValue {
  import opened Wrappers
  import opened JsText

  /** JSON numbers are integers here (see README, "Left out"). */
  datatype Json =
    | Null
    | Bool(b: bool)
    | Number(n: int)
    | Str(s: string)
    | Array(items: seq<Json>)
    | Object(fields: map<string, Json>)

  /** ECMAScript ToBoolean on a JSON value: `null`, `false`, `0` and `""`
      are falsy; every array and object is truthy. */
  predicate Truthy(v: Json) {
    match v
    case Null => false
    case Bool(b) => b
    case Number(n) => n != 0
    case Str(s) => s != []
    case Array(_) => true
    case Object(_) => true
  }

  /** The message of the TypeError ECMAScript ToString throws on an object
      it cannot turn into a primitive. */
  const ConvertMessage: string := "Cannot convert object to primitive value"

  /** Whether ECMAScript ToString succeeds on a JSON value. An object with
      its own `toString` key has a non-callable `toString` (a JSON value is
      never a function) and the inherited `valueOf` returns the object
      itself, so the conversion throws; an array converts when every element
      does. */
  predicate Convertible(v: Json)
    decreases v
  {
    match v
    case Object(fields) => "toString" !in fields
    case Array(items) => forall i :: 0 <= i < |items| ==> Convertible(items[i])
    case _ => true
  }

  /** The falsy JSON values are exactly `null`, `false`, `0` and `""`. */
  lemma FalsyValues(v: Json)
    ensures !Truthy(v) <==> v in {Null, Bool(false), Number(0), Str("")}
  {
  }

  /** ECMAScript ToString on a JSON value, `None` when it throws; arrays are
      joined with "," (`Array.prototype.join`, which writes `null`
      elements as ""). */
  function ToText(v: Json): (t: Option<string>)
    ensures t.Some? <==> Convertible(v)
    ensures v.Str? ==> t == Some(v.s)
    decreases v, 1
  {
    match v
    case Null => Some("null")
    case Bool(b) => Some(if b then "true" else "false")
    case Number(n) => Some(if n < 0 then "-" + Decimal(-n) else Decimal(n))
    case Str(s) => Some(s)
    case Array(items) => JoinItems(v, items)
    case Object(fields) => if "toString" in fields then None else Some("[object Object]")
  }

  function ItemText(v: Json): (t: Option<string>)
    ensures t.Some? <==> Convertible(v)
    decreases v, 2
  {
    if v.Null? then Some("") else ToText(v)
  }

  /** The elements of `items`, each converted, separated by ","; `None`
      once an element fails to convert. */
  function JoinItems(ghost whole: Json, items: seq<Json>): (t: Option<string>)
    requires forall i :: 0 <= i < |items| ==> items[i] < whole
    ensures t.Some? <==> forall i :: 0 <= i < |items| ==> Convertible(items[i])
    decreases whole, 0, |items|
  {
    if items == [] then Some("")
    else if |items| == 1 then ItemText(items[0])
    else
      var init := items[..|items| - 1];
      var head := JoinItems(whole, init);
      var last := ItemText(items[|items| - 1]);
      assert forall i :: 0 <= i < |items| - 1 ==> items[i] == init[i];
      if head.Some? && last.Some? then Some(head.value + "," + last.value) else None
  }

  /** A non-negative number converts to its decimal digits and reads back. */
  lemma NumberText(n: nat)
    ensures ToText(Number(n)).Some? && ParseDecimal(ToText(Number(n)).value) == n
  {
    DecimalRoundTrip(n);
  }

  /** A one-element array converts to its element's text: `["ls"]` is "ls". */
  lemma SingletonText(x: Json)
    ensures ToText(Array([x])) == (if x.Null? then Some("") else ToText(x))
  {
    assert ToText(Array([x])) == JoinItems(Array([x]), [x]);
  }

  /** Two-element arrays are joined with one comma: `["a", "b"]` is "a,b". */
  lemma PairText(x: Json, y: Json)
    ensures ToText(Array([x, y])).Some? <==> ItemText(x).Some? && ItemText(y).Some?
    ensures ToText(Array([x, y])).Some? ==> ToText(Array([x, y])).value == ItemText(x).value + "," + ItemText(y).value
  {
    var v := Array([x, y]);
    assert [x, y][..1] == [x];
    assert JoinItems(v, [x, y][..1]) == JoinItems(v, [x]) == ItemText(x);
  }

  /** `{"toString": 1}` and an array holding it cannot be converted, while
      an object with some other key converts to "[object Object]". */
  lemma ToStringKeyThrows()
    ensures ToText(Object(map["toString" := Number(1)])) == None
    ensures ToText(Array([Str("ls"), Object(map["toString" := Null])])) == None
    ensures ToText(Object(map["valueOf" := Number(1)])) == Some("[object Object]")
  {
    PairText(Str("ls"), Object(map["toString" := Null]));
  }
}
