/** JSON, as the bridge holds it and as it means. Text is a sequence of UTF-16 code units. */
module JsonValues {

  type Unit = u: int | 0 <= u < 0x1_0000
  type Text = seq<Unit>

  const MAX_SAFE_INTEGER := 9_007_199_254_740_991

  /** The numbers modelled: the integers a double carries exactly. */
  type SafeInteger = n: int | -MAX_SAFE_INTEGER <= n <= MAX_SAFE_INTEGER

  /**
   * What a JSON text denotes. Objects are maps: neither key order nor an undefined property remains.
   * `VOther` is any number that is no safe integer.
   */
  datatype Value =
    | VNull
    | VBool(b: bool)
    | VNum(n: SafeInteger)
    | VOther(number: nat)
    | VStr(text: Text)
    | VArr(items: seq<Value>)
    | VObj(members: map<Text, Value>)

  /**
   * A JavaScript value given to the printer. `Obj` lists its own properties in insertion order;
   * `NotJson` stands for everything else without a canonical form: objects such as functions and
   * Dates, and primitives such as NaN.
   */
  datatype Js =
    | Null
    | Undefined
    | NotJson(isObject: bool)
    | Bool(b: bool)
    | Num(n: SafeInteger)
    | Str(text: Text)
    | Arr(items: seq<Js>)
    | Obj(props: seq<Prop>)

  datatype Prop = Prop(key: Text, value: Js)

  /** "__proto__", the one property name that plain assignment does not store. */
  const PROTO: Text := [95, 95, 112, 114, 111, 116, 111, 95, 95]
}
