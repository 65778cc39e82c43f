/**
 * The values a parsed JSON request body can hold, with the two JavaScript
 * conversions the handlers apply to them: truthiness (`!x`) and the string
 * conversion that `RegExp.prototype.test` performs on its argument.
 */
module JsValues {

  import opened JsStrings

  /** A JSON value as the body parser hands it over; `Undefined` is a field
      the body does not have. Numbers are integral. */
  datatype JsVal =
    | Undefined
    | Null
    | Bool(b: bool)
    | Num(n: int)
    | Str(s: string)
    | Arr(elems: seq<JsVal>)
    | Obj(entries: seq<(string, JsVal)>)

  /** JavaScript truthiness: `!v` is `!Truthy(v)`. The empty string, zero,
      `false`, `null` and `undefined` are falsy; every array and object,
      the empty ones included, is truthy. */
  function Truthy(v: JsVal): (r: bool)
    ensures !r <==> v in {Undefined, Null, Bool(false), Num(0), Str("")}
  {
    match v
    case Undefined => false
    case Null => false
    case Bool(b) => b
    case Num(n) => n != 0
    case Str(s) => s != ""
    case Arr(_) => true
    case Obj(_) => true
  }

  /** ECMAScript ToString: an array is joined with commas, its `null` and
      `undefined` elements becoming empty; a plain object becomes
      "[object Object]". */
  function ToJsString(v: JsVal): (r: string)
    ensures v.Str? ==> r == v.s
    ensures v.Arr? && v.elems == [] ==> r == ""
    ensures v.Arr? && |v.elems| == 1 && v.elems[0].Str? ==> r == v.elems[0].s
    decreases v, 1
  {
    match v
    case Undefined => "undefined"
    case Null => "null"
    case Bool(b) => if b then "true" else "false"
    case Num(n) => NumberToString(n)
    case Str(s) => s
    case Arr(elems) => Join(v, elems)
    case Obj(_) => "[object Object]"
  }

  /** `elems.join(",")`, for the elements of the array `whole`. */
  function Join(ghost whole: JsVal, elems: seq<JsVal>): string
    requires forall k :: 0 <= k < |elems| ==> elems[k] < whole
    decreases whole, 0, |elems|
  {
    if elems == [] then ""
    else
      var last := elems[|elems| - 1];
      var text := if last.Undefined? || last.Null? then "" else ToJsString(last);
      if |elems| == 1 then text else Join(whole, elems[..|elems| - 1]) + "," + text
  }

  /** The string form of a single non-array value has no `@` in it, or has
      a space in it. */
  lemma ScalarStringShape(v: JsVal)
    requires !v.Str? && !v.Arr?
    ensures (forall k :: 0 <= k < |ToJsString(v)| ==> ToJsString(v)[k] != '@')
            || ' ' in ToJsString(v)
  {
    match v
    case Num(n) =>
      var r := ToJsString(v);
      if n < 0 {
        assert r == "-" + NatToDecimal(-n);
        forall k | 0 <= k < |r| ensures r[k] != '@' {
          if k > 0 { assert r[k] == NatToDecimal(-n)[k - 1]; }
        }
      }
    case Obj(_) =>
      assert ToJsString(v)[7] == ' ';
    case _ =>
  }
}
