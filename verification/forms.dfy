/**
 Values held by form controls and the form groups that hold them.

 A control's value is a JavaScript value; only the kinds the flight forms use
 are modelled. Numbers are integers here.
 */
module Forms {

  datatype Value = Undefined | Null | Str(s: string) | Num(n: int) | Bool(b: bool)

  /** JavaScript truthiness: `undefined`, `null`, `''`, `0` and `false` are falsy. */
  predicate Truthy(v: Value) {
    match v
    case Undefined => false
    case Null => false
    case Str(s) => |s| > 0
    case Num(n) => n != 0
    case Bool(b) => b
  }

  /**
   JavaScript's `length` of a string: the number of UTF-16 code units, so a
   character outside the Basic Multilingual Plane counts twice.
   */
  function Utf16Length(s: string): (n: nat)
    ensures |s| <= n <= 2 * |s|
  {
    if s == [] then 0 else (if s[0] as int >= 0x1_0000 then 2 else 1) + Utf16Length(s[1..])
  }

  /** Two characters from outside the Basic Multilingual Plane have length 4. */
  lemma Utf16LengthCountsSurrogatePairs()
    ensures Utf16Length("\U{1F600}\U{1F600}") == 4
  {
    assert "\U{1F600}\U{1F600}"[1..] == "\U{1F600}";
  }

  /**
   A form group, or the value object of one: control name to current value.
   A name that is not a key has no control in the group.
   */
  type Controls = map<string, Value>

  /** `group.controls[name]?.value`: the control's value, or `undefined` when there is no such control. */
  function ValueOf(g: Controls, name: string): Value {
    if name in g then g[name] else Undefined
  }

  /** The two groups have a control `name` in both or in neither, and with the same value. */
  predicate SameControl(g1: Controls, g2: Controls, name: string) {
    && (name in g1 <==> name in g2)
    && ValueOf(g1, name) == ValueOf(g2, name)
  }
}
