/** The loosely typed fields of a location record, with the two JavaScript
    conversions the tree builder relies on: truthiness (for `a || b`) and
    conversion to text (`String(v)`, `v.toString()`). */
module JsValue {

  /** A field of a location record: absent (undefined or null), a string,
      an integral number or a boolean. */
  datatype Value = Missing | Str(s: string) | Num(n: int) | Bool(b: bool)

  /** JavaScript truthiness: undefined, null, "", 0 and false are falsy. */
  predicate Truthy(v: Value) {
    match v
    case Missing => false
    case Str(s) => s != ""
    case Num(n) => n != 0
    case Bool(b) => b
  }

  predicate IsDigit(c: char) {
    '0' <= c <= '9'
  }

  /** The number a string of decimal digits denotes. */
  function DecimalValue(s: string): nat
    requires forall i | 0 <= i < |s| :: IsDigit(s[i])
    decreases |s|
  {
    if s == [] then 0
    else
      assert IsDigit(s[|s| - 1]);
      DecimalValue(s[..|s| - 1]) * 10 + (s[|s| - 1] as int - '0' as int)
  }

  /** The decimal text of a natural number, without leading zeros. */
  function NatDigits(n: nat): (r: string)
    ensures r != [] && forall i | 0 <= i < |r| :: IsDigit(r[i])
    ensures r[0] == '0' ==> r == "0"
    ensures DecimalValue(r) == n
    decreases n
  {
    var d := ['0' + (n % 10) as char];
    if n < 10 then d
    else
      var r := NatDigits(n / 10) + d;
      assert r[..|r| - 1] == NatDigits(n / 10);
      r
  }

  /** The number an integer's text denotes: an optional minus sign, then digits. */
  function IntValue(s: string): int
    requires s != [] && s[0] == '-' ==> forall i | 1 <= i < |s| :: IsDigit(s[i])
    requires s != [] && s[0] != '-' ==> forall i | 0 <= i < |s| :: IsDigit(s[i])
  {
    if s == [] then 0
    else if s[0] == '-' then
      assert forall i | 0 <= i < |s[1..]| :: s[1..][i] == s[i + 1];
      -(DecimalValue(s[1..]) as int)
    else DecimalValue(s)
  }

  /** `String(v)`. Only integral numbers are modelled. */
  function ToStr(v: Value): (r: string)
    ensures Truthy(v) ==> r != ""
    ensures v.Str? ==> r == v.s
  {
    match v
    case Missing => "undefined"
    case Str(s) => s
    case Num(n) => if n < 0 then "-" + NatDigits(-n) else NatDigits(n)
    case Bool(b) => if b then "true" else "false"
  }

  /** `String(v || '')`: the text of a truthy value, otherwise "". */
  function JsString(v: Value): (r: string)
    ensures r == "" <==> !Truthy(v)
    ensures Truthy(v) ==> r == ToStr(v)
  {
    if Truthy(v) then ToStr(v) else ""
  }

  /** A number's text reads back as the same number. */
  lemma NumberText(n: int)
    ensures var t := ToStr(Num(n));
      t != [] && (t[0] == '-' <==> n < 0)
      && (t[0] == '-' ==> forall i | 1 <= i < |t| :: IsDigit(t[i]))
      && (t[0] != '-' ==> forall i | 0 <= i < |t| :: IsDigit(t[i]))
      && IntValue(t) == n
  {
    var t := ToStr(Num(n));
    if n < 0 {
      var m := NatDigits(-n);
      assert t == "-" + m;
      assert t[1..] == m;
      assert m[0] != '-';
    } else {
      assert t == NatDigits(n);
    }
  }
}
