/**
 * The PHP values the plugin stores in its options: null, booleans, integers,
 * strings and ordered arrays with string keys. Floats and objects do not
 * occur in the plugin's options and are not modelled.
 */
module PhpValues {
  import opened Maybe

  datatype Value =
    | Null
    | Bool(b: bool)
    | Int(i: int)
    | Str(s: string)
    | Arr(entries: seq<(string, Value)>)

  /** PHP's conversion to boolean, as used by `if ( $x )` and `! $x`. */
  predicate Truthy(v: Value)
  {
    match v
    case Null => false
    case Bool(b) => b
    case Int(i) => i != 0
    case Str(s) => s != "" && s != "0"
    case Arr(es) => |es| > 0
  }

  function Digit(d: nat): char
    requires d < 10
  {
    "0123456789"[d]
  }

  /** Decimal rendering of an integer, as PHP's `(string)` cast writes it. */
  function DecimalString(n: int): (s: string)
    ensures |s| > 0
    ensures n >= 0 ==> forall k :: 0 <= k < |s| ==> '0' <= s[k] <= '9'
    decreases if n < 0 then -n + 1 else n
  {
    if n < 0 then "-" + DecimalString(-n)
    else if n < 10 then [Digit(n)]
    else DecimalString(n / 10) + [Digit(n % 10)]
  }

  /** PHP's `(string)` cast, used when an option is concatenated into a string
      or echoed into the page: null and false become "", true becomes "1",
      an array becomes "Array". */
  function ToPhpString(v: Value): string
  {
    match v
    case Null => ""
    case Bool(b) => if b then "1" else ""
    case Int(i) => DecimalString(i)
    case Str(s) => s
    case Arr(_) => "Array"
  }

  predicate AllDigits(s: string)
  {
    forall k :: 0 <= k < |s| ==> '0' <= s[k] <= '9'
  }

  /** The value of a string of decimal digits. */
  function DigitsValue(s: string): nat
    requires AllDigits(s)
    decreases |s|
  {
    if s == [] then 0
    else 10 * DigitsValue(s[..|s| - 1]) + (s[|s| - 1] - '0') as nat
  }

  /** The integer JavaScript reads where the server echoes an option into a
      numeric position of the script: an integer as itself, true as 1, and a
      string of decimal digits without a leading zero as its value. Every
      other echoed text is None, which covers several behaviours this model
      does not tell apart: empty text (null, false, "") leaves the script
      unparsable; a decimal fraction, a sign, an exponent or a leading zero
      (which sloppy-mode JavaScript may read as octal) is a number the model
      does not evaluate; other text is a name resolved only when the script
      runs; an array echoes as the name `Array`. */
  function EchoedInteger(v: Value): (r: Option<int>)
    ensures v.Int? ==> r == Some(v.i)
    ensures r.Some? ==> v.Int? || v.Str? || v == Bool(true)
  {
    match v
    case Int(i) => Some(i)
    case Bool(b) => if b then Some(1) else None
    case Str(s) => if s != "" && AllDigits(s) && (|s| == 1 || s[0] != '0') then Some(DigitsValue(s)) else None
    case _ => None
  }
}
