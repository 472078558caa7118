/** The scalar values that flow through the plugin (request parameters, table
    cells, CRM replies) and the few PHP built-ins whose behaviour the plugin
    relies on: `empty`, the `(int)` and `(string)` casts, `explode` and
    `implode`. */
module Php {

  datatype Option<T> = None | Some(value: T)

  /** A PHP scalar: `null`, an integer or a string. */
  datatype Val = Null | Int(i: int) | Str(s: string)

  /** PHP `empty()` on a scalar: null, 0, "" and "0" are empty. */
  predicate Empty(v: Val) {
    v == Null || v == Int(0) || v == Str("") || v == Str("0")
  }

  /** PHP `empty()` on a string. */
  predicate EmptyStr(s: string) {
    s == "" || s == "0"
  }

  /** `$m[$k]`, which is `null` when the key is missing. */
  function Get(m: map<string, Val>, k: string): (v: Val)
    ensures k !in m ==> v == Null
    ensures k in m ==> v == m[k]
  {
    if k in m then m[k] else Null
  }

  /** `empty($m[$k])`: true for a missing key as for an empty value. */
  predicate EmptyAt(m: map<string, Val>, k: string) {
    Empty(Get(m, k))
  }

  predicate IsDigit(c: char) {
    '0' <= c <= '9'
  }

  predicate AllDigits(s: string) {
    forall i :: 0 <= i < |s| ==> IsDigit(s[i])
  }

  /** The longest prefix of `s` made of decimal digits. */
  function DigitPrefix(s: string): (d: string)
    ensures AllDigits(d) && d <= s
    ensures AllDigits(s) ==> d == s
    ensures |d| < |s| ==> !IsDigit(s[|d|])
  {
    if s != [] && IsDigit(s[0]) then [s[0]] + DigitPrefix(s[1..]) else []
  }

  /** The value of a string of decimal digits. */
  function DecimalValue(d: string): nat
    requires AllDigits(d)
  {
    if d == [] then 0 else 10 * DecimalValue(d[..|d| - 1]) + (d[|d| - 1] as int - '0' as int)
  }

  /** The decimal representation of a natural number, without leading zeros. */
  function NatToDecimal(n: nat): (d: string)
    ensures |d| > 0 && AllDigits(d)
  {
    if n < 10 then [('0' as int + n) as char]
    else NatToDecimal(n / 10) + [('0' as int + n % 10) as char]
  }

  /** `sprintf('%d', $i)` and `(string) $i`. */
  function IntToDecimal(i: int): string {
    if i < 0 then "-" + NatToDecimal(-i) else NatToDecimal(i)
  }

  /** The integer a string converts to: an optional sign followed by the
      leading digits, 0 when there are none ("12abc" is 12, "abc" is 0). */
  function LeadingInt(s: string): int {
    if s != [] && s[0] == '-' then -(DecimalValue(DigitPrefix(s[1..])) as int)
    else if s != [] && s[0] == '+' then DecimalValue(DigitPrefix(s[1..]))
    else DecimalValue(DigitPrefix(s))
  }

  /** True when a string starts with an optional sign and at least one digit:
      the strings a typed `int` parameter accepts. */
  predicate LeadingNumeric(s: string) {
    var body := if s != [] && (s[0] == '-' || s[0] == '+') then s[1..] else s;
    body != [] && IsDigit(body[0])
  }

  /** True when a value can be passed to a parameter declared `int` (in PHP's
      coercive mode): an integer, or a string that starts with one, which
      then stands for `ToInt` of it. Anything else throws a `TypeError`. */
  predicate IntParamAccepts(v: Val) {
    v.Int? || (v.Str? && LeadingNumeric(v.s))
  }

  /** True when the whole string is an optional sign followed by digits. */
  predicate IsNumericStr(s: string) {
    var body := if s != [] && (s[0] == '-' || s[0] == '+') then s[1..] else s;
    body != [] && AllDigits(body)
  }

  /** `(int) $v`, and the database's conversion of a value to an integer column. */
  function ToInt(v: Val): int {
    match v
    case Null => 0
    case Int(i) => i
    case Str(s) => LeadingInt(s)
  }

  /** `(string) $v`. */
  function ToStr(v: Val): string {
    match v
    case Null => ""
    case Int(i) => IntToDecimal(i)
    case Str(s) => s
  }

  lemma {:induction false} DecimalOfNat(n: nat)
    ensures DecimalValue(NatToDecimal(n)) == n
  {
    if n >= 10 {
      var d := NatToDecimal(n);
      assert d[..|d| - 1] == NatToDecimal(n / 10);
      DecimalOfNat(n / 10);
    }
  }

  /** Printing an integer and converting it back gives the integer again. */
  lemma IntRoundTrip(i: int)
    ensures ToInt(Str(IntToDecimal(i))) == i
    ensures IsNumericStr(IntToDecimal(i))
  {
    var n: nat := if i < 0 then -i else i;
    DecimalOfNat(n);
    if i < 0 {
      assert IntToDecimal(i)[1..] == NatToDecimal(n);
    }
  }

  /** `explode('/', $s)`: the pieces of `s` between the separators. */
  function Explode(s: string): (parts: seq<string>)
    ensures |parts| >= 1
    ensures forall i :: 0 <= i < |parts| ==> '/' !in parts[i]
  {
    if s == [] then [""]
    else if s[0] == '/' then [""] + Explode(s[1..])
    else
      var rest := Explode(s[1..]);
      [[s[0]] + rest[0]] + rest[1..]
  }

  /** `implode('/', $parts)`. */
  function Implode(parts: seq<string>): string
    requires |parts| >= 1
  {
    if |parts| == 1 then parts[0] else parts[0] + "/" + Implode(parts[1..])
  }

  /** Joining the pieces of a path with the separator gives the path back. */
  lemma {:induction false} ImplodeExplode(s: string)
    ensures Implode(Explode(s)) == s
  {
    if s != [] {
      ImplodeExplode(s[1..]);
      var rest := Explode(s[1..]);
      if s[0] == '/' {
        assert Explode(s)[1..] == rest;
      } else {
        var parts := Explode(s);
        assert parts[1..] == rest[1..];
        if |rest| > 1 {
          assert Implode(rest) == rest[0] + "/" + Implode(rest[1..]);
        }
      }
    }
  }

  /** Splitting a path joined from separator-free pieces gives the pieces back. */
  lemma {:induction false} ExplodeImplode(parts: seq<string>)
    requires |parts| >= 1
    requires forall i :: 0 <= i < |parts| ==> '/' !in parts[i]
    ensures Explode(Implode(parts)) == parts
  {
    if |parts| == 1 {
      ExplodeSegment(parts[0], []);
      assert parts[0] + [] == parts[0];
      assert Explode(parts[0] + []) == [parts[0]];
    } else {
      var t := "/" + Implode(parts[1..]);
      ExplodeImplode(parts[1..]);
      ExplodeSegment(parts[0], t);
      assert t[1..] == Implode(parts[1..]);
      assert Explode(t) == [""] + parts[1..];
      assert Implode(parts) == parts[0] + t;
      assert parts[0] + "" == parts[0];
      assert parts == [parts[0]] + parts[1..];
    }
  }

  /** A separator-free piece in front of a string joins the first piece. */
  lemma {:induction false} ExplodeSegment(p: string, t: string)
    requires '/' !in p
    requires t == [] || t[0] == '/'
    ensures Explode(p + t) == [p + Explode(t)[0]] + Explode(t)[1..]
  {
    if p == [] {
      assert p + t == t;
      if t == [] { } else {
        assert Explode(t)[0] == "";
      }
    } else {
      assert (p + t)[1..] == p[1..] + t;
      ExplodeSegment(p[1..], t);
      assert [p[0]] + (p[1..] + Explode(t)[0]) == p + Explode(t)[0];
    }
  }
}
