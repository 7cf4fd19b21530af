/**
 * The loosely typed PHP values the plugin inspects, and the PHP 7 conversions
 * and comparisons it applies to them: truthiness (`empty`), `(int)` casts,
 * `is_numeric`, string conversion and loose `==` against a literal word.
 */
module Php {
  import opened Strings

  datatype Option<T> = None | Some(value: T)

  /**
   * A PHP value. Arrays are ordered key/value lists; an integer key is written
   * as its decimal string. `Closure` stands for a callable object.
   */
  datatype Value =
    | Null
    | Bool(b: bool)
    | Int(i: int)
    | Str(s: string)
    | Arr(entries: seq<(string, Value)>)
    | Closure(id: nat)

  /** Array entries in order; integer keys `"0"`, `"1"`, ... as for a PHP list. */
  function ListOf(items: seq<Value>): (r: Value)
    ensures r.Arr? && |r.entries| == |items|
    ensures forall i :: 0 <= i < |items| ==> r.entries[i].1 == items[i]
  {
    Arr(seq(|items|, i requires 0 <= i < |items| => (IntToString(i), items[i])))
  }

  // ---------------------------------------------------------------------------
  // Decimal digits

  function DigitChar(d: nat): (c: char)
    requires d < 10
    ensures IsDigit(c)
  {
    ('0' as int + d) as char
  }

  function DigitValue(c: char): (d: nat)
    requires IsDigit(c)
    ensures d < 10
  {
    c as int - '0' as int
  }

  /** The decimal digits of a natural number, without leading zeros. */
  function NatToString(n: nat): (r: string)
    ensures |r| > 0 && AllDigits(r)
    ensures r[0] == '0' ==> n == 0
  {
    if n < 10 then [DigitChar(n)] else NatToString(n / 10) + [DigitChar(n % 10)]
  }

  /** The number a run of decimal digits denotes. */
  function DigitsValue(s: string): nat
    requires AllDigits(s)
  {
    if s == [] then 0 else DigitsValue(s[..|s| - 1]) * 10 + DigitValue(s[|s| - 1])
  }

  /** Reading back the digits of `n` gives `n`. */
  lemma {:induction false} DigitsValueOfNatToString(n: nat)
    ensures DigitsValue(NatToString(n)) == n
  {
    if n >= 10 {
      DigitsValueOfNatToString(n / 10);
      var r := NatToString(n);
      assert r[..|r| - 1] == NatToString(n / 10);
    }
  }

  /** PHP's decimal rendering of an integer (`(string) $n`). */
  function IntToString(n: int): (r: string)
    ensures |r| > 0
    ensures r[0] == '-' <==> n < 0
    ensures r[0] == '-' || IsDigit(r[0])
    ensures forall k :: 0 < k < |r| ==> IsDigit(r[k])
    ensures IsDigit(r[|r| - 1])
  {
    if n < 0 then "-" + NatToString(-n) else NatToString(n)
  }

  // ---------------------------------------------------------------------------
  // `(int)` and `is_numeric` on strings (PHP 7, no exponent forms)

  /** The white space PHP skips before a number. */
  predicate IsNumberSpace(c: char) {
    c == ' ' || c == '\t' || c == '\n' || c == '\r' || c == '\U{B}' || c == '\U{C}'
  }

  function SkipSpace(s: string): (r: string)
    ensures |r| <= |s| && r == s[|s| - |r|..]
    ensures r == [] || !IsNumberSpace(r[0])
    ensures s == [] || !IsNumberSpace(s[0]) ==> r == s
  {
    if s != [] && IsNumberSpace(s[0]) then SkipSpace(s[1..]) else s
  }

  /** The longest prefix of `s` made of decimal digits. */
  function LeadingDigits(s: string): (r: string)
    ensures |r| <= |s| && r == s[..|r|]
    ensures AllDigits(r)
    ensures |r| == |s| || !IsDigit(s[|r|])
  {
    if s != [] && IsDigit(s[0]) then [s[0]] + LeadingDigits(s[1..]) else []
  }

  function UnsignedPart(t: string): string {
    if t != [] && (t[0] == '+' || t[0] == '-') then t[1..] else t
  }

  /** `(int) $s`: leading white space, an optional sign, then the longest digit run; 0 if none. */
  function IntOfString(s: string): int {
    var t := SkipSpace(s);
    var magnitude: int := DigitsValue(LeadingDigits(UnsignedPart(t)));
    if t != [] && t[0] == '-' then -magnitude else magnitude
  }

  /** Digits with an optional decimal part: `\d+(\.\d*)?` or `\.\d+`. */
  predicate UnsignedDecimal(u: string) {
    var d := LeadingDigits(u);
    var rest := u[|d|..];
    || (rest == [] && |d| > 0)
    || (rest != [] && rest[0] == '.' && AllDigits(rest[1..]) && (|d| > 0 || |rest| > 1))
  }

  /** `is_numeric` on a string. */
  predicate NumericString(s: string) {
    UnsignedDecimal(UnsignedPart(SkipSpace(s)))
  }

  /** A string made only of digits is its own longest digit prefix. */
  lemma {:induction false} LeadingDigitsOfDigits(s: string)
    requires AllDigits(s)
    ensures LeadingDigits(s) == s
  {
    if s != [] {
      LeadingDigitsOfDigits(s[1..]);
    }
  }

  lemma SignedRunParts(sign: string, d: string)
    requires sign == "" || sign == "-"
    requires |d| > 0 && AllDigits(d)
    ensures SkipSpace(sign + d) == sign + d
    ensures UnsignedPart(sign + d) == d
  {
    var r := sign + d;
    assert r[0] == '-' || IsDigit(r[0]);
    assert SkipSpace(r) == r;
    if sign == "" { assert r == d; } else { assert r[1..] == d; }
  }

  lemma DigitRunIsDecimal(d: string)
    requires |d| > 0 && AllDigits(d)
    ensures UnsignedDecimal(d)
    ensures DigitsValue(LeadingDigits(d)) == DigitsValue(d)
  {
    LeadingDigitsOfDigits(d);
    assert d[|d|..] == [];
  }

  /** A non-empty run of digits, optionally preceded by a minus sign, is numeric and casts to its value. */
  lemma SignedRunReadsBack(sign: string, d: string)
    requires sign == "" || sign == "-"
    requires |d| > 0 && AllDigits(d)
    ensures NumericString(sign + d)
    ensures IntOfString(sign + d) == if sign == "" then DigitsValue(d) else -(DigitsValue(d) as int)
  {
    SignedRunParts(sign, d);
    DigitRunIsDecimal(d);
  }

  /** The decimal rendering of any integer is numeric and casts back to that integer. */
  lemma IntToStringRoundTrip(n: int)
    ensures NumericString(IntToString(n))
    ensures IntOfString(IntToString(n)) == n
  {
    var m: nat := if n < 0 then -n else n;
    var d := NatToString(m);
    var sign := if n < 0 then "-" else "";
    assert IntToString(n) == sign + d;
    SignedRunReadsBack(sign, d);
    DigitsValueOfNatToString(m);
  }

  // ---------------------------------------------------------------------------
  // Conversions on values

  /** PHP's boolean conversion; `empty($v)` is its negation. */
  predicate Truthy(v: Value) {
    match v
    case Null => false
    case Bool(b) => b
    case Int(i) => i != 0
    case Str(s) => s != "" && s != "0"
    case Arr(entries) => |entries| > 0
    case Closure(_) => true
  }

  predicate IsScalar(v: Value) {
    v.Null? || v.Bool? || v.Int? || v.Str?
  }

  /** String conversion; an array reads as "Array" as in PHP, a closure as "". */
  function ToStr(v: Value): string {
    match v
    case Null => ""
    case Bool(b) => if b then "1" else ""
    case Int(i) => IntToString(i)
    case Str(s) => s
    case Arr(_) => "Array"
    case Closure(_) => ""
  }

  /** `(int) $v`. */
  function IntCast(v: Value): int {
    match v
    case Null => 0
    case Bool(b) => if b then 1 else 0
    case Int(i) => i
    case Str(s) => IntOfString(s)
    case Arr(entries) => if |entries| == 0 then 0 else 1
    case Closure(_) => 1
  }

  /** `is_numeric($v)`. */
  predicate IsNumeric(v: Value) {
    v.Int? || (v.Str? && NumericString(v.s))
  }

  /**
   * PHP 7 loose equality `$v == 'word'` against a literal without digits: a
   * boolean compares with the word's truthiness, an integer with 0 (the word's
   * integer value), null with the empty string, strings by content.
   */
  predicate LooseEqualsWord(v: Value, word: string)
    requires NoDigits(word)
  {
    match v
    case Null => word == ""
    case Bool(b) => b == (word != "")
    case Int(i) => i == 0
    case Str(s) => s == word
    case Arr(_) => false
    case Closure(_) => false
  }

  /** `$entries[$key]` when present. */
  function Lookup(entries: seq<(string, Value)>, key: string): (r: Option<Value>)
    ensures r.Some? <==> exists i :: 0 <= i < |entries| && entries[i].0 == key
    ensures r.Some? ==> exists i :: 0 <= i < |entries| && entries[i] == (key, r.value)
  {
    if entries == [] then None
    else if entries[0].0 == key then Some(entries[0].1)
    else Lookup(entries[1..], key)
  }

  /** `isset($entries[$key])`: present and not null. */
  predicate IsSet(entries: seq<(string, Value)>, key: string) {
    Lookup(entries, key).Some? && !Lookup(entries, key).value.Null?
  }

  /** `$entries[$key]`, reading a missing key as null. */
  function Get(entries: seq<(string, Value)>, key: string): Value {
    match Lookup(entries, key)
    case Some(v) => v
    case None => Null
  }

  /** `$entries[$key] = $v`: overwrites the entry for `key` in place, or appends one. */
  function Set(entries: seq<(string, Value)>, key: string, v: Value): (r: seq<(string, Value)>)
    ensures Lookup(r, key) == Some(v)
    ensures forall k :: k != key ==> Lookup(r, k) == Lookup(entries, k)
  {
    if entries == [] then [(key, v)]
    else if entries[0].0 == key then [(key, v)] + entries[1..]
    else
      var rest := Set(entries[1..], key, v);
      assert ([entries[0]] + rest)[1..] == rest;
      [entries[0]] + rest
  }
}
