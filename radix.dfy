/** Base-b digit arithmetic: the mathematical meaning of `radix_fmt::radix`
    (printing an unsigned integer in base b) and of `u64::from_str_radix`
    (parsing it back), both over characters as Rust's `char::to_digit` reads them. */
module Radix {
  import opened Wrappers

  /** 2^64, one past the largest `u64`. */
  const U64_LIMIT: nat := 0x1_0000_0000_0000_0000

  type u64 = n: nat | n < 0x1_0000_0000_0000_0000

  /** Value of a most-significant-first digit sequence in base `b`. */
  function ValueOf(ds: seq<nat>, b: nat): nat
  {
    if ds == [] then 0 else ValueOf(ds[..|ds| - 1], b) * b + ds[|ds| - 1]
  }

  /** Every digit is a digit of base `b`. */
  predicate AllBelow(ds: seq<nat>, b: nat)
  {
    forall i :: 0 <= i < |ds| ==> ds[i] < b
  }

  /** The shape `radix` prints: at least one digit, and no leading zero unless
      the number is zero itself. */
  predicate Canonical(ds: seq<nat>)
  {
    |ds| >= 1 && (ds[0] == 0 ==> |ds| == 1)
  }

  lemma {:induction false} ValueOfPositive(ds: seq<nat>, b: nat)
    requires |ds| >= 1 && ds[0] != 0 && b >= 1
    ensures ValueOf(ds, b) >= 1
  {
    if |ds| > 1 {
      ValueOfPositive(ds[..|ds| - 1], b);
    }
  }

  /** Leading zeros do not change the value. */
  lemma {:induction false} ValueOfLeadingZeros(z: nat, ds: seq<nat>, b: nat)
    ensures ValueOf(seq(z, _ => 0) + ds, b) == ValueOf(ds, b)
    decreases |ds|
  {
    var zs: seq<nat> := seq(z, _ => 0);
    if ds == [] {
      assert zs + ds == zs;
      ValueOfZeros(z, b);
    } else {
      var pre := ds[..|ds| - 1];
      assert (zs + ds)[..|zs + ds| - 1] == zs + pre;
      ValueOfLeadingZeros(z, pre, b);
    }
  }

  lemma {:induction false} ValueOfZeros(z: nat, b: nat)
    ensures ValueOf(seq(z, _ => 0), b) == 0
  {
    if z > 0 {
      var zs: seq<nat> := seq(z, _ => 0);
      assert zs[..z - 1] == seq(z - 1, _ => 0);
      ValueOfZeros(z - 1, b);
    }
  }

  /** The digits of `n` in base `b`, most significant first (`radix(n, b)`). */
  function ToBase(n: nat, b: nat): (ds: seq<nat>)
    requires b >= 2
    ensures Canonical(ds) && AllBelow(ds, b)
    ensures ValueOf(ds, b) == n
    decreases n
  {
    if n < b then [n]
    else
      DivStep(n, b);
      var ds := ToBase(n / b, b);
      ToBaseStep(ds, n, b);
      ds + [n % b]
  }

  lemma DivStep(n: nat, b: nat)
    requires b >= 2 && n >= b
    ensures 1 <= n / b < n
  {
  }

  /** Appending the last digit of `n` to the digits of `n / b` gives the digits of `n`. */
  lemma ToBaseStep(ds: seq<nat>, n: nat, b: nat)
    requires b >= 2 && n >= b && Canonical(ds) && ValueOf(ds, b) == n / b
    ensures ValueOf(ds + [n % b], b) == n && ds[0] != 0
  {
    ValueOfSnoc(ds, n % b, b);
    DivMod(n, b);
    ZeroLeadValue(ds, b);
  }

  lemma ValueOfSnoc(ds: seq<nat>, d: nat, b: nat)
    ensures ValueOf(ds + [d], b) == ValueOf(ds, b) * b + d
  {
    assert (ds + [d])[..|ds|] == ds;
  }

  lemma DivMod(n: nat, b: nat)
    requires b >= 1
    ensures (n / b) * b + n % b == n
  {
  }

  /** A canonical digit sequence that starts with 0 is the number 0. */
  lemma ZeroLeadValue(ds: seq<nat>, b: nat)
    requires Canonical(ds)
    ensures ds[0] == 0 ==> ValueOf(ds, b) == 0
  {
    assert |ds| == 1 ==> ds[..0] == [];
  }

  /** A canonical base-`b` digit sequence is the one `ToBase` prints. */
  lemma {:induction false} ToBaseUnique(ds: seq<nat>, b: nat)
    requires b >= 2 && Canonical(ds) && AllBelow(ds, b)
    ensures ds == ToBase(ValueOf(ds, b), b)
    decreases |ds|
  {
    var n := ValueOf(ds, b);
    if |ds| == 1 {
      assert ds[..0] == [];
    } else {
      var pre, last := ds[..|ds| - 1], ds[|ds| - 1];
      var q := ValueOf(pre, b);
      assert pre[0] == ds[0];
      ValueOfPositive(pre, b);
      MulAtLeast(q, b);
      DivModOf(n, q, last, b);
      ToBaseUnique(pre, b);
      assert ds == pre + [last];
    }
  }

  lemma DivModOf(n: nat, q: nat, r: nat, b: nat)
    requires b >= 1 && r < b && n == q * b + r
    ensures n / b == q && n % b == r
  {
    var q', r' := n / b, n % b;
    assert (q' - q) * b == r - r';
    if q' > q {
      MulAtLeast(q' - q, b);
    } else if q' < q {
      MulAtLeast(q - q', b);
    }
  }

  lemma MulAtLeast(k: int, b: int)
    requires k >= 1 && b >= 1
    ensures k * b >= b
  {
    if k > 1 {
      MulAtLeast(k - 1, b);
    }
  }

  /** `char::to_digit(c, radix)`: '0'..'9' are 0..9, letters of either case
      are 10..35, and the digit must be below the radix. */
  function ToDigit(c: char, radix: nat): (d: Option<nat>)
    requires 2 <= radix <= 36
    ensures d.Some? ==> d.value < radix
  {
    var v: int :=
      if '0' <= c <= '9' then c as int - '0' as int
      else if 'a' <= c <= 'z' then c as int - 'a' as int + 10
      else if 'A' <= c <= 'Z' then c as int - 'A' as int + 10
      else 36;
    if v < radix then Some(v) else None
  }

  /** The lower-case character for digit `d`, as `radix` prints it. */
  function FromDigit(d: nat, radix: nat): (c: char)
    requires 2 <= radix <= 36 && d < radix
    ensures ToDigit(c, radix) == Some(d)
  {
    if d < 10 then ('0' as int + d) as char else ('a' as int + d - 10) as char
  }

  /** The text `format!("{}", radix(n, b))`. */
  function RadixText(n: nat, b: nat): (s: string)
    requires 2 <= b <= 36
  {
    var ds := ToBase(n, b);
    seq(|ds|, i requires 0 <= i < |ds| => FromDigit(ds[i], b))
  }

  /** The digits a string spells in base `radix`, when every character is one. */
  function DigitsOf(s: string, radix: nat): (ds: Option<seq<nat>>)
    requires 2 <= radix <= 36
    ensures ds.Some? <==> forall i :: 0 <= i < |s| ==> ToDigit(s[i], radix).Some?
    ensures ds.Some? ==> |ds.value| == |s| && forall i :: 0 <= i < |s| ==> ToDigit(s[i], radix) == Some(ds.value[i])
  {
    if forall i :: 0 <= i < |s| ==> ToDigit(s[i], radix).Some? then
      Some(seq(|s|, i requires 0 <= i < |s| => ToDigit(s[i], radix).value))
    else
      None
  }

  /** `u64::from_str_radix(s, radix)`: it fails on the empty string, on a
      character that is no digit of the radix, and on a value of 2^64 or more. */
  function FromStrRadix(s: string, radix: nat): (r: Option<u64>)
    requires 2 <= radix <= 36
    ensures r.Some? <==> s != [] && DigitsOf(s, radix).Some? && ValueOf(DigitsOf(s, radix).value, radix) < U64_LIMIT
    ensures r.Some? ==> r.value == ValueOf(DigitsOf(s, radix).value, radix)
  {
    if s == [] then None
    else match DigitsOf(s, radix)
      case None => None
      case Some(ds) => var v := ValueOf(ds, radix); if v < U64_LIMIT then Some(v) else None
  }

  /** Parsing the printed text gives the number back. */
  lemma RadixTextRoundTrip(n: nat, b: nat)
    requires 2 <= b <= 36
    ensures DigitsOf(RadixText(n, b), b) == Some(ToBase(n, b))
    ensures n < U64_LIMIT ==> FromStrRadix(RadixText(n, b), b) == Some(n)
  {
    var s := RadixText(n, b);
    var ds := ToBase(n, b);
    assert forall i :: 0 <= i < |s| ==> ToDigit(s[i], b) == Some(ds[i]);
    assert DigitsOf(s, b).value == ds;
  }
}
