/**
 * The few ECMAScript string primitives the post engine relies on:
 * `\d` in a regular expression, `String.prototype.trim`, and the global
 * `parseInt` called without a radix.
 */
module JsText {
  import opened Wrappers

  /** `\d` without the `u` flag: ASCII decimal digits only. */
  predicate IsDigit(c: char) {
    '0' <= c <= '9'
  }

  predicate AllDigits(s: string) {
    forall k :: 0 <= k < |s| ==> IsDigit(s[k])
  }

  /** A digit of the given radix (10 or 16, the only ones `parseInt` uses here). */
  predicate IsRadixDigit(c: char, radix: nat) {
    if radix == 16 then IsDigit(c) || 'a' <= c <= 'f' || 'A' <= c <= 'F'
    else IsDigit(c)
  }

  function DigitValue(c: char, radix: nat): (d: nat)
    requires IsRadixDigit(c, radix)
    ensures d < (if radix == 16 then 16 else 10)
  {
    if IsDigit(c) then c as int - '0' as int
    else if 'a' <= c <= 'f' then c as int - 'a' as int + 10
    else c as int - 'A' as int + 10
  }

  /** The number a run of digits denotes, most significant digit first. */
  function RadixValue(ds: string, radix: nat): nat
    requires forall k :: 0 <= k < |ds| ==> IsRadixDigit(ds[k], radix)
  {
    if ds == [] then 0
    else RadixValue(ds[..|ds| - 1], radix) * radix + DigitValue(ds[|ds| - 1], radix)
  }

  function Pow10(n: nat): (p: nat)
    ensures p >= 1
  {
    if n == 0 then 1 else 10 * Pow10(n - 1)
  }

  /** A run of `n` decimal digits denotes a number below `10^n`. */
  lemma {:induction false} RadixValueBelow(ds: string)
    requires AllDigits(ds)
    ensures RadixValue(ds, 10) < Pow10(|ds|)
  {
    if ds != [] {
      var init := ds[..|ds| - 1];
      assert AllDigits(init) by {
        forall k | 0 <= k < |init| ensures IsDigit(init[k]) {
          assert init[k] == ds[k];
        }
      }
      RadixValueBelow(init);
    }
  }

  /** Length of the longest prefix of `s` made of digits of `radix`. */
  function DigitRun(s: string, radix: nat): (n: nat)
    ensures n <= |s|
    ensures forall k :: 0 <= k < n ==> IsRadixDigit(s[k], radix)
    ensures n < |s| ==> !IsRadixDigit(s[n], radix)
  {
    if s == [] || !IsRadixDigit(s[0], radix) then 0 else 1 + DigitRun(s[1..], radix)
  }

  /** ECMAScript WhiteSpace and LineTerminator code points: what `trim` removes. */
  predicate IsJsSpace(c: char) {
    var n := c as int;
    n == 0x09 || n == 0x0A || n == 0x0B || n == 0x0C || n == 0x0D || n == 0x20 ||
    n == 0xA0 || n == 0x1680 || (0x2000 <= n <= 0x200A) || n == 0x2028 ||
    n == 0x2029 || n == 0x202F || n == 0x205F || n == 0x3000 || n == 0xFEFF
  }

  /** The code points `.` refuses to match in a regular expression without the `s` flag. */
  predicate IsLineTerminator(c: char) {
    var n := c as int;
    n == 0x0A || n == 0x0D || n == 0x2028 || n == 0x2029
  }

  function LeadingSpaceCount(s: string): (n: nat)
    ensures n <= |s|
    ensures forall k :: 0 <= k < n ==> IsJsSpace(s[k])
    ensures n < |s| ==> !IsJsSpace(s[n])
  {
    if s == [] || !IsJsSpace(s[0]) then 0 else 1 + LeadingSpaceCount(s[1..])
  }

  function TrailingSpaceCount(s: string): (n: nat)
    ensures n <= |s|
    ensures forall k :: |s| - n <= k < |s| ==> IsJsSpace(s[k])
    ensures n < |s| ==> !IsJsSpace(s[|s| - 1 - n])
  {
    if s == [] || !IsJsSpace(s[|s| - 1]) then 0 else 1 + TrailingSpaceCount(s[..|s| - 1])
  }

  /** No white space at either end. */
  predicate NoEdgeSpace(s: string) {
    s == [] || (!IsJsSpace(s[0]) && !IsJsSpace(s[|s| - 1]))
  }

  function TrimStart(s: string): string {
    s[LeadingSpaceCount(s)..]
  }

  /**
   * `String.prototype.trim`: the result is the part of `s` between its
   * leading and trailing white space, everything removed is white space,
   * and the result has none left at either end.
   */
  function Trim(s: string): (r: string)
    ensures NoEdgeSpace(r)
    ensures var a := LeadingSpaceCount(s);
      a + |r| <= |s| && r == s[a..a + |r|] &&
      forall k :: 0 <= k < |s| && !(a <= k < a + |r|) ==> IsJsSpace(s[k])
  {
    var t := TrimStart(s);
    t[..|t| - TrailingSpaceCount(t)]
  }

  /** Trimming a string that has no white space at its ends leaves it alone. */
  lemma TrimKeepsUntrimmed(s: string)
    requires NoEdgeSpace(s)
    ensures Trim(s) == s
  {
    assert LeadingSpaceCount(s) == 0;
    assert TrailingSpaceCount(s) == 0;
  }

  /** Trimming twice is trimming once. */
  lemma TrimIdempotent(s: string)
    ensures Trim(Trim(s)) == Trim(s)
  {
    TrimKeepsUntrimmed(Trim(s));
  }

  /**
   * The global `parseInt(s)` with no radix: skip leading white space, take
   * an optional sign, read hexadecimal after a `0x`/`0X` prefix and decimal
   * otherwise, stop at the first non-digit; `None` stands for `NaN` (no
   * digit at all).
   */
  function ParseInt(s: string): (r: Option<int>)
    ensures TrimStart(s) == [] ==> r.None?
    ensures r.Some? && r.value < 0 ==> TrimStart(s)[0] == '-'
  {
    var t := TrimStart(s);
    var negative := |t| > 0 && t[0] == '-';
    var u := if |t| > 0 && (t[0] == '-' || t[0] == '+') then t[1..] else t;
    var hex := |u| >= 2 && u[0] == '0' && (u[1] == 'x' || u[1] == 'X');
    var radix := if hex then 16 else 10;
    var body := if hex then u[2..] else u;
    var n := DigitRun(body, radix);
    if n == 0 then None
    else
      var v: int := RadixValue(body[..n], radix);
      Some(if negative then -v else v)
  }

  /** A decimal digit string, as the month selector produces, parses to its value. */
  lemma ParseIntDecimal(ds: string)
    requires ds != [] && AllDigits(ds)
    ensures ParseInt(ds) == Some(RadixValue(ds, 10))
  {
    assert LeadingSpaceCount(ds) == 0;
    assert TrimStart(ds) == ds;
    assert DigitRun(ds, 10) == |ds|;
    assert ds[..|ds|] == ds;
  }

  /**
   * The leftmost-match rule of `String.prototype.match` and `replace` with a
   * regular expression without the `g` flag: try each start position from
   * `from` on, and take the first where the pattern matches. `matchAt(k)`
   * says whether, and how, the pattern matches at position `k`.
   */
  function FirstMatch<M>(s: string, from: nat, matchAt: nat -> Option<M>): (r: Option<(nat, M)>)
    requires from <= |s|
    ensures r.Some? ==> from <= r.value.0 <= |s| && matchAt(r.value.0) == Some(r.value.1)
    ensures r.Some? ==> forall k :: from <= k < r.value.0 ==> matchAt(k).None?
    ensures r.None? ==> forall k :: from <= k <= |s| ==> matchAt(k).None?
    decreases |s| - from
  {
    match matchAt(from)
    case Some(m) => Some((from, m))
    case None => if from == |s| then None else FirstMatch(s, from + 1, matchAt)
  }

  /** A search that reaches a match with none before it returns that match. */
  lemma {:induction false} FirstMatchAt<M>(s: string, from: nat, matchAt: nat -> Option<M>, i: nat)
    requires from <= i <= |s| && matchAt(i).Some?
    requires forall k :: from <= k < i ==> matchAt(k).None?
    ensures FirstMatch(s, from, matchAt) == Some((i, matchAt(i).value))
    decreases i - from
  {
    if from < i {
      FirstMatchAt(s, from + 1, matchAt, i);
    }
  }
}
