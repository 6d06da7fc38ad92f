/** Small vocabulary shared by every component: optional values, results,
    and the handful of JavaScript string and array behaviours the services
    rely on (substring search, `join`, `trim`, `slice`, number rendering)
    together with SQLite's `LIMIT`. */
module Common {

  /** Store identifiers are the first eight characters of a fresh UUID. */
  type Id = string

  datatype Option<+T> = None | Some(value: T) {
    function GetOr(default: T): T {
      match this
      case Some(v) => v
      case None => default
    }
  }

  /** A value or an error message: the model of a JavaScript call that
      either returns or throws. */
  datatype Result<+T, +E> = Ok(value: T) | Err(error: E)

  // ---------------------------------------------------------------------
  // Substring search (String.prototype.includes)
  // ---------------------------------------------------------------------

  ghost predicate OccursAt(s: string, sub: string, i: nat) {
    i + |sub| <= |s| && s[i..i + |sub|] == sub
  }

  /** `s.includes(sub)`. */
  function Contains(s: string, sub: string): bool
    decreases |s|
  {
    if |sub| > |s| then false
    else if s[..|sub|] == sub then true
    else Contains(s[1..], sub)
  }

  /** The search finds `sub` exactly when it occurs at some position. */
  lemma {:induction false} ContainsOccurs(s: string, sub: string)
    ensures Contains(s, sub) <==> exists i: nat :: OccursAt(s, sub, i)
    decreases |s|
  {
    if |sub| > |s| {
      assert forall i: nat :: !OccursAt(s, sub, i);
    } else if s[..|sub|] == sub {
      assert OccursAt(s, sub, 0);
    } else {
      ContainsOccurs(s[1..], sub);
      ShiftOccurrence(s, sub);
    }
  }

  /** An occurrence in `s[1..]` is an occurrence in `s` one place later, and
      an occurrence in `s` that is not at the front is one in `s[1..]`. */
  lemma ShiftOccurrence(s: string, sub: string)
    requires |s| > 0
    requires |sub| > |s| || s[..|sub|] != sub
    ensures (exists i: nat :: OccursAt(s[1..], sub, i)) <==> (exists i: nat :: OccursAt(s, sub, i))
  {
    forall i: nat | OccursAt(s[1..], sub, i)
      ensures OccursAt(s, sub, i + 1)
    {
      assert s[1..][i..i + |sub|] == s[i + 1..i + 1 + |sub|];
    }
    assert !OccursAt(s, sub, 0);
    forall i: nat | OccursAt(s, sub, i)
      ensures i > 0 && OccursAt(s[1..], sub, i - 1)
    {
      assert i != 0;
      assert s[1..][i - 1..i - 1 + |sub|] == s[i..i + |sub|];
    }
  }

  // ---------------------------------------------------------------------
  // Array.prototype.join and String.prototype.trim
  // ---------------------------------------------------------------------

  /** `parts.join(sep)`. */
  function Join(parts: seq<string>, sep: string): string
    decreases |parts|
  {
    if |parts| == 0 then ""
    else if |parts| == 1 then parts[0]
    else parts[0] + sep + Join(parts[1..], sep)
  }

  /** The characters `trim()` removes: ECMAScript WhiteSpace and
      LineTerminator code points. */
  predicate IsJsWhitespace(c: char) {
    || c == '\t' || c == '\n' || c == '\U{000B}' || c == '\U{000C}' || c == '\r'
    || c == ' ' || c == '\U{00A0}' || c == '\U{1680}'
    || ('\U{2000}' <= c <= '\U{200A}')
    || c == '\U{2028}' || c == '\U{2029}' || c == '\U{202F}' || c == '\U{205F}'
    || c == '\U{3000}' || c == '\U{FEFF}'
  }

  /** `s.trim() === ''`. */
  predicate IsBlank(s: string) {
    forall i :: 0 <= i < |s| ==> IsJsWhitespace(s[i])
  }

  // ---------------------------------------------------------------------
  // Sequences: reverse, Array.prototype.slice(0, n), SQL LIMIT
  // ---------------------------------------------------------------------

  function Reverse<T>(s: seq<T>): (r: seq<T>)
    ensures |r| == |s|
    ensures forall i :: 0 <= i < |s| ==> r[i] == s[|s| - 1 - i]
  {
    if |s| == 0 then [] else Reverse(s[1..]) + [s[0]]
  }

  function Min(a: int, b: int): int {
    if a <= b then a else b
  }

  /** `s.slice(0, n)`: a negative end counts back from the end of `s`. */
  function SliceTo<T>(s: seq<T>, n: int): (r: seq<T>)
    ensures n >= 0 ==> |r| == Min(n, |s|)
    ensures n < 0 ==> |r| == if |s| + n < 0 then 0 else |s| + n
    ensures r <= s && |r| <= |s|
  {
    if n >= 0 then s[..Min(n, |s|)]
    else if |s| + n < 0 then []
    else s[..|s| + n]
  }

  /** SQLite's `LIMIT n`: a negative limit means no limit at all. */
  function SqlLimit<T>(s: seq<T>, n: int): (r: seq<T>)
    ensures n >= 0 ==> |r| == Min(n, |s|)
    ensures n < 0 ==> r == s
    ensures r <= s && |r| <= |s|
  {
    if n < 0 then s else s[..Min(n, |s|)]
  }

  // ---------------------------------------------------------------------
  // Number rendering (template-literal interpolation of a number)
  // ---------------------------------------------------------------------

  function DigitChar(d: nat): char
    requires d < 10
  {
    "0123456789"[d]
  }

  function NatToString(n: nat): (r: string)
    ensures |r| > 0
    decreases n
  {
    if n < 10 then [DigitChar(n)] else NatToString(n / 10) + [DigitChar(n % 10)]
  }

  function IntToString(i: int): (r: string)
    ensures |r| > 0
  {
    if i < 0 then "-" + NatToString(-i) else NatToString(i)
  }

  /** The decimal digits of a fraction `f / 1000` after the point, with
      trailing zeros dropped, as JavaScript prints them. */
  function MilliFraction(f: nat): string
    requires 0 < f < 1000
  {
    var d1, d2, d3 := f / 100, (f / 10) % 10, f % 10;
    if d3 != 0 then [DigitChar(d1), DigitChar(d2), DigitChar(d3)]
    else if d2 != 0 then [DigitChar(d1), DigitChar(d2)]
    else [DigitChar(d1)]
  }

  /** The text of `${ms / 1000}` for an integer number of milliseconds:
      whole seconds print without a point, otherwise up to three decimals. */
  function MillisAsSeconds(ms: int): (r: string)
    ensures ms % 1000 == 0 ==> r == IntToString(ms / 1000)
  {
    WholeSeconds(ms);
    var sign := if ms < 0 then "-" else "";
    var a: nat := if ms < 0 then -ms else ms;
    if a % 1000 == 0 then
      if ms < 0 then "-" + NatToString(a / 1000) else NatToString(a / 1000)
    else sign + NatToString(a / 1000) + "." + MilliFraction(a % 1000)
  }

  /** A whole number of milliseconds is a multiple of 1000 whatever its
      sign, so its magnitude divides evenly too. */
  lemma WholeSeconds(ms: int)
    ensures ms % 1000 == 0 <==> (if ms < 0 then -ms else ms) % 1000 == 0
    ensures ms % 1000 == 0 && ms < 0 ==> ms / 1000 < 0 && (-ms) / 1000 == -(ms / 1000)
  {
    var q := ms / 1000;
    var m := ms % 1000;
    assert ms == 1000 * q + m;
    if ms < 0 {
      if m == 0 {
        assert -ms == 1000 * (-q);
      } else {
        assert -ms == 1000 * (-q - 1) + (1000 - m);
      }
    }
  }
}
