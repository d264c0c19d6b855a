/** The pieces of Python's string handling that the transcript routines use:
    `sep.join(parts)`, `str.strip()`, `str(n)` and the `{n:0w}` format spec
    for integers. */
module Strings {
  import opened Wrappers

  /** `sep.join(parts)`. Defined from the back, the way an accumulator that
      appends `sep + part` builds it. */
  function Join(parts: seq<string>, sep: string): string
    decreases |parts|
  {
    if |parts| == 0 then ""
    else if |parts| == 1 then parts[0]
    else Join(parts[..|parts| - 1], sep) + sep + parts[|parts| - 1]
  }

  /** Joining two non-empty runs of parts puts exactly one separator between
      the two joined runs. */
  lemma {:induction false} JoinAppend(a: seq<string>, b: seq<string>, sep: string)
    requires |a| > 0 && |b| > 0
    ensures Join(a + b, sep) == Join(a, sep) + sep + Join(b, sep)
    decreases |b|
  {
    if |b| == 1 {
      assert (a + b)[..|a + b| - 1] == a;
    } else {
      var b' := b[..|b| - 1];
      assert (a + b)[..|a + b| - 1] == a + b';
      JoinAppend(a, b', sep);
    }
  }

  /** Python's `str.isspace()` for one character: the ASCII whitespace and
      separator controls (U+0009..U+000D, U+001C..U+0020) and the Unicode
      space characters. */
  predicate IsSpace(c: char)
  {
    ('\t' <= c <= '\r') || ('\U{1C}' <= c <= ' ') || c == '\U{85}' || c == '\U{A0}'
    || c == '\U{1680}' || ('\U{2000}' <= c <= '\U{200A}') || c == '\U{2028}'
    || c == '\U{2029}' || c == '\U{202F}' || c == '\U{205F}' || c == '\U{3000}'
  }

  /** The number of whitespace characters `s` starts with. */
  function LeadingSpaces(s: string): (n: nat)
    ensures n <= |s|
    ensures forall k :: 0 <= k < n ==> IsSpace(s[k])
    ensures n < |s| ==> !IsSpace(s[n])
    decreases |s|
  {
    if |s| > 0 && IsSpace(s[0]) then 1 + LeadingSpaces(s[1..]) else 0
  }

  /** The number of whitespace characters `s` ends with. */
  function TrailingSpaces(s: string): (n: nat)
    ensures n <= |s|
    ensures forall k :: |s| - n <= k < |s| ==> IsSpace(s[k])
    ensures n < |s| ==> !IsSpace(s[|s| - n - 1])
    decreases |s|
  {
    if |s| > 0 && IsSpace(s[|s| - 1]) then 1 + TrailingSpaces(s[..|s| - 1]) else 0
  }

  /** `s.strip()`: whitespace is removed from the front, then from the back.
      The result neither starts nor ends with whitespace, and a string that
      already does neither is left as it is; `StripTrims` and `TrimIsStrip`
      show that it is the one such run of `s` between whitespace. */
  function Strip(s: string): (r: string)
    ensures |r| <= |s|
    ensures r != [] ==> !IsSpace(r[0]) && !IsSpace(r[|r| - 1])
    ensures (s == [] || (!IsSpace(s[0]) && !IsSpace(s[|s| - 1]))) ==> r == s
  {
    var front := s[LeadingSpaces(s)..];
    front[..|front| - TrailingSpaces(front)]
  }

  /** `r` is the part of `s` from `p` on that is left once whitespace before
      `p` and whitespace after `r` are cut away. */
  ghost predicate Trims(s: string, r: string, p: int)
  {
    && 0 <= p && p + |r| <= |s| && r == s[p..p + |r|]
    && (forall k :: 0 <= k < p ==> IsSpace(s[k]))
    && (forall k :: p + |r| <= k < |s| ==> IsSpace(s[k]))
  }

  /** Strip cuts only whitespace, and only at the two ends. */
  lemma StripTrims(s: string)
    ensures Trims(s, Strip(s), LeadingSpaces(s))
  {
    var p := LeadingSpaces(s);
    var front := s[p..];
    var r := front[..|front| - TrailingSpaces(front)];
    assert Strip(s) == r;
    assert r == s[p..p + |r|];
    forall k | p + |r| <= k < |s|
      ensures IsSpace(s[k])
    {
      assert s[k] == front[k - p];
    }
  }

  /** Any cut of whitespace from the two ends that leaves no whitespace at
      either end is what Strip returns: the result of `str.strip()` is
      determined by these two properties. */
  lemma TrimIsStrip(s: string, r: string, p: int)
    requires Trims(s, r, p)
    requires r != [] ==> !IsSpace(r[0]) && !IsSpace(r[|r| - 1])
    ensures r == Strip(s)
  {
    var r', p' := Strip(s), LeadingSpaces(s);
    StripTrims(s);
    assert r != [] ==> s[p] == r[0] && s[p + |r| - 1] == r[|r| - 1];
    assert r' != [] ==> s[p'] == r'[0] && s[p' + |r'| - 1] == r'[|r'| - 1];
    if r != [] && r' != [] {
      assert p == p';
      assert |r| == |r'|;
    }
  }

  /** Stripping twice is stripping once. */
  lemma StripIdempotent(s: string)
    ensures Strip(Strip(s)) == Strip(s)
  {
  }

  /** `str(d)` for one decimal digit. */
  function DigitChar(d: nat): (c: char)
    requires d < 10
    ensures '0' <= c <= '9' && c as int - '0' as int == d
  {
    "0123456789"[d]
  }

  /** `str(n)` for a non-negative integer: its decimal digits, most
      significant first, with no leading zero. */
  function Digits(n: nat): (r: string)
    ensures 1 <= |r|
    ensures forall k :: 0 <= k < |r| ==> '0' <= r[k] <= '9'
    ensures n < 10 <==> |r| == 1
    ensures r[0] == '0' ==> n == 0
    decreases n
  {
    if n < 10 then [DigitChar(n)] else Digits(n / 10) + [DigitChar(n % 10)]
  }

  /** The value of a string of decimal digits; the inverse of Digits. */
  function DecValue(s: string): nat
    decreases |s|
  {
    if s == [] then 0
    else
      var c := s[|s| - 1];
      var d := if '0' <= c <= '9' then c as int - '0' as int else 0;
      DecValue(s[..|s| - 1]) * 10 + d
  }

  predicate AllDigits(s: string)
  {
    forall k :: 0 <= k < |s| ==> '0' <= s[k] <= '9'
  }

  /** `int(s)` for a string of decimal digits: the value, or None when a
      character is not a digit. */
  function Decimal(s: string): Option<nat>
    decreases |s|
  {
    if s == [] then Some(0)
    else
      var c := s[|s| - 1];
      match Decimal(s[..|s| - 1])
      case None => None
      case Some(v) => if '0' <= c <= '9' then Some(v * 10 + (c as int - '0' as int)) else None
  }

  /** A digit string reads as its decimal value. */
  lemma {:induction false} DecimalOfDigits(s: string)
    requires AllDigits(s)
    ensures Decimal(s) == Some(DecValue(s))
    decreases |s|
  {
    if s != [] {
      DecimalOfDigits(s[..|s| - 1]);
    }
  }

  /** Reading back what Digits wrote gives the number. */
  lemma {:induction false} DecValueDigits(n: nat)
    ensures DecValue(Digits(n)) == n
    decreases n
  {
    if n >= 10 {
      var d := Digits(n / 10) + [DigitChar(n % 10)];
      assert d[..|d| - 1] == Digits(n / 10);
      DecValueDigits(n / 10);
    }
  }

  /** Leading zeros do not change a decimal value. */
  lemma {:induction false} DecValueLeadingZeros(k: nat, s: string)
    ensures DecValue(Zeros(k) + s) == DecValue(s)
    decreases |s|
  {
    if s == [] {
      assert Zeros(k) + s == Zeros(k);
      ZerosValue(k);
    } else {
      var t := Zeros(k) + s;
      assert t[..|t| - 1] == Zeros(k) + s[..|s| - 1];
      DecValueLeadingZeros(k, s[..|s| - 1]);
    }
  }

  lemma {:induction false} ZerosValue(k: nat)
    ensures DecValue(Zeros(k)) == 0
    decreases k
  {
    if k > 0 {
      assert Zeros(k)[..k - 1] == Zeros(k - 1);
      ZerosValue(k - 1);
    }
  }

  function Zeros(k: nat): (r: string)
    ensures |r| == k && forall i :: 0 <= i < k ==> r[i] == '0'
  {
    seq(k, _ => '0')
  }

  /** Left-pads a digit string with '0' up to width `w`; a longer string is
      kept whole. */
  function ZeroPad(d: string, w: nat): (r: string)
    ensures |r| == if |d| < w then w else |d|
    ensures AllDigits(d) ==> AllDigits(r) && DecValue(r) == DecValue(d)
  {
    if |d| < w then
      DecValueLeadingZeros(w - |d|, d);
      Zeros(w - |d|) + d
    else d
  }

  /** Python's `f"{n:0w}"` for an integer: sign-aware zero padding to a total
      width of `w`, so a negative number keeps its '-' in front of the
      padded digits. */
  function PadInt(n: int, w: nat): string
  {
    if n < 0 then "-" + ZeroPad(Digits(-n), if w > 0 then w - 1 else 0)
    else ZeroPad(Digits(n), w)
  }

  /** A non-negative number pads to at least `w` decimal digits that read
      back as the number. */
  lemma PadIntNonNegative(n: int, w: nat)
    requires 0 <= n
    ensures AllDigits(PadInt(n, w)) && DecValue(PadInt(n, w)) == n && |PadInt(n, w)| >= w
  {
    DecValueDigits(n);
  }

  /** A padded non-negative number reads back as itself. */
  lemma PadIntDecimal(n: int, w: nat)
    requires 0 <= n
    ensures Decimal(PadInt(n, w)) == Some(n)
  {
    PadIntNonNegative(n, w);
    DecimalOfDigits(PadInt(n, w));
  }

  /** A negative number keeps its sign in front and still fills the width,
      and after the sign comes `-n` padded to one place less, which
      `PadIntNonNegative` and `PadIntDecimal` describe: its digits read back
      as `-n`. */
  lemma PadIntNegative(n: int, w: nat)
    requires n < 0
    ensures PadInt(n, w)[0] == '-' && |PadInt(n, w)| >= w
    ensures PadInt(n, w)[1..] == PadInt(-n, if w > 0 then w - 1 else 0)
  {
    var x := PadInt(-n, if w > 0 then w - 1 else 0);
    assert PadInt(n, w) == "-" + x;
  }

  /** A number below 10^w prints in exactly `w` characters. */
  lemma PadIntWidth(n: nat, w: nat)
    requires (w == 2 && n < 100) || (w == 3 && n < 1000)
    ensures |PadInt(n, w)| == w
  {
    if n >= 10 {
      assert |Digits(n / 10)| == 1 || n >= 100;
      if n >= 100 {
        assert n / 10 >= 10 && n / 100 < 10;
        assert |Digits(n / 10 / 10)| == 1;
      }
    }
  }
}
