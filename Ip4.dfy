/**
  The `ip4` pattern of LogSanitizer:

    ((OCT)\.){3,3}(OCT)   with   OCT = 25[0-5]|(2[0-4]|1{0,1}[0-9]){0,1}[0-9]

  `Dotted`/`InIp4` give its language; `MatchAt` is the ECMAScript matcher run
  at one start position, written as the backtracking search the regex engine
  performs: the octet alternatives are tried longest first (the three-digit
  forms, then `[0-9][0-9]`, then `[0-9]`), and after a failure further on the
  engine comes back and tries the next shorter octet.
 */
module Ip4 {
  import opened Text

  /** The octet sub-pattern: one digit, any two digits, `1` and two digits,
      `2[0-4]` and a digit, or `25[0-5]`.  A leading zero is accepted in the
      two-digit form (`05`), not in the three-digit form. */
  predicate IsOctet(t: string) {
    (|t| == 1 && IsDigit(t[0]))
    || (|t| == 2 && IsDigit(t[0]) && IsDigit(t[1]))
    || (|t| == 3 && IsDigit(t[2]) &&
        ((t[0] == '1' && IsDigit(t[1]))
         || (t[0] == '2' && '0' <= t[1] <= '4')
         || (t[0] == '2' && t[1] == '5' && t[2] <= '5')))
  }

  /** The text of `s` from `i` up to `j` is an octet. */
  predicate OctetAt(s: string, i: nat, j: nat) {
    i <= j <= |s| && IsOctet(s[i..j])
  }

  /** The text of `s` from `i` up to `j` is in `(OCT\.){n}OCT`. */
  ghost predicate Dotted(s: string, i: nat, j: nat, n: nat)
    decreases n, 1
  {
    if n == 0 then OctetAt(s, i, j) else exists m :: DottedStep(s, i, m, j, n)
  }

  /** `(OCT\.){n}OCT` from `i` up to `j`, its first octet and dot ending at `m`. */
  ghost predicate DottedStep(s: string, i: nat, m: nat, j: nat, n: nat)
    decreases n, 0
  {
    0 < n && i + 2 <= m <= i + 4 && m <= j <= |s| && OctetAt(s, i, m - 1) && s[m - 1] == '.' && Dotted(s, m, j, n - 1)
  }

  /** The language of `ip4`, four octets joined by dots, as the text of `s`
      from `i` up to `j`. */
  ghost predicate InIp4(s: string, i: nat, j: nat) {
    Dotted(s, i, j, 3)
  }

  // ---------------------------------------------------------------------------
  // The matcher

  /** The final octet, with nothing after it in the pattern: the first width,
      trying `w`, `w - 1`, ..., 1, whose text is an octet. */
  function LastOctet(s: string, p: nat, w: nat): (r: Option<nat>)
    requires p <= |s| && w <= 3
    ensures r.Some? ==> p < r.value <= p + w && OctetAt(s, p, r.value)
    decreases w
  {
    if w == 0 then None
    else if OctetAt(s, p, p + w) then Some(p + w)
    else LastOctet(s, p, w - 1)
  }

  /** Matches `(OCT\.){n}OCT` at `p`; the result is the end of the match. */
  function MatchDotted(s: string, p: nat, n: nat): (r: Option<nat>)
    requires p <= |s|
    ensures r.Some? ==> p < r.value <= |s|
    decreases |s| - p, n, 4
  {
    if n == 0 then LastOctet(s, p, 3) else TryOctet(s, p, 3, n)
  }

  /** One octet followed by `.`, width `w` first, then the rest of the
      pattern; on failure the next shorter width. */
  function TryOctet(s: string, p: nat, w: nat, n: nat): (r: Option<nat>)
    requires p <= |s| && w <= 3 && 0 < n
    ensures r.Some? ==> p < r.value <= |s|
    decreases |s| - p, n, w
  {
    if w == 0 then None
    else if p + w < |s| && OctetAt(s, p, p + w) && s[p + w] == '.' then
      var r := MatchDotted(s, p + w + 1, n - 1);
      if r.Some? then r else TryOctet(s, p, w - 1, n)
    else TryOctet(s, p, w - 1, n)
  }

  /** The `ip4` pattern run at start position `p`. */
  function MatchAt(s: string, p: nat): (r: Option<nat>)
    requires p <= |s|
    ensures r.Some? ==> p < r.value <= |s|
  {
    MatchDotted(s, p, 3)
  }

  // ---------------------------------------------------------------------------
  // The matcher finds exactly the language

  lemma {:induction false} LastOctetComplete(s: string, p: nat, v: nat, w: nat)
    requires 1 <= w <= v <= 3 && OctetAt(s, p, p + w)
    ensures LastOctet(s, p, v).Some?
    decreases v
  {
    if v != w {
      LastOctetComplete(s, p, v - 1, w);
    }
  }

  lemma {:induction false} TryOctetComplete(s: string, p: nat, v: nat, w: nat, n: nat)
    requires 1 <= w <= v <= 3 && 0 < n
    requires p + w < |s| && OctetAt(s, p, p + w) && s[p + w] == '.'
    requires MatchDotted(s, p + w + 1, n - 1).Some?
    ensures TryOctet(s, p, v, n).Some?
    decreases v
  {
    if v != w {
      TryOctetComplete(s, p, v - 1, w, n);
    }
  }

  /** Whenever some text in the language starts at `p`, the matcher succeeds. */
  lemma {:induction false} MatchDottedComplete(s: string, p: nat, e: nat, n: nat)
    requires p <= e <= |s| && Dotted(s, p, e, n)
    ensures MatchDotted(s, p, n).Some?
    decreases n
  {
    if n == 0 {
      LastOctetComplete(s, p, 3, e - p);
    } else {
      var m: nat :| DottedStep(s, p, m, e, n);
      MatchDottedComplete(s, m, e, n - 1);
      TryOctetComplete(s, p, 3, m - 1 - p, n);
    }
  }

  /** Whatever the matcher returns is in the language. */
  lemma {:induction false} MatchDottedSound(s: string, p: nat, n: nat)
    requires p <= |s| && MatchDotted(s, p, n).Some?
    ensures Dotted(s, p, MatchDotted(s, p, n).value, n)
    decreases |s| - p, n, 4
  {
    if n != 0 {
      TryOctetSound(s, p, 3, n);
    }
  }

  lemma {:induction false} TryOctetSound(s: string, p: nat, w: nat, n: nat)
    requires p <= |s| && w <= 3 && 0 < n && TryOctet(s, p, w, n).Some?
    ensures Dotted(s, p, TryOctet(s, p, w, n).value, n)
    decreases |s| - p, n, w
  {
    if p + w < |s| && OctetAt(s, p, p + w) && s[p + w] == '.' && MatchDotted(s, p + w + 1, n - 1).Some? {
      MatchDottedSound(s, p + w + 1, n - 1);
      assert DottedStep(s, p, p + w + 1, TryOctet(s, p, w, n).value, n);
    } else {
      TryOctetSound(s, p, w - 1, n);
    }
  }

  /** Text of the language at `p` makes `MatchAt` succeed. */
  lemma MatchAtComplete(s: string, p: nat, e: nat)
    requires p <= e <= |s| && InIp4(s, p, e)
    ensures MatchAt(s, p).Some?
  {
    MatchDottedComplete(s, p, e, 3);
  }

  /** What `MatchAt` returns is in the language. */
  lemma MatchAtSound(s: string, p: nat)
    requires p <= |s| && MatchAt(s, p).Some?
    ensures InIp4(s, p, MatchAt(s, p).value)
  {
    MatchDottedSound(s, p, 3);
  }

  /** `MatchAt` succeeds at `p` exactly when some text in the `ip4` language
      starts at `p`, and what it returns is such a text. */
  lemma MatchAtExact(s: string, p: nat)
    requires p <= |s|
    ensures MatchAt(s, p).Some? ==> InIp4(s, p, MatchAt(s, p).value)
    ensures MatchAt(s, p).Some? <==> exists e :: p <= e <= |s| && InIp4(s, p, e)
  {
    if MatchAt(s, p).Some? {
      MatchAtSound(s, p);
    }
    if e :| p <= e <= |s| && InIp4(s, p, e) {
      MatchAtComplete(s, p, e);
    }
  }

  /** The final octet is the longest of the widths up to `v` whose text is
      an octet. */
  lemma {:induction false} LastOctetLongest(s: string, p: nat, v: nat, w: nat)
    requires 1 <= w <= v <= 3 && OctetAt(s, p, p + w)
    ensures LastOctet(s, p, v).Some? && p + w <= LastOctet(s, p, v).value
    decreases v
  {
    if !OctetAt(s, p, p + v) {
      LastOctetLongest(s, p, v - 1, w);
    }
  }

  /** The matcher returns the longest text of `(OCT\.){n}OCT` at `p`. */
  lemma {:induction false} DottedLongest(s: string, p: nat, e: nat, n: nat)
    requires p <= e <= |s| && Dotted(s, p, e, n)
    ensures MatchDotted(s, p, n).Some? && e <= MatchDotted(s, p, n).value
    decreases n
  {
    if n == 0 {
      LastOctetLongest(s, p, 3, e - p);
    } else {
      var m: nat :| DottedStep(s, p, m, e, n);
      OctetThenDot(s, p, m - 1 - p, n);
      DottedLongest(s, m, e, n - 1);
    }
  }

  /** No text of the `ip4` language at `p` reaches past the match, so with
      `MatchAtExact` the match is the longest such text: a replacement
      replaces the whole of the longest address starting there. */
  lemma MatchAtLongest(s: string, p: nat, e: nat)
    requires p <= e <= |s| && InIp4(s, p, e)
    ensures MatchAt(s, p).Some? && e <= MatchAt(s, p).value
  {
    DottedLongest(s, p, e, 3);
  }

  /** Only the full run of digits before a `.` can be the octet: a longer
      width takes in the `.` and a shorter one is followed by a digit. */
  lemma {:induction false} OneOctetAt(s: string, p: nat, n: nat, w: nat, d: nat)
    requires 1 <= n <= 3 && p + n < |s| && OctetAt(s, p, p + n) && s[p + n] == '.' && w <= 3 && 0 < d
    ensures TryOctet(s, p, w, d) == if n <= w then MatchDotted(s, p + n + 1, d - 1) else None
    decreases w
  {
    if w == 0 {
    } else if w > n {
      if p + w <= |s| {
        assert s[p..p + w][n] == '.';
      }
      OneOctetAt(s, p, n, w - 1, d);
    } else if w < n {
      assert s[p..p + n][w] == s[p + w];
      OneOctetAt(s, p, n, w - 1, d);
    } else {
      OneOctetAt(s, p, n, w - 1, d);
    }
  }

  /** An octet of `n` characters and a `.` at `p`: the match goes on after
      them, and fails if the rest fails. */
  lemma OctetThenDot(s: string, p: nat, n: nat, d: nat)
    requires 1 <= n <= 3 && p + n < |s| && OctetAt(s, p, p + n) && s[p + n] == '.' && 0 < d
    ensures MatchDotted(s, p, d) == MatchDotted(s, p + n + 1, d - 1)
  {
    OneOctetAt(s, p, n, 3, d);
  }

  /** Every octet starts with a digit, so no match starts anywhere else. */
  lemma NonDigitNoMatch(s: string, p: nat, n: nat)
    requires p < |s| && !IsDigit(s[p])
    ensures MatchDotted(s, p, n).None?
  {
    forall w | p < w <= |s| ensures !OctetAt(s, p, w) {
      assert s[p..w][0] == s[p];
    }
    if n != 0 {
      NonDigitNoOctet(s, p, 3, n);
    }
  }

  lemma {:induction false} NonDigitNoOctet(s: string, p: nat, w: nat, n: nat)
    requires p < |s| && w <= 3 && 0 < n && forall v :: p < v <= |s| ==> !OctetAt(s, p, v)
    ensures TryOctet(s, p, w, n).None?
    decreases w
  {
    if w != 0 {
      NonDigitNoOctet(s, p, w - 1, n);
    }
  }

  /** `(OCT\.){n}OCT` takes at least `2n + 1` characters. */
  lemma {:induction false} TooShort(s: string, p: nat, n: nat)
    requires p <= |s| < p + 2 * n + 1
    ensures MatchDotted(s, p, n).None?
    decreases n, 4
  {
    if n != 0 {
      TooShortOctet(s, p, 3, n);
    }
  }

  lemma {:induction false} TooShortOctet(s: string, p: nat, w: nat, n: nat)
    requires p <= |s| < p + 2 * n + 1 && w <= 3 && 0 < n
    ensures TryOctet(s, p, w, n).None?
    decreases n, w
  {
    if w != 0 {
      if p + w < |s| {
        TooShort(s, p + w + 1, n - 1);
      }
      TooShortOctet(s, p, w - 1, n);
    }
  }

  // ---------------------------------------------------------------------------
  // Octet values

  function DigitValue(c: char): nat
    requires IsDigit(c)
  {
    c as int - '0' as int
  }

  /** The decimal number a string of digits denotes. */
  function DecimalValue(t: string): nat
    requires AllDigits(t)
    decreases |t|
  {
    if |t| == 0 then 0 else 10 * DecimalValue(t[..|t| - 1]) + DigitValue(t[|t| - 1])
  }

  /** The canonical decimal text of `n`, without leading zeros. */
  function DecimalText(n: nat): (t: string)
    ensures 1 <= |t| && AllDigits(t)
  {
    var d := [('0' as int + n % 10) as char];
    if n < 10 then d else DecimalText(n / 10) + d
  }

  /** Every octet denotes a value in 0..255. */
  lemma OctetValueInRange(t: string)
    requires IsOctet(t)
    ensures AllDigits(t) && DecimalValue(t) <= 255
  {
    assert t[..|t|][..0] == [];
    if |t| >= 2 {
      var t1 := t[..|t| - 1];
      assert t1[..|t1| - 1][..0] == [];
      assert DecimalValue(t1) == 10 * DecimalValue(t1[..|t1| - 1]) + DigitValue(t1[|t1| - 1]);
      if |t| == 3 {
        var t2 := t1[..1];
        assert t2[..0] == [];
        assert DecimalValue(t2) == DigitValue(t[0]);
        assert DecimalValue(t1) == 10 * DigitValue(t[0]) + DigitValue(t[1]);
      }
    }
  }

  /** Conversely, the canonical text of every value in 0..255 is an octet
      and denotes that value. */
  lemma EveryByteHasOctet(n: nat)
    requires n <= 255
    ensures IsOctet(DecimalText(n)) && DecimalValue(DecimalText(n)) == n
  {
    var t := DecimalText(n);
    if n < 10 {
      assert t[..0] == [];
    } else if n < 100 {
      var t1 := DecimalText(n / 10);
      assert t1[..0] == [];
      assert t[..1] == t1;
      assert DecimalValue(t1) == n / 10;
    } else {
      var t1 := DecimalText(n / 10);
      var t2 := DecimalText(n / 100);
      assert n / 10 / 10 == n / 100;
      assert t2[..0] == [];
      assert t1[..1] == t2;
      assert DecimalValue(t2) == n / 100;
      assert DecimalValue(t1) == n / 10;
      assert t[..2] == t1;
    }
  }
}
