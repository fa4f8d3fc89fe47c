/**
  `std::regex_search` and `std::regex_replace` with the default flags, over
  the two address patterns.  A search scans start positions from left to
  right and takes the first one at which the pattern's matcher succeeds.  A
  replacement repeats the search from the end of each match, so the matches
  it replaces are the leftmost ones, never overlap, and the text between
  them is kept as it is.  Neither pattern matches the empty text, so the
  scan always moves forward.
 */
module Search {
  import opened Text
  import Ip4
  import Ip6

  datatype Pattern = IPv4 | IPv6

  /** The pattern's matcher at one start position; the end of the match. */
  function MatchAt(pat: Pattern, s: string, p: nat): (r: Option<nat>)
    requires p <= |s|
    ensures r.Some? ==> p < r.value <= |s|
  {
    match pat
    case IPv4 => Ip4.MatchAt(s, p)
    case IPv6 => Ip6.MatchAt(s, p)
  }

  /** The text of `s` from `i` up to `j` is in the pattern's language. */
  ghost predicate InLang(pat: Pattern, s: string, i: nat, j: nat) {
    match pat
    case IPv4 => Ip4.InIp4(s, i, j)
    case IPv6 => Ip6.InIp6(s, i, j)
  }

  /** What the matcher returns at `p` is a text of the language. */
  lemma MatchAtSound(pat: Pattern, s: string, p: nat)
    requires p <= |s| && MatchAt(pat, s, p).Some?
    ensures InLang(pat, s, p, MatchAt(pat, s, p).value)
  {
    match pat
    case IPv4 => Ip4.MatchAtSound(s, p);
    case IPv6 => Ip6.MatchAtExact(s, p);
  }

  /** A text of the language starting at `p` makes the matcher succeed. */
  lemma MatchAtComplete(pat: Pattern, s: string, p: nat, e: nat)
    requires p <= e <= |s| && InLang(pat, s, p, e)
    ensures MatchAt(pat, s, p).Some?
  {
    match pat
    case IPv4 => Ip4.MatchAtComplete(s, p, e);
    case IPv6 => Ip6.MatchAtExact(s, p);
  }

  // ---------------------------------------------------------------------------
  // Search

  /** The leftmost match that starts at `pos` or later, as (start, end). */
  function FindFrom(pat: Pattern, s: string, pos: nat): (r: Option<(nat, nat)>)
    requires pos <= |s|
    ensures r.Some? ==> pos <= r.value.0 < r.value.1 <= |s| && MatchAt(pat, s, r.value.0) == Some(r.value.1)
    ensures r.Some? ==> forall q :: pos <= q < r.value.0 ==> MatchAt(pat, s, q).None?
    ensures r.None? ==> forall q :: pos <= q <= |s| ==> MatchAt(pat, s, q).None?
    decreases |s| - pos
  {
    var m := MatchAt(pat, s, pos);
    if m.Some? then Some((pos, m.value))
    else if pos == |s| then None
    else FindFrom(pat, s, pos + 1)
  }

  /** `std::regex_search(s, pat)`. */
  function HasMatch(pat: Pattern, s: string): bool {
    FindFrom(pat, s, 0).Some?
  }

  /** A search succeeds exactly when some substring of `s` is in the
      pattern's language. */
  lemma HasMatchExact(pat: Pattern, s: string)
    ensures HasMatch(pat, s) <==> exists i: nat, j: nat :: i <= j <= |s| && InLang(pat, s, i, j)
  {
    if HasMatch(pat, s) {
      var (a, b) := FindFrom(pat, s, 0).value;
      MatchAtSound(pat, s, a);
      assert InLang(pat, s, a, b);
    }
    if i: nat, j: nat :| i <= j <= |s| && InLang(pat, s, i, j) {
      MatchAtComplete(pat, s, i, j);
      MatchIsFound(pat, s, 0, i);
    }
  }

  /** A match starting anywhere at or after `pos` is found. */
  lemma {:induction false} MatchIsFound(pat: Pattern, s: string, pos: nat, q: nat)
    requires pos <= q <= |s| && MatchAt(pat, s, q).Some?
    ensures FindFrom(pat, s, pos).Some? && FindFrom(pat, s, pos).value.0 <= q
    decreases q - pos
  {
    if pos < q && MatchAt(pat, s, pos).None? {
      MatchIsFound(pat, s, pos + 1, q);
    }
  }

  /** A line with `::` in it always has an `ip6` match. */
  lemma DoubleColonFound(s: string, i: nat)
    requires i + 2 <= |s| && s[i] == ':' && s[i + 1] == ':'
    ensures HasMatch(IPv6, s)
  {
    Ip6.DoubleColonMatches(s, i);
    MatchIsFound(IPv6, s, 0, i);
  }

  /** Conversely, a line none of whose `:` has a hex digit before it or a
      `:` after it has no `ip6` match. */
  lemma LoneColonsNotFound(s: string)
    requires forall k :: 0 <= k < |s| && s[k] == ':' ==>
      (k == 0 || !IsHexDigit(s[k - 1])) && (k + 1 == |s| || s[k + 1] != ':')
    ensures !HasMatch(IPv6, s)
  {
    if HasMatch(IPv6, s) {
      var a := FindFrom(IPv6, s, 0).value.0;
      Ip6.LoneColonsNoMatch(s, a);
      assert false;
    }
  }

  // ---------------------------------------------------------------------------
  // Replacement

  /** `std::regex_replace` from `pos` on: each match is replaced by `r` and
      the search resumes at its end. */
  function ReplaceFrom(pat: Pattern, s: string, pos: nat, r: string): string
    requires pos <= |s|
    decreases |s| - pos
  {
    match FindFrom(pat, s, pos)
    case None => s[pos..]
    case Some((a, b)) => s[pos..a] + r + ReplaceFrom(pat, s, b, r)
  }

  /** `std::regex_replace(s, pat, r)`. */
  function ReplaceAll(pat: Pattern, s: string, r: string): string {
    ReplaceFrom(pat, s, 0, r)
  }

  /** The spans (start, end) a replacement from `pos` replaces, in order. */
  function Spans(pat: Pattern, s: string, pos: nat): seq<(nat, nat)>
    requires pos <= |s|
    decreases |s| - pos
  {
    match FindFrom(pat, s, pos)
    case None => []
    case Some((a, b)) => [(a, b)] + Spans(pat, s, b)
  }

  /** Where the text before span `k` of `sp` begins. */
  function GapStart(sp: seq<(nat, nat)>, pos: nat, k: nat): nat
    requires k <= |sp|
  {
    if k == 0 then pos else sp[k - 1].1
  }

  /** The spans of `sp` lie in order from `pos` up to `n`, each non-empty
      and starting at or after the end of the one before. */
  predicate Ordered(sp: seq<(nat, nat)>, pos: nat, n: nat) {
    forall k {:trigger GapStart(sp, pos, k)} :: 0 <= k < |sp| ==> GapStart(sp, pos, k) <= sp[k].0 < sp[k].1 <= n
  }

  /** No match starts from `lo` up to (not including) `hi`. */
  predicate NoMatchIn(pat: Pattern, s: string, lo: nat, hi: nat) {
    forall q :: lo <= q < hi && q <= |s| ==> MatchAt(pat, s, q).None?
  }

  /** Each span of `sp` is what the matcher returns at its start. */
  predicate SpansMatch(pat: Pattern, s: string, sp: seq<(nat, nat)>) {
    forall k :: 0 <= k < |sp| ==> sp[k].0 <= |s| && MatchAt(pat, s, sp[k].0) == Some(sp[k].1)
  }

  /** No match starts in the text before a span of `sp`. */
  predicate GapsClear(pat: Pattern, s: string, pos: nat, sp: seq<(nat, nat)>) {
    forall k {:trigger GapStart(sp, pos, k)} :: 0 <= k < |sp| ==> NoMatchIn(pat, s, GapStart(sp, pos, k), sp[k].0)
  }

  /** `sp` is a left-to-right scan of `s` from `pos`: each span is what the
      matcher returns at its start, no match starts in the text before a
      span, and none starts after the last. */
  predicate IsScan(pat: Pattern, s: string, pos: nat, sp: seq<(nat, nat)>) {
    pos <= |s| && Ordered(sp, pos, |s|) && SpansMatch(pat, s, sp) && GapsClear(pat, s, pos, sp)
    && NoMatchIn(pat, s, GapStart(sp, pos, |sp|), |s| + 1)
  }

  /** The text of `s` from `pos` with each span of `sp` replaced by `r` and
      everything between the spans kept. */
  function Splice(s: string, pos: nat, sp: seq<(nat, nat)>, r: string): string
    requires pos <= |s| && Ordered(sp, pos, |s|)
    decreases |sp|
  {
    if sp == [] then s[pos..]
    else
      assert GapStart(sp, pos, 0) <= sp[0].0;
      OrderedTail(sp, pos, |s|);
      s[pos..sp[0].0] + r + Splice(s, sp[0].1, sp[1..], r)
  }

  lemma OrderedTail(sp: seq<(nat, nat)>, pos: nat, n: nat)
    requires sp != [] && Ordered(sp, pos, n)
    ensures Ordered(sp[1..], sp[0].1, n)
  {
    forall k | 0 <= k < |sp| - 1 ensures GapStart(sp[1..], sp[0].1, k) <= sp[1..][k].0 < sp[1..][k].1 <= n {
      assert GapStart(sp[1..], sp[0].1, k) == GapStart(sp, pos, k + 1);
    }
  }

  lemma SpansMatchTail(pat: Pattern, s: string, sp: seq<(nat, nat)>)
    requires sp != [] && SpansMatch(pat, s, sp)
    ensures SpansMatch(pat, s, sp[1..])
  {
    forall k | 0 <= k < |sp| - 1 ensures sp[1..][k] == sp[k + 1] {
    }
  }

  lemma GapsClearTail(pat: Pattern, s: string, pos: nat, sp: seq<(nat, nat)>)
    requires sp != [] && GapsClear(pat, s, pos, sp)
    ensures GapsClear(pat, s, sp[0].1, sp[1..])
  {
    var t := sp[1..];
    forall k | 0 <= k < |t| ensures NoMatchIn(pat, s, GapStart(t, sp[0].1, k), t[k].0) {
      assert t[k] == sp[k + 1] && GapStart(t, sp[0].1, k) == GapStart(sp, pos, k + 1);
      assert NoMatchIn(pat, s, GapStart(sp, pos, k + 1), sp[k + 1].0);
    }
  }

  /** Dropping the first span of a scan leaves a scan from its end. */
  lemma ScanTail(pat: Pattern, s: string, pos: nat, sp: seq<(nat, nat)>)
    requires sp != [] && IsScan(pat, s, pos, sp)
    ensures IsScan(pat, s, sp[0].1, sp[1..])
  {
    assert GapStart(sp, pos, 0) <= sp[0].0 < sp[0].1 <= |s|;
    OrderedTail(sp, pos, |s|);
    SpansMatchTail(pat, s, sp);
    GapsClearTail(pat, s, pos, sp);
    assert GapStart(sp[1..], sp[0].1, |sp| - 1) == GapStart(sp, pos, |sp|);
  }

  lemma OrderedCons(sp: seq<(nat, nat)>, pos: nat, n: nat)
    requires sp != [] && pos <= sp[0].0 < sp[0].1 <= n && Ordered(sp[1..], sp[0].1, n)
    ensures Ordered(sp, pos, n)
  {
    forall k | 1 <= k < |sp| ensures GapStart(sp, pos, k) <= sp[k].0 < sp[k].1 <= n {
      assert sp[k] == sp[1..][k - 1] && GapStart(sp, pos, k) == GapStart(sp[1..], sp[0].1, k - 1);
    }
  }

  lemma SpansMatchCons(pat: Pattern, s: string, sp: seq<(nat, nat)>)
    requires sp != [] && sp[0].0 <= |s| && MatchAt(pat, s, sp[0].0) == Some(sp[0].1)
    requires SpansMatch(pat, s, sp[1..])
    ensures SpansMatch(pat, s, sp)
  {
    forall k | 1 <= k < |sp| ensures sp[k].0 <= |s| && MatchAt(pat, s, sp[k].0) == Some(sp[k].1) {
      assert sp[k] == sp[1..][k - 1];
    }
  }

  lemma GapsClearCons(pat: Pattern, s: string, pos: nat, sp: seq<(nat, nat)>)
    requires sp != [] && NoMatchIn(pat, s, pos, sp[0].0) && GapsClear(pat, s, sp[0].1, sp[1..])
    ensures GapsClear(pat, s, pos, sp)
  {
    forall k | 1 <= k < |sp| ensures NoMatchIn(pat, s, GapStart(sp, pos, k), sp[k].0) {
      var t := sp[1..];
      assert sp[k] == t[k - 1] && GapStart(sp, pos, k) == GapStart(t, sp[0].1, k - 1);
      assert NoMatchIn(pat, s, GapStart(t, sp[0].1, k - 1), t[k - 1].0);
    }
  }

  /** A match with no match before it, put in front of a scan from its end,
      gives a scan. */
  lemma ScanCons(pat: Pattern, s: string, pos: nat, a: nat, b: nat, t: seq<(nat, nat)>)
    requires pos <= a <= |s| && MatchAt(pat, s, a) == Some(b) && NoMatchIn(pat, s, pos, a)
    requires IsScan(pat, s, b, t)
    ensures IsScan(pat, s, pos, [(a, b)] + t)
  {
    var sp := [(a, b)] + t;
    assert sp[0] == (a, b) && sp[1..] == t;
    OrderedCons(sp, pos, |s|);
    SpansMatchCons(pat, s, sp);
    GapsClearCons(pat, s, pos, sp);
    assert GapStart(sp, pos, |sp|) == GapStart(t, b, |t|);
  }

  /** The spans a replacement replaces are a scan. */
  lemma {:induction false} SpansAreScan(pat: Pattern, s: string, pos: nat)
    requires pos <= |s|
    ensures IsScan(pat, s, pos, Spans(pat, s, pos))
    decreases |s| - pos
  {
    match FindFrom(pat, s, pos)
    case None =>
    case Some((a, b)) =>
      SpansAreScan(pat, s, b);
      ScanCons(pat, s, pos, a, b, Spans(pat, s, b));
  }

  /** The search from `pos` finds the first match after a stretch where
      none starts. */
  lemma FirstFound(pat: Pattern, s: string, pos: nat, a: nat, b: nat)
    requires pos <= a <= |s| && NoMatchIn(pat, s, pos, a) && MatchAt(pat, s, a) == Some(b)
    ensures FindFrom(pat, s, pos) == Some((a, b))
  {
    MatchIsFound(pat, s, pos, a);
    var c := FindFrom(pat, s, pos).value.0;
    assert MatchAt(pat, s, c).Some?;
  }

  /** The search from `pos` fails when no match starts there or later. */
  lemma NoneFound(pat: Pattern, s: string, pos: nat)
    requires pos <= |s| && NoMatchIn(pat, s, pos, |s| + 1)
    ensures FindFrom(pat, s, pos).None?
  {
  }

  /** There is only one scan: the spans are determined by the text. */
  lemma {:induction false} ScanUnique(pat: Pattern, s: string, pos: nat, sp: seq<(nat, nat)>)
    requires IsScan(pat, s, pos, sp)
    ensures sp == Spans(pat, s, pos)
    decreases |sp|
  {
    if sp == [] {
      assert GapStart(sp, pos, 0) == pos;
      NoneFound(pat, s, pos);
    } else {
      var (a, b) := sp[0];
      assert pos <= a <= |s| && NoMatchIn(pat, s, pos, a) && MatchAt(pat, s, a) == Some(b) by {
        assert GapStart(sp, pos, 0) <= sp[0].0 < sp[0].1 <= |s|;
        assert NoMatchIn(pat, s, GapStart(sp, pos, 0), sp[0].0);
      }
      FirstFound(pat, s, pos, a, b);
      ScanTail(pat, s, pos, sp);
      ScanUnique(pat, s, b, sp[1..]);
      assert sp == [(a, b)] + sp[1..];
    }
  }

  /** Replacing is splicing `r` into the spans of the scan. */
  lemma {:induction false} ReplaceIsSplice(pat: Pattern, s: string, pos: nat, r: string)
    requires pos <= |s|
    ensures Ordered(Spans(pat, s, pos), pos, |s|)
    ensures ReplaceFrom(pat, s, pos, r) == Splice(s, pos, Spans(pat, s, pos), r)
    decreases |s| - pos
  {
    SpansAreScan(pat, s, pos);
    match FindFrom(pat, s, pos)
    case None =>
    case Some((a, b)) =>
      ReplaceIsSplice(pat, s, b, r);
      var sp := Spans(pat, s, pos);
      assert sp[0] == (a, b) && sp[1..] == Spans(pat, s, b);
  }

  /** `std::regex_replace` replaces by `r` exactly the spans of the one
      left-to-right scan of `s`, each a text of the pattern's language, and
      keeps the text between them. */
  lemma ReplaceAllSpec(pat: Pattern, s: string, r: string, sp: seq<(nat, nat)>)
    requires IsScan(pat, s, 0, sp)
    ensures ReplaceAll(pat, s, r) == Splice(s, 0, sp, r)
    ensures forall k :: 0 <= k < |sp| ==> InLang(pat, s, sp[k].0, sp[k].1)
  {
    ScanUnique(pat, s, 0, sp);
    ReplaceIsSplice(pat, s, 0, r);
    forall k | 0 <= k < |sp| ensures InLang(pat, s, sp[k].0, sp[k].1) {
      MatchAtSound(pat, s, sp[k].0);
    }
  }

  /** Without a match the text comes back unchanged. */
  lemma NoMatchUnchanged(pat: Pattern, s: string, r: string)
    requires !HasMatch(pat, s)
    ensures ReplaceAll(pat, s, r) == s
  {
    assert s[0..] == s;
  }

  /** The first match is replaced by `r`, the text before it kept. */
  lemma FirstReplaced(pat: Pattern, s: string, r: string)
    requires HasMatch(pat, s)
    ensures var a := FindFrom(pat, s, 0).value.0;
      ReplaceAll(pat, s, r)[..a] == s[..a] && ReplaceAll(pat, s, r)[a..a + |r|] == r
  {
    var (a, b) := FindFrom(pat, s, 0).value;
    var out := ReplaceAll(pat, s, r);
    assert out == s[0..a] + r + ReplaceFrom(pat, s, b, r);
    assert out[..a] == s[0..a];
    assert out[a..a + |r|] == r;
  }

  lemma TokenAt(t: string, a: nat, r: string, i: nat)
    requires a + |r| <= |t| && t[a..a + |r|] == r && i + 2 <= |r|
    ensures a + i + 2 <= |t| && t[a + i] == r[i] && t[a + i + 1] == r[i + 1]
  {
    assert t[a..a + |r|][i] == t[a + i] && t[a..a + |r|][i + 1] == t[a + i + 1];
  }

  /** Position `q` lies inside one of the spans of `sp`. */
  predicate Covered(sp: seq<(nat, nat)>, q: nat) {
    exists k :: 0 <= k < |sp| && sp[k].0 <= q < sp[k].1
  }

  /** Every position where a match starts lies inside a span the
      replacement replaces. */
  lemma {:induction false} MatchCovered(pat: Pattern, s: string, pos: nat, q: nat)
    requires pos <= q <= |s| && MatchAt(pat, s, q).Some?
    ensures Covered(Spans(pat, s, pos), q)
    decreases |s| - pos
  {
    MatchIsFound(pat, s, pos, q);
    var (a, b) := FindFrom(pat, s, pos).value;
    var sp := Spans(pat, s, pos);
    assert sp == [(a, b)] + Spans(pat, s, b);
    if q < b {
      assert 0 < |sp| && sp[0].0 <= q < sp[0].1;
    } else {
      MatchCovered(pat, s, b, q);
      var t := Spans(pat, s, b);
      var k :| 0 <= k < |t| && t[k].0 <= q < t[k].1;
      assert sp[k + 1] == t[k];
    }
  }

  /** The `ip6` pass can see its way into the tokens of the `ip4` pass: a
      replacement with `::` in it becomes an `ip6` match once it replaces an
      IPv4 address, and the `ip6` pass replaces a span covering that `::`. */
  lemma TokenExposure(s: string, r: string, i: nat)
    requires HasMatch(IPv4, s) && i + 2 <= |r| && r[i] == ':' && r[i + 1] == ':'
    ensures HasMatch(IPv6, ReplaceAll(IPv4, s, r))
    ensures Covered(Spans(IPv6, ReplaceAll(IPv4, s, r), 0), FindFrom(IPv4, s, 0).value.0 + i)
  {
    var a := FindFrom(IPv4, s, 0).value.0;
    var out := ReplaceAll(IPv4, s, r);
    assert a + i + 2 <= |out| && out[a + i] == ':' && out[a + i + 1] == ':' by {
      FirstReplaced(IPv4, s, r);
      TokenAt(out, a, r, i);
    }
    DoubleColonFound(out, a + i);
    Ip6.DoubleColonMatches(out, a + i);
    MatchCovered(IPv6, out, 0, a + i);
  }
}
