/**
  The `ip6` pattern of LogSanitizer, an ordered alternation of twelve
  branches.  Writing H for `[0-9a-fA-F]{1,4}` and IPV4 for the `ip4` pattern:

     1  (H:){7,7}H
     2  (H:){1,7}:
     3  (H:){1,6}:H
     4  (H:){1,5}(:H){1,2}
     5  (H:){1,4}(:H){1,3}
     6  (H:){1,3}(:H){1,4}
     7  (H:){1,2}(:H){1,5}
     8  H:((:H){1,6})
     9  :((:H){1,7}|:)
    10  fe80:(:[0-9a-fA-F]{0,4}){0,4}%[0-9a-zA-Z]{1,}
    11  ::(ffff(:0{1,4}){0,1}:){0,1}IPV4
    12  (H:){1,4}:IPV4

  Branches 1 to 8 and 12 share one shape, "(H:){lo,hi} then a tail" (branch 3
  is the tail `(:H){1,1}`, branch 8 is `(H:){1,1}` then `(:H){1,6}`), so they
  are one constructor, `Repeat`.  `InIp6` is the language; `MatchAt` is the
  ECMAScript matcher at one start position: branches in order, the first
  that succeeds decides, and inside a branch every quantifier is greedy and
  gives back one step at a time when what follows fails.
 */
module Ip6 {
  import opened Text
  import Ip4

  // ---------------------------------------------------------------------------
  // The language.  Each predicate says that the text of `s` from `i` up to
  // `j` is in a sub-pattern; a `...Step` predicate names where the first
  // repetition of a sub-pattern ends.

  /** `[0-9a-fA-F]{1,4}` */
  predicate HexGroupAt(s: string, i: nat, j: nat) {
    i < j <= i + 4 && AllHexIn(s, i, j)
  }

  /** `([0-9a-fA-F]{1,4}:){n}` */
  ghost predicate Units(s: string, i: nat, j: nat, n: nat)
    decreases n, 1
  {
    if n == 0 then i == j <= |s| else exists m :: UnitsStep(s, i, m, j, n)
  }

  ghost predicate UnitsStep(s: string, i: nat, m: nat, j: nat, n: nat)
    decreases n, 0
  {
    0 < n && i + 2 <= m <= i + 5 && m <= j <= |s| && AllHexIn(s, i, m - 1) && s[m - 1] == ':' && Units(s, m, j, n - 1)
  }

  /** `(:[0-9a-fA-F]{1,4}){n}` */
  ghost predicate Groups(s: string, i: nat, j: nat, n: nat)
    decreases n, 1
  {
    if n == 0 then i == j <= |s| else exists m :: GroupsStep(s, i, m, j, n)
  }

  ghost predicate GroupsStep(s: string, i: nat, m: nat, j: nat, n: nat)
    decreases n, 0
  {
    0 < n && i + 2 <= m <= i + 5 && m <= j <= |s| && s[i] == ':' && AllHexIn(s, i + 1, m) && Groups(s, m, j, n - 1)
  }

  /** `(:[0-9a-fA-F]{0,4}){n}` */
  ghost predicate ZoneGroups(s: string, i: nat, j: nat, n: nat)
    decreases n, 1
  {
    if n == 0 then i == j <= |s| else exists m :: ZoneGroupsStep(s, i, m, j, n)
  }

  ghost predicate ZoneGroupsStep(s: string, i: nat, m: nat, j: nat, n: nat)
    decreases n, 0
  {
    0 < n && i + 1 <= m <= i + 5 && m <= j <= |s| && s[i] == ':' && AllHexIn(s, i + 1, m) && ZoneGroups(s, m, j, n - 1)
  }

  /** `%[0-9a-zA-Z]{1,}` */
  predicate ZoneIdAt(s: string, i: nat, j: nat) {
    i + 2 <= j <= |s| && s[i] == '%' && AllAlnumIn(s, i + 1, j)
  }

  /** What follows the `(H:){lo,hi}` repetition in branches 1-8 and 12. */
  datatype Tail =
    | HexTail              // H
    | ColonTail            // :
    | GroupsTail(most: nat) // (:H){1,most}
    | Ip4Tail              // :IPV4

  ghost predicate InTail(s: string, i: nat, j: nat, k: Tail) {
    match k
    case HexTail => HexGroupAt(s, i, j)
    case ColonTail => i + 1 == j <= |s| && s[i] == ':'
    case GroupsTail(most) => exists n :: 1 <= n <= most && Groups(s, i, j, n)
    case Ip4Tail => i < j <= |s| && s[i] == ':' && Ip4.InIp4(s, i + 1, j)
  }

  datatype Alternative =
    | Repeat(least: nat, most: nat, tail: Tail) // (H:){least,most} tail
    | Compressed                                  // :((:H){1,7}|:)
    | LinkLocal                                   // fe80:(:[hex]{0,4}){0,4}%zone
    | Mapped                                      // ::(ffff(:0{1,4}){0,1}:){0,1}IPV4

  /** The twelve branches, in the order the pattern lists them. */
  const Alternatives: seq<Alternative> := [
    Repeat(7, 7, HexTail),
    Repeat(1, 7, ColonTail),
    Repeat(1, 6, GroupsTail(1)),
    Repeat(1, 5, GroupsTail(2)),
    Repeat(1, 4, GroupsTail(3)),
    Repeat(1, 3, GroupsTail(4)),
    Repeat(1, 2, GroupsTail(5)),
    Repeat(1, 1, GroupsTail(6)),
    Compressed,
    LinkLocal,
    Mapped,
    Repeat(1, 4, Ip4Tail)
  ]

  ghost predicate UnitsBetween(s: string, i: nat, j: nat, lo: nat, hi: nat) {
    exists n :: lo <= n <= hi && Units(s, i, j, n)
  }

  /** `(H:){lo,hi}` from `i` up to `q`, then the tail up to `j`. */
  ghost predicate RepeatAt(s: string, i: nat, q: nat, j: nat, lo: nat, hi: nat, k: Tail) {
    i <= q <= j && UnitsBetween(s, i, q, lo, hi) && InTail(s, q, j, k)
  }

  ghost predicate ZoneGroupsUpTo(s: string, i: nat, j: nat, hi: nat) {
    exists n: nat :: n <= hi && ZoneGroups(s, i, j, n)
  }

  /** `fe80:`, the groups up to `q`, then the zone id up to `j`. */
  ghost predicate LinkLocalAt(s: string, i: nat, q: nat, j: nat) {
    i + 5 <= q <= j <= |s| && s[i..i + 5] == "fe80:" && ZoneGroupsUpTo(s, i + 5, q, 4) && ZoneIdAt(s, q, j)
  }

  /** `::ffff:0{1,4}:IPV4`, the address starting at `y`. */
  ghost predicate ZeroMappedAt(s: string, i: nat, y: nat, j: nat) {
    i + 9 <= y <= i + 12 && y <= j <= |s| && s[i..i + 7] == "::ffff:" && AllZerosIn(s, i + 7, y - 1)
    && s[y - 1] == ':' && Ip4.InIp4(s, y, j)
  }

  /** `::ffff:IPV4` */
  ghost predicate FfffMappedAt(s: string, i: nat, j: nat) {
    i + 7 <= j <= |s| && s[i..i + 7] == "::ffff:" && Ip4.InIp4(s, i + 7, j)
  }

  /** `::IPV4` */
  ghost predicate PlainMappedAt(s: string, i: nat, j: nat) {
    i + 2 <= j <= |s| && s[i..i + 2] == "::" && Ip4.InIp4(s, i + 2, j)
  }

  ghost predicate InAlternative(s: string, i: nat, j: nat, a: Alternative) {
    match a
    case Repeat(lo, hi, k) => exists q :: RepeatAt(s, i, q, j, lo, hi, k)
    case Compressed =>
      i < j <= |s| && s[i] == ':' && (InTail(s, i + 1, j, GroupsTail(7)) || InTail(s, i + 1, j, ColonTail))
    case LinkLocal => exists q :: LinkLocalAt(s, i, q, j)
    case Mapped => (exists y :: ZeroMappedAt(s, i, y, j)) || FfffMappedAt(s, i, j) || PlainMappedAt(s, i, j)
  }

  /** The language of `ip6`, the union of its branches, as the text of `s`
      from `i` up to `j`. */
  ghost predicate InIp6(s: string, i: nat, j: nat) {
    exists k :: 0 <= k < |Alternatives| && InAlternative(s, i, j, Alternatives[k])
  }

  // ---------------------------------------------------------------------------
  // The matcher

  /** A final H: up to `w` hex digits, as many as there are. */
  function MatchHex(s: string, p: nat, w: nat): (r: Option<nat>)
    requires p <= |s| && w <= 4
    ensures r.Some? ==> p < r.value <= |s| && HexGroupAt(s, p, r.value)
    decreases w
  {
    if w == 0 then None
    else if AllHexIn(s, p, p + w) then Some(p + w)
    else MatchHex(s, p, w - 1)
  }

  /** `(:H){1,hi}` at the end of a branch, `c` groups already matched. */
  function MatchGroups(s: string, p: nat, c: nat, hi: nat): (r: Option<nat>)
    requires p <= |s|
    ensures r.Some? ==> p <= r.value <= |s| && (c == 0 ==> p < r.value)
    decreases |s| - p, 1, 0
  {
    var more := if c < hi then TryGroup(s, p, 4, c, hi) else None;
    if more.Some? then more else if 1 <= c then Some(p) else None
  }

  /** One more `:H`, with `w` hex digits first. */
  function TryGroup(s: string, p: nat, w: nat, c: nat, hi: nat): (r: Option<nat>)
    requires p <= |s| && w <= 4
    ensures r.Some? ==> p < r.value <= |s|
    decreases |s| - p, 0, w
  {
    if w == 0 then None
    else if p + w < |s| && s[p] == ':' && AllHexIn(s, p + 1, p + w + 1) then
      var r := MatchGroups(s, p + w + 1, c + 1, hi);
      if r.Some? then r else TryGroup(s, p, w - 1, c, hi)
    else TryGroup(s, p, w - 1, c, hi)
  }

  function MatchTail(s: string, p: nat, k: Tail): (r: Option<nat>)
    requires p <= |s|
    ensures r.Some? ==> p < r.value <= |s|
  {
    match k
    case HexTail => MatchHex(s, p, 4)
    case ColonTail => if p < |s| && s[p] == ':' then Some(p + 1) else None
    case GroupsTail(most) => MatchGroups(s, p, 0, most)
    case Ip4Tail => if p < |s| && s[p] == ':' then Ip4.MatchAt(s, p + 1) else None
  }

  /** `(H:){lo,hi}` then the tail `k`, `c` units already matched. */
  function MatchUnits(s: string, p: nat, c: nat, lo: nat, hi: nat, k: Tail): (r: Option<nat>)
    requires p <= |s|
    ensures r.Some? ==> p < r.value <= |s|
    decreases |s| - p, 1, 0
  {
    var more := if c < hi then TryUnit(s, p, 4, c, lo, hi, k) else None;
    if more.Some? then more else if lo <= c then MatchTail(s, p, k) else None
  }

  /** One more `H:`, with `w` hex digits first. */
  function TryUnit(s: string, p: nat, w: nat, c: nat, lo: nat, hi: nat, k: Tail): (r: Option<nat>)
    requires p <= |s| && w <= 4
    ensures r.Some? ==> p < r.value <= |s|
    decreases |s| - p, 0, w
  {
    if w == 0 then None
    else if p + w < |s| && AllHexIn(s, p, p + w) && s[p + w] == ':' then
      var r := MatchUnits(s, p + w + 1, c + 1, lo, hi, k);
      if r.Some? then r else TryUnit(s, p, w - 1, c, lo, hi, k)
    else TryUnit(s, p, w - 1, c, lo, hi, k)
  }

  /** The length of the run of `[0-9a-zA-Z]` starting at `q`. */
  function AlnumRun(s: string, q: nat): (r: nat)
    requires q <= |s|
    ensures q + r <= |s| && AllAlnumIn(s, q, q + r)
    ensures q + r == |s| || !IsAlnum(s[q + r])
    decreases |s| - q
  {
    if q < |s| && IsAlnum(s[q]) then 1 + AlnumRun(s, q + 1) else 0
  }

  /** `%[0-9a-zA-Z]{1,}` at the end of branch 10: the whole run. */
  function MatchZoneId(s: string, p: nat): (r: Option<nat>)
    requires p <= |s|
    ensures r.Some? ==> p < r.value <= |s| && ZoneIdAt(s, p, r.value)
    ensures r.Some? ==> r.value == |s| || !IsAlnum(s[r.value])
  {
    if p < |s| && s[p] == '%' && 0 < AlnumRun(s, p + 1) then Some(p + 1 + AlnumRun(s, p + 1)) else None
  }

  /** `(:[hex]{0,4}){0,4}` then the zone id, `c` groups already matched. */
  function MatchZone(s: string, p: nat, c: nat): (r: Option<nat>)
    requires p <= |s|
    ensures r.Some? ==> p < r.value <= |s|
    decreases |s| - p, 1, 0
  {
    var more := if c < 4 then TryZone(s, p, 5, c) else None;
    if more.Some? then more else MatchZoneId(s, p)
  }

  /** One more group, `:` and `n - 1` hex digits, longest first. */
  function TryZone(s: string, p: nat, n: nat, c: nat): (r: Option<nat>)
    requires p <= |s| && n <= 5
    ensures r.Some? ==> p < r.value <= |s|
    decreases |s| - p, 0, n
  {
    if n == 0 then None
    else if p + n <= |s| && s[p] == ':' && AllHexIn(s, p + 1, p + n) then
      var r := MatchZone(s, p + n, c + 1);
      if r.Some? then r else TryZone(s, p, n - 1, c)
    else TryZone(s, p, n - 1, c)
  }

  /** `:0{1,4}:IPV4` after `::ffff`, `w` zeros first. */
  function TryZeros(s: string, q: nat, w: nat): (r: Option<nat>)
    requires q <= |s| && w <= 4
    ensures r.Some? ==> q < r.value <= |s|
    decreases w
  {
    if w == 0 then None
    else if q + w + 1 < |s| && s[q] == ':' && AllZerosIn(s, q + 1, q + w + 1) && s[q + w + 1] == ':' then
      var r := Ip4.MatchAt(s, q + w + 2);
      if r.Some? then r else TryZeros(s, q, w - 1)
    else TryZeros(s, q, w - 1)
  }

  /** Branch 9, `:((:H){1,7}|:)`. */
  function MatchCompressed(s: string, p: nat): (r: Option<nat>)
    requires p <= |s|
    ensures r.Some? ==> p < r.value <= |s|
  {
    if p < |s| && s[p] == ':' then
      var g := MatchTail(s, p + 1, GroupsTail(7));
      if g.Some? then g else MatchTail(s, p + 1, ColonTail)
    else None
  }

  /** Branch 10, `fe80:` then the groups and the zone id. */
  function MatchLinkLocal(s: string, p: nat): (r: Option<nat>)
    requires p <= |s|
    ensures r.Some? ==> p < r.value <= |s|
  {
    if p + 5 <= |s| && s[p..p + 5] == "fe80:" then MatchZone(s, p + 5, 0) else None
  }

  /** Branch 11, `::(ffff(:0{1,4}){0,1}:){0,1}IPV4`: the optional group is
      tried first, and inside it the optional zeros first. */
  function MatchMapped(s: string, p: nat): (r: Option<nat>)
    requires p <= |s|
    ensures r.Some? ==> p < r.value <= |s|
  {
    if p + 2 <= |s| && s[p..p + 2] == "::" then
      var z := if p + 6 <= |s| && s[p + 2..p + 6] == "ffff" then TryZeros(s, p + 6, 4) else None;
      if z.Some? then z
      else
        var f := if p + 7 <= |s| && s[p + 2..p + 7] == "ffff:" then Ip4.MatchAt(s, p + 7) else None;
        if f.Some? then f else Ip4.MatchAt(s, p + 2)
    else None
  }

  function MatchAlternative(s: string, p: nat, a: Alternative): (r: Option<nat>)
    requires p <= |s|
    ensures r.Some? ==> p < r.value <= |s|
  {
    match a
    case Repeat(lo, hi, k) => MatchUnits(s, p, 0, lo, hi, k)
    case Compressed => MatchCompressed(s, p)
    case LinkLocal => MatchLinkLocal(s, p)
    case Mapped => MatchMapped(s, p)
  }

  /** The first of `alts` that matches at `p` decides. */
  function MatchFirst(s: string, p: nat, alts: seq<Alternative>): (r: Option<nat>)
    requires p <= |s|
    ensures r.Some? ==> p < r.value <= |s|
    decreases |alts|
  {
    if alts == [] then None
    else
      var r := MatchAlternative(s, p, alts[0]);
      if r.Some? then r else MatchFirst(s, p, alts[1..])
  }

  /** The `ip6` pattern run at start position `p`. */
  function MatchAt(s: string, p: nat): (r: Option<nat>)
    requires p <= |s|
    ensures r.Some? ==> p < r.value <= |s|
  {
    MatchFirst(s, p, Alternatives)
  }

  // ---------------------------------------------------------------------------
  // Completeness: text of a branch's language at `p` makes the branch succeed

  lemma {:induction false} MatchHexComplete(s: string, p: nat, v: nat, w: nat)
    requires 1 <= w <= v <= 4 && AllHexIn(s, p, p + w)
    ensures MatchHex(s, p, v).Some?
    decreases v
  {
    if v != w {
      MatchHexComplete(s, p, v - 1, w);
    }
  }

  lemma {:induction false} TryGroupComplete(s: string, p: nat, v: nat, w: nat, c: nat, hi: nat)
    requires 1 <= w <= v <= 4 && p + w < |s| && s[p] == ':' && AllHexIn(s, p + 1, p + w + 1)
    requires MatchGroups(s, p + w + 1, c + 1, hi).Some?
    ensures TryGroup(s, p, v, c, hi).Some?
    decreases v
  {
    if v != w {
      TryGroupComplete(s, p, v - 1, w, c, hi);
    }
  }

  lemma {:induction false} MatchGroupsComplete(s: string, p: nat, e: nat, n: nat, c: nat, hi: nat)
    requires p <= e <= |s| && Groups(s, p, e, n) && 1 <= c + n <= hi
    ensures MatchGroups(s, p, c, hi).Some?
    decreases n
  {
    if n > 0 {
      var m: nat :| GroupsStep(s, p, m, e, n);
      MatchGroupsComplete(s, m, e, n - 1, c + 1, hi);
      TryGroupComplete(s, p, 4, m - p - 1, c, hi);
    }
  }

  lemma TailComplete(s: string, p: nat, e: nat, k: Tail)
    requires p <= e <= |s| && InTail(s, p, e, k)
    ensures MatchTail(s, p, k).Some?
  {
    match k
    case HexTail =>
      MatchHexComplete(s, p, 4, e - p);
    case ColonTail =>
    case GroupsTail(most) =>
      var n :| 1 <= n <= most && Groups(s, p, e, n);
      MatchGroupsComplete(s, p, e, n, 0, most);
    case Ip4Tail =>
      Ip4.MatchAtComplete(s, p + 1, e);
  }

  lemma {:induction false} TryUnitComplete(s: string, p: nat, v: nat, w: nat, c: nat, lo: nat, hi: nat, k: Tail)
    requires 1 <= w <= v <= 4 && p + w < |s| && AllHexIn(s, p, p + w) && s[p + w] == ':'
    requires MatchUnits(s, p + w + 1, c + 1, lo, hi, k).Some?
    ensures TryUnit(s, p, v, c, lo, hi, k).Some?
    decreases v
  {
    if v != w {
      TryUnitComplete(s, p, v - 1, w, c, lo, hi, k);
    }
  }

  lemma {:induction false} MatchUnitsComplete(s: string, p: nat, q: nat, e: nat, n: nat, c: nat, lo: nat, hi: nat, k: Tail)
    requires p <= q <= e <= |s| && Units(s, p, q, n) && InTail(s, q, e, k) && lo <= c + n <= hi
    ensures MatchUnits(s, p, c, lo, hi, k).Some?
    decreases n
  {
    if n == 0 {
      TailComplete(s, p, e, k);
    } else {
      var m: nat :| UnitsStep(s, p, m, q, n);
      MatchUnitsComplete(s, m, q, e, n - 1, c + 1, lo, hi, k);
      TryUnitComplete(s, p, 4, m - p - 1, c, lo, hi, k);
    }
  }

  lemma MatchZoneIdComplete(s: string, q: nat, e: nat)
    requires q <= e <= |s| && ZoneIdAt(s, q, e)
    ensures MatchZoneId(s, q).Some?
  {
    assert IsAlnum(s[q + 1]);
  }

  lemma {:induction false} TryZoneComplete(s: string, p: nat, v: nat, g: nat, c: nat)
    requires 1 <= g <= v <= 5 && p + g <= |s| && s[p] == ':' && AllHexIn(s, p + 1, p + g)
    requires MatchZone(s, p + g, c + 1).Some?
    ensures TryZone(s, p, v, c).Some?
    decreases v
  {
    if v != g {
      TryZoneComplete(s, p, v - 1, g, c);
    }
  }

  lemma {:induction false} MatchZoneComplete(s: string, p: nat, q: nat, e: nat, n: nat, c: nat)
    requires p <= q <= e <= |s| && ZoneGroups(s, p, q, n) && ZoneIdAt(s, q, e) && c + n <= 4
    ensures MatchZone(s, p, c).Some?
    decreases n
  {
    if n == 0 {
      MatchZoneIdComplete(s, p, e);
    } else {
      var m: nat :| ZoneGroupsStep(s, p, m, q, n);
      MatchZoneComplete(s, m, q, e, n - 1, c + 1);
      TryZoneComplete(s, p, 5, m - p, c);
    }
  }

  lemma {:induction false} TryZerosComplete(s: string, q: nat, v: nat, w: nat)
    requires 1 <= w <= v <= 4 && q + w + 1 < |s| && s[q] == ':' && AllZerosIn(s, q + 1, q + w + 1) && s[q + w + 1] == ':'
    requires Ip4.MatchAt(s, q + w + 2).Some?
    ensures TryZeros(s, q, v).Some?
    decreases v
  {
    if v != w {
      TryZerosComplete(s, q, v - 1, w);
    }
  }

  lemma RepeatComplete(s: string, p: nat, e: nat, lo: nat, hi: nat, k: Tail)
    requires p <= e <= |s| && InAlternative(s, p, e, Repeat(lo, hi, k))
    ensures MatchUnits(s, p, 0, lo, hi, k).Some?
  {
    var q :| RepeatAt(s, p, q, e, lo, hi, k);
    var n :| lo <= n <= hi && Units(s, p, q, n);
    MatchUnitsComplete(s, p, q, e, n, 0, lo, hi, k);
  }

  lemma CompressedComplete(s: string, p: nat, e: nat)
    requires p <= e <= |s| && InAlternative(s, p, e, Compressed)
    ensures MatchCompressed(s, p).Some?
  {
    if InTail(s, p + 1, e, GroupsTail(7)) {
      TailComplete(s, p + 1, e, GroupsTail(7));
    } else {
      TailComplete(s, p + 1, e, ColonTail);
    }
  }

  lemma LinkLocalComplete(s: string, p: nat, e: nat)
    requires p <= e <= |s| && InAlternative(s, p, e, LinkLocal)
    ensures MatchLinkLocal(s, p).Some?
  {
    var q :| LinkLocalAt(s, p, q, e);
    var n: nat :| n <= 4 && ZoneGroups(s, p + 5, q, n);
    MatchZoneComplete(s, p + 5, q, e, n, 0);
  }

  lemma SubSlice(s: string, p: nat, e: nat, i: nat, j: nat)
    requires i <= j && p + j <= e <= |s|
    ensures s[p..e][i..j] == s[p + i..p + j]
  {
    assert forall k :: 0 <= k < j - i ==> s[p..e][i..j][k] == s[p + i + k];
  }

  /** The pieces of the `::ffff:` prefix the matcher looks at. */
  lemma MappedPrefix(s: string, p: nat)
    requires p + 7 <= |s| && s[p..p + 7] == "::ffff:"
    ensures s[p..p + 2] == "::" && s[p + 2..p + 6] == "ffff" && s[p + 2..p + 7] == "ffff:" && s[p + 6] == ':'
  {
    var t := s[p..p + 7];
    assert t[..2] == "::" && t[2..6] == "ffff" && t[2..] == "ffff:";
    SubSlice(s, p, p + 7, 0, 2);
    SubSlice(s, p, p + 7, 2, 6);
    SubSlice(s, p, p + 7, 2, 7);
    assert s[p + 6] == t[6];
  }

  lemma ZeroMappedComplete(s: string, p: nat, y: nat, e: nat)
    requires ZeroMappedAt(s, p, y, e)
    ensures MatchMapped(s, p).Some?
  {
    MappedPrefix(s, p);
    Ip4.MatchAtComplete(s, y, e);
    TryZerosComplete(s, p + 6, 4, y - p - 8);
  }

  lemma FfffMappedComplete(s: string, p: nat, e: nat)
    requires FfffMappedAt(s, p, e)
    ensures MatchMapped(s, p).Some?
  {
    MappedPrefix(s, p);
    Ip4.MatchAtComplete(s, p + 7, e);
  }

  lemma MappedComplete(s: string, p: nat, e: nat)
    requires p <= e <= |s| && InAlternative(s, p, e, Mapped)
    ensures MatchMapped(s, p).Some?
  {
    if y :| ZeroMappedAt(s, p, y, e) {
      ZeroMappedComplete(s, p, y, e);
    } else if FfffMappedAt(s, p, e) {
      FfffMappedComplete(s, p, e);
    } else {
      Ip4.MatchAtComplete(s, p + 2, e);
    }
  }

  lemma AlternativeComplete(s: string, p: nat, e: nat, a: Alternative)
    requires p <= e <= |s| && InAlternative(s, p, e, a)
    ensures MatchAlternative(s, p, a).Some?
  {
    match a
    case Repeat(lo, hi, k) => RepeatComplete(s, p, e, lo, hi, k);
    case Compressed => CompressedComplete(s, p, e);
    case LinkLocal => LinkLocalComplete(s, p, e);
    case Mapped => MappedComplete(s, p, e);
  }

  lemma {:induction false} MatchFirstComplete(s: string, p: nat, e: nat, alts: seq<Alternative>, i: nat)
    requires p <= e <= |s| && i < |alts| && InAlternative(s, p, e, alts[i])
    ensures MatchFirst(s, p, alts).Some?
    decreases |alts|
  {
    if i == 0 {
      AlternativeComplete(s, p, e, alts[0]);
    } else {
      MatchFirstComplete(s, p, e, alts[1..], i - 1);
    }
  }

  // ---------------------------------------------------------------------------
  // Soundness: what a branch matches is in its language

  lemma {:induction false} MatchGroupsSound(s: string, p: nat, c: nat, hi: nat) returns (n: nat)
    requires p <= |s| && c <= hi && MatchGroups(s, p, c, hi).Some?
    ensures 1 <= c + n <= hi && Groups(s, p, MatchGroups(s, p, c, hi).value, n)
    decreases |s| - p, 1, 0
  {
    if c < hi && TryGroup(s, p, 4, c, hi).Some? {
      n := TryGroupSound(s, p, 4, c, hi);
    } else {
      n := 0;
    }
  }

  lemma {:induction false} TryGroupSound(s: string, p: nat, w: nat, c: nat, hi: nat) returns (n: nat)
    requires p <= |s| && w <= 4 && c < hi && TryGroup(s, p, w, c, hi).Some?
    ensures 1 <= c + n <= hi && Groups(s, p, TryGroup(s, p, w, c, hi).value, n)
    decreases |s| - p, 0, w
  {
    if p + w < |s| && s[p] == ':' && AllHexIn(s, p + 1, p + w + 1) && MatchGroups(s, p + w + 1, c + 1, hi).Some? {
      var m := MatchGroupsSound(s, p + w + 1, c + 1, hi);
      n := m + 1;
      assert GroupsStep(s, p, p + w + 1, TryGroup(s, p, w, c, hi).value, n);
    } else {
      n := TryGroupSound(s, p, w - 1, c, hi);
    }
  }

  lemma TailSound(s: string, p: nat, k: Tail)
    requires p <= |s| && MatchTail(s, p, k).Some?
    ensures InTail(s, p, MatchTail(s, p, k).value, k)
  {
    match k
    case HexTail =>
    case ColonTail =>
    case GroupsTail(most) =>
      var n := MatchGroupsSound(s, p, 0, most);
    case Ip4Tail =>
      Ip4.MatchAtSound(s, p + 1);
  }

  lemma {:induction false} MatchUnitsSound(s: string, p: nat, c: nat, lo: nat, hi: nat, k: Tail) returns (q: nat, n: nat)
    requires p <= |s| && c <= hi && MatchUnits(s, p, c, lo, hi, k).Some?
    ensures p <= q <= MatchUnits(s, p, c, lo, hi, k).value && lo <= c + n <= hi
    ensures Units(s, p, q, n) && InTail(s, q, MatchUnits(s, p, c, lo, hi, k).value, k)
    decreases |s| - p, 1, 0
  {
    if c < hi && TryUnit(s, p, 4, c, lo, hi, k).Some? {
      q, n := TryUnitSound(s, p, 4, c, lo, hi, k);
    } else {
      q, n := p, 0;
      TailSound(s, p, k);
    }
  }

  lemma {:induction false} TryUnitSound(s: string, p: nat, w: nat, c: nat, lo: nat, hi: nat, k: Tail) returns (q: nat, n: nat)
    requires p <= |s| && w <= 4 && c < hi && TryUnit(s, p, w, c, lo, hi, k).Some?
    ensures p <= q <= TryUnit(s, p, w, c, lo, hi, k).value && lo <= c + n <= hi
    ensures Units(s, p, q, n) && InTail(s, q, TryUnit(s, p, w, c, lo, hi, k).value, k)
    decreases |s| - p, 0, w
  {
    if p + w < |s| && AllHexIn(s, p, p + w) && s[p + w] == ':' && MatchUnits(s, p + w + 1, c + 1, lo, hi, k).Some? {
      var q', m := MatchUnitsSound(s, p + w + 1, c + 1, lo, hi, k);
      q, n := q', m + 1;
      assert UnitsStep(s, p, p + w + 1, q, n);
    } else {
      q, n := TryUnitSound(s, p, w - 1, c, lo, hi, k);
    }
  }

  lemma {:induction false} MatchZoneSound(s: string, p: nat, c: nat) returns (q: nat, n: nat)
    requires p <= |s| && c <= 4 && MatchZone(s, p, c).Some?
    ensures p <= q <= MatchZone(s, p, c).value && c + n <= 4
    ensures ZoneGroups(s, p, q, n) && ZoneIdAt(s, q, MatchZone(s, p, c).value)
    decreases |s| - p, 1, 0
  {
    if c < 4 && TryZone(s, p, 5, c).Some? {
      q, n := TryZoneSound(s, p, 5, c);
    } else {
      q, n := p, 0;
    }
  }

  lemma {:induction false} TryZoneSound(s: string, p: nat, v: nat, c: nat) returns (q: nat, n: nat)
    requires p <= |s| && v <= 5 && c < 4 && TryZone(s, p, v, c).Some?
    ensures p <= q <= TryZone(s, p, v, c).value && c + n <= 4
    ensures ZoneGroups(s, p, q, n) && ZoneIdAt(s, q, TryZone(s, p, v, c).value)
    decreases |s| - p, 0, v
  {
    if p + v <= |s| && s[p] == ':' && AllHexIn(s, p + 1, p + v) && MatchZone(s, p + v, c + 1).Some? {
      var q', m := MatchZoneSound(s, p + v, c + 1);
      q, n := q', m + 1;
      assert ZoneGroupsStep(s, p, p + v, q, n);
    } else {
      q, n := TryZoneSound(s, p, v - 1, c);
    }
  }

  lemma {:induction false} TryZerosSound(s: string, q: nat, v: nat) returns (w: nat)
    requires q <= |s| && v <= 4 && TryZeros(s, q, v).Some?
    ensures 1 <= w <= 4 && q + w + 1 < |s| && s[q] == ':' && AllZerosIn(s, q + 1, q + w + 1) && s[q + w + 1] == ':'
    ensures Ip4.MatchAt(s, q + w + 2) == TryZeros(s, q, v)
    decreases v
  {
    if q + v + 1 < |s| && s[q] == ':' && AllZerosIn(s, q + 1, q + v + 1) && s[q + v + 1] == ':' && Ip4.MatchAt(s, q + v + 2).Some? {
      w := v;
    } else {
      w := TryZerosSound(s, q, v - 1);
    }
  }

  /** `::ffff:` put together from `::`, `ffff` and `:`, the pieces the
      matcher checks before the zeros. */
  lemma MappedPrefixFromFfffAndColon(s: string, p: nat)
    requires p + 7 <= |s| && s[p..p + 2] == "::" && s[p + 2..p + 6] == "ffff" && s[p + 6] == ':'
    ensures s[p..p + 7] == "::ffff:"
  {
    assert s[p..p + 7] == s[p..p + 2] + s[p + 2..p + 6] + [s[p + 6]];
  }

  /** `::ffff:` put together from `::` and `ffff:`, the pieces the matcher
      checks when there are no zeros. */
  lemma MappedPrefixFromFfffColon(s: string, p: nat)
    requires p + 7 <= |s| && s[p..p + 2] == "::" && s[p + 2..p + 7] == "ffff:"
    ensures s[p..p + 7] == "::ffff:"
  {
    assert s[p..p + 7] == s[p..p + 2] + s[p + 2..p + 7];
  }

  lemma MappedSound(s: string, p: nat)
    requires p <= |s| && MatchMapped(s, p).Some?
    ensures InAlternative(s, p, MatchMapped(s, p).value, Mapped)
  {
    var e := MatchMapped(s, p).value;
    if p + 6 <= |s| && s[p + 2..p + 6] == "ffff" && TryZeros(s, p + 6, 4).Some? {
      var w := TryZerosSound(s, p + 6, 4);
      Ip4.MatchAtSound(s, p + w + 8);
      MappedPrefixFromFfffAndColon(s, p);
      assert ZeroMappedAt(s, p, p + w + 8, e);
    } else if p + 7 <= |s| && s[p + 2..p + 7] == "ffff:" && Ip4.MatchAt(s, p + 7).Some? {
      Ip4.MatchAtSound(s, p + 7);
      MappedPrefixFromFfffColon(s, p);
      assert FfffMappedAt(s, p, e);
    } else {
      Ip4.MatchAtSound(s, p + 2);
      assert PlainMappedAt(s, p, e);
    }
  }

  lemma RepeatSound(s: string, p: nat, lo: nat, hi: nat, k: Tail)
    requires p <= |s| && MatchUnits(s, p, 0, lo, hi, k).Some?
    ensures InAlternative(s, p, MatchUnits(s, p, 0, lo, hi, k).value, Repeat(lo, hi, k))
  {
    var q, n := MatchUnitsSound(s, p, 0, lo, hi, k);
    assert RepeatAt(s, p, q, MatchUnits(s, p, 0, lo, hi, k).value, lo, hi, k);
  }

  lemma CompressedSound(s: string, p: nat)
    requires p <= |s| && MatchCompressed(s, p).Some?
    ensures InAlternative(s, p, MatchCompressed(s, p).value, Compressed)
  {
    if MatchTail(s, p + 1, GroupsTail(7)).Some? {
      TailSound(s, p + 1, GroupsTail(7));
    } else {
      TailSound(s, p + 1, ColonTail);
    }
  }

  lemma LinkLocalSound(s: string, p: nat)
    requires p <= |s| && MatchLinkLocal(s, p).Some?
    ensures InAlternative(s, p, MatchLinkLocal(s, p).value, LinkLocal)
  {
    var q, n := MatchZoneSound(s, p + 5, 0);
    assert LinkLocalAt(s, p, q, MatchLinkLocal(s, p).value);
  }

  lemma AlternativeSound(s: string, p: nat, a: Alternative)
    requires p <= |s| && MatchAlternative(s, p, a).Some?
    ensures InAlternative(s, p, MatchAlternative(s, p, a).value, a)
  {
    match a
    case Repeat(lo, hi, k) => RepeatSound(s, p, lo, hi, k);
    case Compressed => CompressedSound(s, p);
    case LinkLocal => LinkLocalSound(s, p);
    case Mapped => MappedSound(s, p);
  }

  lemma {:induction false} MatchFirstSound(s: string, p: nat, alts: seq<Alternative>) returns (i: nat)
    requires p <= |s| && MatchFirst(s, p, alts).Some?
    ensures i < |alts| && InAlternative(s, p, MatchFirst(s, p, alts).value, alts[i])
    decreases |alts|
  {
    if MatchAlternative(s, p, alts[0]).Some? {
      AlternativeSound(s, p, alts[0]);
      i := 0;
    } else {
      var j := MatchFirstSound(s, p, alts[1..]);
      i := j + 1;
    }
  }

  /** `MatchAt` succeeds at `p` exactly when some text in the `ip6` language
      starts at `p`, and what it returns is such a text. */
  lemma MatchAtExact(s: string, p: nat)
    requires p <= |s|
    ensures MatchAt(s, p).Some? ==> InIp6(s, p, MatchAt(s, p).value)
    ensures MatchAt(s, p).Some? <==> exists e :: p <= e <= |s| && InIp6(s, p, e)
  {
    if MatchAt(s, p).Some? {
      var i := MatchFirstSound(s, p, Alternatives);
      assert InIp6(s, p, MatchAt(s, p).value);
    }
    if e :| p <= e <= |s| && InIp6(s, p, e) {
      var i :| 0 <= i < |Alternatives| && InAlternative(s, p, e, Alternatives[i]);
      MatchFirstComplete(s, p, e, Alternatives, i);
    }
  }

  // ---------------------------------------------------------------------------
  // How a repetition of `H:` is forced by the text

  /** No unit starts at a `:`. */
  lemma {:induction false} NoUnitAt(s: string, p: nat, w: nat, c: nat, lo: nat, hi: nat, k: Tail)
    requires p < |s| && s[p] == ':' && w <= 4
    ensures TryUnit(s, p, w, c, lo, hi, k) == None
    decreases w
  {
    if w != 0 {
      assert !IsHexDigit(s[p]);
      NoUnitAt(s, p, w - 1, c, lo, hi, k);
    }
  }

  /** At a `:` the repetition stops and the tail is tried. */
  lemma RepetitionStopsAt(s: string, p: nat, c: nat, lo: nat, hi: nat, k: Tail)
    requires p < |s| && s[p] == ':'
    ensures MatchUnits(s, p, c, lo, hi, k) == if lo <= c then MatchTail(s, p, k) else None
  {
    NoUnitAt(s, p, 4, c, lo, hi, k);
  }

  /** Only the full run of hex digits before a `:` can be a unit: a longer
      width takes in the `:` and a shorter one is followed by a hex digit. */
  lemma {:induction false} OneUnitAt(s: string, p: nat, n: nat, w: nat, c: nat, lo: nat, hi: nat, k: Tail)
    requires 1 <= n <= 4 && p + n < |s| && AllHexIn(s, p, p + n) && s[p + n] == ':' && w <= 4
    ensures TryUnit(s, p, w, c, lo, hi, k) == if n <= w then MatchUnits(s, p + n + 1, c + 1, lo, hi, k) else None
    decreases w
  {
    if w == 0 {
    } else if w > n {
      assert !IsHexDigit(s[p + n]);
      OneUnitAt(s, p, n, w - 1, c, lo, hi, k);
    } else if w < n {
      assert IsHexDigit(s[p + w]);
      OneUnitAt(s, p, n, w - 1, c, lo, hi, k);
    } else {
      OneUnitAt(s, p, n, w - 1, c, lo, hi, k);
    }
  }

  /** A unit of `n` hex digits and a `:` at `p`: the repetition goes on after
      it, and gives it back for the tail only when going on fails. */
  lemma RepetitionGoesOn(s: string, p: nat, n: nat, c: nat, lo: nat, hi: nat, k: Tail)
    requires 1 <= n <= 4 && p + n < |s| && AllHexIn(s, p, p + n) && s[p + n] == ':' && c < hi
    ensures var r := MatchUnits(s, p + n + 1, c + 1, lo, hi, k);
      MatchUnits(s, p, c, lo, hi, k) == if r.Some? then r else if lo <= c then MatchTail(s, p, k) else None
  {
    OneUnitAt(s, p, n, 4, c, lo, hi, k);
  }

  lemma {:induction false} NoGroupAt(s: string, p: nat, w: nat, c: nat, hi: nat)
    requires p <= |s| && (p < |s| ==> s[p] != ':') && w <= 4
    ensures TryGroup(s, p, w, c, hi) == None
    decreases w
  {
    if w != 0 {
      NoGroupAt(s, p, w - 1, c, hi);
    }
  }

  /** Where no `:` follows, the groups stop. */
  lemma GroupsStopAt(s: string, p: nat, c: nat, hi: nat)
    requires p <= |s| && (p < |s| ==> s[p] != ':')
    ensures MatchGroups(s, p, c, hi) == if 1 <= c then Some(p) else None
  {
    NoGroupAt(s, p, 4, c, hi);
  }

  /** A group `:` plus `n` hex digits not followed by another hex digit:
      widths above `n` fail, so trying from width 4 is trying from `n`. */
  lemma {:induction false} OneGroupAt(s: string, p: nat, n: nat, w: nat, c: nat, hi: nat)
    requires 1 <= n <= 4 && p + n < |s| && s[p] == ':' && AllHexIn(s, p + 1, p + n + 1)
    requires p + n + 1 < |s| ==> !IsHexDigit(s[p + n + 1])
    requires n <= w <= 4
    ensures TryGroup(s, p, w, c, hi) == TryGroup(s, p, n, c, hi)
    decreases w
  {
    if w > n {
      if p + w < |s| {
        assert !AllHexIn(s, p + 1, p + w + 1) by {
          assert p + 1 <= p + n + 1 < p + w + 1;
        }
      }
      OneGroupAt(s, p, n, w - 1, c, hi);
    }
  }

  /** After a group `:` plus `n` hex digits, when the groups after it match,
      that match decides. */
  lemma GroupGoesOn(s: string, p: nat, n: nat, c: nat, hi: nat)
    requires 1 <= n <= 4 && p + n < |s| && s[p] == ':' && AllHexIn(s, p + 1, p + n + 1)
    requires p + n + 1 < |s| ==> !IsHexDigit(s[p + n + 1])
    requires c < hi && MatchGroups(s, p + n + 1, c + 1, hi).Some?
    ensures MatchGroups(s, p, c, hi) == MatchGroups(s, p + n + 1, c + 1, hi)
  {
    OneGroupAt(s, p, n, 4, c, hi);
  }

  // ---------------------------------------------------------------------------
  // Which branches can decide

  /** Trying `a` then `b` in order is trying `a + b`. */
  lemma {:induction false} MatchFirstAppend(s: string, p: nat, a: seq<Alternative>, b: seq<Alternative>)
    requires p <= |s|
    ensures MatchFirst(s, p, a + b) == if MatchFirst(s, p, a).Some? then MatchFirst(s, p, a) else MatchFirst(s, p, b)
    decreases |a|
  {
    if a == [] {
      assert a + b == b;
    } else {
      assert (a + b)[0] == a[0];
      assert (a + b)[1..] == a[1..] + b;
      MatchFirstAppend(s, p, a[1..], b);
    }
  }

  /** When no branch of `alts` decides, none of them matches. */
  lemma {:induction false} MatchFirstNone(s: string, p: nat, alts: seq<Alternative>, i: nat)
    requires p <= |s| && i < |alts| && MatchFirst(s, p, alts).None?
    ensures MatchAlternative(s, p, alts[i]).None?
    decreases |alts|
  {
    if i != 0 {
      MatchFirstNone(s, p, alts[1..], i - 1);
    }
  }

  /** A `::` always starts an `ip6` match: branch 9 takes the second `:` by
      itself when no hex group follows. */
  lemma DoubleColonMatches(s: string, p: nat)
    requires p + 2 <= |s| && s[p] == ':' && s[p + 1] == ':'
    ensures MatchAt(s, p).Some?
  {
    assert InTail(s, p + 1, p + 2, ColonTail);
    assert Alternatives[8] == Compressed;
    assert InIp6(s, p, p + 2) by {
      assert InAlternative(s, p, p + 2, Alternatives[8]);
    }
    MatchAtExact(s, p);
  }

  /** At a `:` none of the branches 1 to 8 can start, since each begins with
      at least one `H:`; the match is decided from branch 9 on. */
  lemma LeadingColon(s: string, p: nat)
    requires p < |s| && s[p] == ':'
    ensures MatchAt(s, p) == MatchFirst(s, p, Alternatives[8..])
  {
    var a := Alternatives[..8];
    forall i | 0 <= i < 8 ensures MatchAlternative(s, p, a[i]).None? {
      RepetitionStopsAt(s, p, 0, a[i].least, a[i].most, a[i].tail);
    }
    NoneOfFirst(s, p, a, 8);
    assert Alternatives == a + Alternatives[8..];
    MatchFirstAppend(s, p, a, Alternatives[8..]);
  }

  /** When the first `n` branches of `alts` all fail, so does trying them. */
  lemma {:induction false} NoneOfFirst(s: string, p: nat, alts: seq<Alternative>, n: nat)
    requires p <= |s| && n <= |alts|
    requires forall i :: 0 <= i < n ==> MatchAlternative(s, p, alts[i]).None?
    ensures MatchFirst(s, p, alts[..n]).None?
    decreases n
  {
    if n != 0 {
      assert alts[..n][0] == alts[0];
      assert alts[..n][1..] == alts[1..][..n - 1];
      NoneOfFirst(s, p, alts[1..], n - 1);
    }
  }

  /** Branch 11 is shadowed by branch 9: whatever text it could match starts
      with `::`, where branch 9 already succeeds. */
  lemma MappedShadowed(s: string, p: nat)
    requires p <= |s| && MatchMapped(s, p).Some?
    ensures MatchCompressed(s, p).Some?
  {
    assert s[p..p + 2][0] == ':' && s[p..p + 2][1] == ':';
    assert InAlternative(s, p, p + 2, Compressed);
    CompressedComplete(s, p, p + 2);
  }

  /** Branch 12 is shadowed by branch 2: its units followed by `:` are
      already a match of `(H:){1,7}:`. */
  lemma Ip4TailShadowed(s: string, p: nat)
    requires p <= |s| && MatchUnits(s, p, 0, 1, 4, Ip4Tail).Some?
    ensures MatchUnits(s, p, 0, 1, 7, ColonTail).Some?
  {
    RepeatSound(s, p, 1, 4, Ip4Tail);
    var e := MatchUnits(s, p, 0, 1, 4, Ip4Tail).value;
    var q: nat :| RepeatAt(s, p, q, e, 1, 4, Ip4Tail);
    assert RepeatAt(s, p, q, q + 1, 1, 7, ColonTail);
    RepeatComplete(s, p, q + 1, 1, 7, ColonTail);
  }

  /** Branches 11 and 12 fail wherever branches 2 and 9 do. */
  lemma LastBranchesFail(s: string, p: nat)
    requires p <= |s| && MatchUnits(s, p, 0, 1, 7, ColonTail).None? && MatchCompressed(s, p).None?
    ensures MatchFirst(s, p, Alternatives[10..]).None?
  {
    var b := Alternatives[10..];
    assert b == [Mapped, Repeat(1, 4, Ip4Tail)];
    if MatchMapped(s, p).Some? {
      MappedShadowed(s, p);
    }
    if MatchUnits(s, p, 0, 1, 4, Ip4Tail).Some? {
      Ip4TailShadowed(s, p);
    }
    var c := b[1..];
    assert c == [Repeat(1, 4, Ip4Tail)] && c[1..] == [];
    assert MatchFirst(s, p, c[1..]).None?;
    assert MatchAlternative(s, p, c[0]).None?;
    assert MatchFirst(s, p, c).None?;
    assert MatchAlternative(s, p, b[0]).None?;
  }

  /** Hence only the first ten branches ever decide a match. */
  lemma LastBranchesNeverDecide(s: string, p: nat)
    requires p <= |s|
    ensures MatchAt(s, p) == MatchFirst(s, p, Alternatives[..10])
  {
    var a, b := Alternatives[..10], Alternatives[10..];
    assert Alternatives == a + b;
    MatchFirstAppend(s, p, a, b);
    if MatchFirst(s, p, a).None? {
      assert a[1] == Repeat(1, 7, ColonTail) && a[8] == Compressed;
      MatchFirstNone(s, p, a, 1);
      MatchFirstNone(s, p, a, 8);
      LastBranchesFail(s, p);
    }
  }

  // ---------------------------------------------------------------------------
  // Every match holds a `:`

  /** Every branch's text has a `:` that a hex digit precedes or a second
      `:` follows: each `Repeat` branch has at least one `H:` unit, branch 10
      starts with `fe80:` and the others with `::`. */
  lemma ColonIn(s: string, p: nat, e: nat, a: Alternative) returns (c: nat)
    requires InAlternative(s, p, e, a) && (a.Repeat? ==> 1 <= a.least)
    ensures p <= c < |s| && s[c] == ':'
    ensures (p < c && IsHexDigit(s[c - 1])) || (c + 1 < |s| && s[c + 1] == ':')
  {
    match a
    case Repeat(lo, hi, k) =>
      var q: nat :| RepeatAt(s, p, q, e, lo, hi, k);
      var n: nat :| lo <= n <= hi && Units(s, p, q, n);
      assert n != 0;
      assert Units(s, p, q, n);
      var m: nat :| UnitsStep(s, p, m, q, n);
      assert IsHexDigit(s[m - 2]);
      c := m - 1;
    case Compressed =>
      if InTail(s, p + 1, e, GroupsTail(7)) {
        var n: nat :| 1 <= n <= 7 && Groups(s, p + 1, e, n);
        assert Groups(s, p + 1, e, n);
        var m: nat :| GroupsStep(s, p + 1, m, e, n);
      }
      c := p;
    case LinkLocal =>
      var q: nat :| LinkLocalAt(s, p, q, e);
      assert s[p..p + 5][4] == s[p + 4] && s[p..p + 5][3] == s[p + 3];
      c := p + 4;
    case Mapped =>
      if y: nat :| ZeroMappedAt(s, p, y, e) {
        assert s[p..p + 7][0] == s[p] && s[p..p + 7][1] == s[p + 1];
      } else if FfffMappedAt(s, p, e) {
        assert s[p..p + 7][0] == s[p] && s[p..p + 7][1] == s[p + 1];
      } else {
        assert s[p..p + 2][0] == s[p] && s[p..p + 2][1] == s[p + 1];
      }
      c := p;
  }

  lemma RepeatsNotEmpty(i: nat)
    requires i < |Alternatives|
    ensures Alternatives[i].Repeat? ==> 1 <= Alternatives[i].least
  {
  }

  /** Where every `:` that follows has neither a hex digit before it nor a
      `:` after it, no `ip6` match starts. */
  lemma LoneColonsNoMatch(s: string, p: nat)
    requires p <= |s|
    requires forall k :: p <= k < |s| && s[k] == ':' ==>
      (k == p || !IsHexDigit(s[k - 1])) && (k + 1 == |s| || s[k + 1] != ':')
    ensures MatchAt(s, p).None?
  {
    if MatchAt(s, p).Some? {
      MatchAtExact(s, p);
      var e := MatchAt(s, p).value;
      var i :| 0 <= i < |Alternatives| && InAlternative(s, p, e, Alternatives[i]);
      RepeatsNotEmpty(i);
      var c := ColonIn(s, p, e, Alternatives[i]);
      assert false;
    }
  }
}
