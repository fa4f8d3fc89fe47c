/**
  Worked instances of the two patterns on the addresses that motivate them,
  including the partial matches the patterns allow because nothing anchors
  them at word boundaries.
 */
module Examples {
  import opened Text
  import Ip4
  import Ip6
  import Search
  import Sanitizer

  /** `999.1.1.1` is not rejected: no octet starts with `999`, so the match
      at the first character fails, but one starts a character later. */
  lemma OutOfRangeFirstOctet()
    ensures Ip4.MatchAt("999.1.1.1", 0) == None
    ensures Ip4.MatchAt("999.1.1.1", 1) == Some(9)
  {
    NinesThenOnes("999.1.1.1");
  }

  lemma NinesThenOnes(s: string)
    requires s == "999" + ".1.1.1"
    ensures Ip4.MatchAt(s, 0) == None
    ensures Ip4.MatchAt(s, 1) == Some(9)
  {
    assert s[0] == '9' && s[1] == '9' && s[2] == '9' && s[3] == '.';
    assert s[4] == '1' && s[5] == '.' && s[6] == '1' && s[7] == '.' && s[8] == '1';
    assert !Ip4.OctetAt(s, 0, 3);
    assert Ip4.TryOctet(s, 0, 1, 3) == None;
    assert Ip4.TryOctet(s, 0, 2, 3) == None;
    assert Ip4.TryOctet(s, 0, 3, 3) == None;
    Ip4.OctetThenDot(s, 1, 2, 3);
    Ip4.OctetThenDot(s, 4, 1, 2);
    Ip4.OctetThenDot(s, 6, 1, 1);
    assert Ip4.LastOctet(s, 8, 3) == Some(9);
  }

  /** `1.1.1.256` is matched as far as `1.1.1.25`. */
  lemma OutOfRangeLastOctet()
    ensures Ip4.MatchAt("1.1.1.256", 0) == Some(8)
  {
    OnesThen256("1.1.1.256");
  }

  lemma OnesThen256(s: string)
    requires s == "1.1.1." + "256"
    ensures Ip4.MatchAt(s, 0) == Some(8)
  {
    assert s[0] == '1' && s[1] == '.' && s[2] == '1' && s[3] == '.' && s[4] == '1' && s[5] == '.';
    assert s[6] == '2' && s[7] == '5' && s[8] == '6';
    Ip4.OctetThenDot(s, 0, 1, 3);
    Ip4.OctetThenDot(s, 2, 1, 2);
    Ip4.OctetThenDot(s, 4, 1, 1);
    assert !Ip4.OctetAt(s, 6, 9);
    assert Ip4.LastOctet(s, 6, 3) == Some(8);
  }

  /** `::1`: branch 9 takes `:` and the group `:1`. */
  lemma Loopback()
    ensures Ip6.MatchAt("::1", 0) == Some(3)
  {
    var s := "::1";
    Ip6.LeadingColon(s, 0);
    assert Ip6.MatchHex(s, 2, 4) == Some(3);
  }

  /** `fe80::1%eth0`: branch 2, `(H:){1,7}:`, matches `fe80::` before the
      link-local branch is tried. */
  lemma LinkLocalAddress()
    ensures Ip6.MatchAt("fe80::1%eth0", 0) == Some(6)
  {
    var s := "fe80::1%eth0";
    assert AllHexIn(s, 0, 4);
    Ip6.RepetitionGoesOn(s, 0, 4, 0, 7, 7, Ip6.HexTail);
    Ip6.RepetitionStopsAt(s, 5, 1, 7, 7, Ip6.HexTail);
    Ip6.RepetitionGoesOn(s, 0, 4, 0, 1, 7, Ip6.ColonTail);
    Ip6.RepetitionStopsAt(s, 5, 1, 1, 7, Ip6.ColonTail);
  }

  /** Branch 1 needs seven `H:` units; `2001:db8:` has two before a `:`. */
  lemma DocumentationNotFull(s: string)
    requires 10 <= |s| && s[..10] == "2001:db8::"
    ensures Ip6.MatchUnits(s, 0, 0, 7, 7, Ip6.HexTail) == None
  {
    assert s[9] == s[..10][9];
    assert Ip6.MatchUnits(s, 9, 2, 7, 7, Ip6.HexTail) == None by {
      Ip6.RepetitionStopsAt(s, 9, 2, 7, 7, Ip6.HexTail);
    }
    assert Ip6.MatchUnits(s, 5, 1, 7, 7, Ip6.HexTail) == None by {
      assert s[5] == s[..10][5] && s[6] == s[..10][6] && s[7] == s[..10][7] && s[8] == s[..10][8];
      Ip6.RepetitionGoesOn(s, 5, 3, 1, 7, 7, Ip6.HexTail);
    }
    assert s[0] == s[..10][0] && s[1] == s[..10][1] && s[2] == s[..10][2] && s[3] == s[..10][3] && s[4] == s[..10][4];
    Ip6.RepetitionGoesOn(s, 0, 4, 0, 7, 7, Ip6.HexTail);
  }

  /** Branch 2 takes the two units and the `:` after them. */
  lemma DocumentationCompressed(s: string)
    requires 10 <= |s| && s[..10] == "2001:db8::"
    ensures Ip6.MatchUnits(s, 0, 0, 1, 7, Ip6.ColonTail) == Some(10)
  {
    assert s[9] == s[..10][9];
    assert Ip6.MatchUnits(s, 9, 2, 1, 7, Ip6.ColonTail) == Some(10) by {
      Ip6.RepetitionStopsAt(s, 9, 2, 1, 7, Ip6.ColonTail);
    }
    assert Ip6.MatchUnits(s, 5, 1, 1, 7, Ip6.ColonTail) == Some(10) by {
      assert s[5] == s[..10][5] && s[6] == s[..10][6] && s[7] == s[..10][7] && s[8] == s[..10][8];
      Ip6.RepetitionGoesOn(s, 5, 3, 1, 1, 7, Ip6.ColonTail);
    }
    assert s[0] == s[..10][0] && s[1] == s[..10][1] && s[2] == s[..10][2] && s[3] == s[..10][3] && s[4] == s[..10][4];
    Ip6.RepetitionGoesOn(s, 0, 4, 0, 1, 7, Ip6.ColonTail);
  }

  /** `2001:db8::8a2e:370:7334`: branch 2 matches `2001:db8::`. */
  lemma DocumentationAddress()
    ensures Ip6.MatchAt("2001:db8::8a2e:370:7334", 0) == Some(10)
  {
    var s := "2001:db8::8a2e:370:7334";
    assert s[..10] == "2001:db8::";
    DocumentationNotFull(s);
    DocumentationCompressed(s);
  }

  /** Branch 9 takes `:` and the groups `:ffff` and `:192`, and stops at the
      `.`; the mapped branch is never reached. */
  lemma MappedByCompressed(s: string)
    requires 11 <= |s| && s[..11] == "::ffff:192."
    ensures Ip6.MatchAt(s, 0) == Some(10)
  {
    assert s[0] == s[..11][0] && s[1] == s[..11][1] && s[6] == s[..11][6] && s[10] == s[..11][10];
    assert Ip6.MatchGroups(s, 10, 2, 7) == Some(10) by {
      Ip6.GroupsStopAt(s, 10, 2, 7);
    }
    assert Ip6.MatchGroups(s, 6, 1, 7) == Some(10) by {
      assert s[7] == s[..11][7] && s[8] == s[..11][8] && s[9] == s[..11][9];
      assert AllHexIn(s, 7, 10);
      Ip6.GroupGoesOn(s, 6, 3, 1, 7);
    }
    assert Ip6.MatchGroups(s, 1, 0, 7) == Some(10) by {
      assert s[2] == s[..11][2] && s[3] == s[..11][3] && s[4] == s[..11][4] && s[5] == s[..11][5];
      assert AllHexIn(s, 2, 6);
      Ip6.GroupGoesOn(s, 1, 4, 0, 7);
    }
    Ip6.LeadingColon(s, 0);
    assert Ip6.Alternatives[8..][0] == Ip6.Compressed;
  }

  /** `::ffff:192.168.0.1` is matched only as far as `::ffff:192`. */
  lemma MappedAddress()
    ensures Ip6.MatchAt("::ffff:192.168.0.1", 0) == Some(10)
  {
    var s := "::ffff:192.168.0.1";
    assert s[..11] == "::ffff:192.";
    MappedByCompressed(s);
  }

  // ---------------------------------------------------------------------------
  // Whole lines

  /** A line holding `::` is dropped when lines are omitted. */
  lemma ConnectedOmitted()
    ensures Sanitizer.SanitizeLine("Connected: ::1", []) == None
  {
    Search.DoubleColonFound("Connected: ::1", 11);
  }

  /** In replace mode an address after text without digits, followed by
      fewer than seven characters, is the one `ip4` match: it is replaced
      and the text around it kept. */
  lemma Ip4ReplacedBetween(pre: string, addr: string, post: string, r: string)
    requires forall q :: 0 <= q < |pre| ==> !IsDigit(pre[q])
    requires Ip4.MatchAt(pre + addr + post, |pre|) == Some(|pre| + |addr|)
    requires |post| < 7
    ensures Search.ReplaceAll(Search.IPv4, pre + addr + post, r) == pre + r + post
  {
    var s := pre + addr + post;
    var b := |pre| + |addr|;
    forall q | 0 <= q < |pre| ensures Search.MatchAt(Search.IPv4, s, q).None? {
      assert s[q] == pre[q];
      Ip4.NonDigitNoMatch(s, q, 3);
    }
    Search.FirstFound(Search.IPv4, s, 0, |pre|, b);
    forall q | b <= q <= |s| ensures Search.MatchAt(Search.IPv4, s, q).None? {
      Ip4.TooShort(s, q, 3);
    }
    Search.NoneFound(Search.IPv4, s, b);
    assert Search.ReplaceFrom(Search.IPv4, s, b, r) == post by {
      assert s[b..] == post;
    }
    assert s[0..|pre|] == pre;
    assert Search.ReplaceFrom(Search.IPv4, s, 0, r) == pre + r + Search.ReplaceFrom(Search.IPv4, s, b, r);
  }

  lemma AddressHead(s: string, p: nat)
    requires p + 8 < |s| && s[p..p + 8] == "192.168."
    ensures Ip4.MatchDotted(s, p, 3) == Ip4.MatchDotted(s, p + 8, 1)
  {
    var t := s[p..p + 8];
    assert Ip4.MatchDotted(s, p, 3) == Ip4.MatchDotted(s, p + 4, 2) by {
      assert s[p] == t[0] && s[p + 1] == t[1] && s[p + 2] == t[2] && s[p + 3] == t[3];
      Ip4.OctetThenDot(s, p, 3, 3);
    }
    assert s[p + 4] == t[4] && s[p + 5] == t[5] && s[p + 6] == t[6] && s[p + 7] == t[7];
    Ip4.OctetThenDot(s, p + 4, 3, 2);
  }

  lemma AddressTail(s: string, p: nat)
    requires p + 5 <= |s| && s[p..p + 5] == "1.100"
    ensures Ip4.MatchDotted(s, p, 1) == Some(p + 5)
  {
    var t := s[p..p + 5];
    assert s[p] == t[0] && s[p + 1] == t[1];
    Ip4.OctetThenDot(s, p, 1, 1);
    assert s[p + 2] == t[2] && s[p + 3] == t[3] && s[p + 4] == t[4];
    assert Ip4.OctetAt(s, p + 2, p + 5);
  }

  /** `192.168.1.100` at `p` is matched in full. */
  lemma AddressAt(s: string, p: nat)
    requires p + 13 <= |s| && s[p..p + 13] == "192.168.1.100"
    ensures Ip4.MatchAt(s, p) == Some(p + 13)
  {
    assert s[p..p + 8] == s[p..p + 13][..8] == "192.168.";
    AddressHead(s, p);
    assert s[p + 8..p + 13] == s[p..p + 13][8..] == "1.100";
    AddressTail(s, p + 8);
  }

  lemma PlayerAddress(s: string)
    requires s == "Player joined from " + "192.168.1.100" + ":25565"
    ensures Ip4.MatchAt(s, 19) == Some(32)
  {
    assert s[19..32] == "192.168.1.100";
    AddressAt(s, 19);
  }

  /** The one `:` left has `>` before it and a digit after it. */
  lemma PlayerRedactedClean(t: string)
    requires t == "Player joined from " + "<redacted>" + ":25565"
    ensures !Search.HasMatch(Search.IPv6, t)
  {
    assert forall k :: 0 <= k < |t| && t[k] == ':' ==> k == 29;
    assert t[28] == '>' && t[30] == '2';
    Search.LoneColonsNotFound(t);
  }

  /** The address is replaced and the port after it kept. */
  lemma PlayerJoined()
    ensures Sanitizer.Redact("Player joined from " + "192.168.1.100" + ":25565", "<redacted>")
      == "Player joined from " + "<redacted>" + ":25565"
  {
    var pre, a, post, r := "Player joined from ", "192.168.1.100", ":25565", "<redacted>";
    PlayerAddress(pre + a + post);
    Ip4ReplacedBetween(pre, a, post, r);
    PlayerRedactedClean(pre + r + post);
    Search.NoMatchUnchanged(Search.IPv6, pre + r + post, r);
  }

  /** `1.1.1.1` at the start of a text, not followed by a digit. */
  lemma Ones(s: string)
    requires 7 <= |s| && s[..7] == "1.1.1.1" && (7 < |s| ==> !IsDigit(s[7]))
    ensures Ip4.MatchAt(s, 0) == Some(7)
  {
    assert s[0] == s[..7][0] && s[1] == s[..7][1] && s[2] == s[..7][2] && s[3] == s[..7][3];
    assert s[4] == s[..7][4] && s[5] == s[..7][5] && s[6] == s[..7][6];
    Ip4.OctetThenDot(s, 0, 1, 3);
    Ip4.OctetThenDot(s, 2, 1, 2);
    Ip4.OctetThenDot(s, 4, 1, 1);
    assert !Ip4.OctetAt(s, 6, 9) && !Ip4.OctetAt(s, 6, 8);
    assert Ip4.LastOctet(s, 6, 3) == Some(7);
  }

  /** Replace mode is not idempotent, even when the replacement holds no
      address: the replacement joins the text left after a match and forms
      a new one. */
  lemma NotIdempotent()
    ensures Sanitizer.Redact("1.1.1.1" + ".1.1.1", "1") == "1" + ".1.1.1"
    ensures Sanitizer.Redact("1" + ".1.1.1", "1") == "1"
  {
    var a, b := "1.1.1.1", ".1.1.1";
    var once := "1" + b;
    assert (a + b)[..7] == a && (a + b)[7] == '.';
    Ones(a + b);
    assert [] + a + b == a + b && [] + "1" + b == once;
    Ip4ReplacedBetween([], a, b, "1");
    assert once[..7] == a;
    Ones(once);
    assert [] + once + [] == once && [] + "1" + [] == "1";
    Ip4ReplacedBetween([], once, [], "1");
    assert forall k :: 0 <= k < |once| ==> once[k] != ':';
    Search.LoneColonsNotFound(once);
    Search.NoMatchUnchanged(Search.IPv6, once, "1");
    Search.LoneColonsNotFound("1");
    Search.NoMatchUnchanged(Search.IPv6, "1", "1");
  }

  lemma NoAddressClean(s: string)
    requires s == "No address" + " here"
    ensures Sanitizer.Clean(s)
  {
    assert forall q :: 0 <= q < |s| ==> !IsDigit(s[q]) && s[q] != ':';
    forall q | 0 <= q <= |s| ensures Search.MatchAt(Search.IPv4, s, q).None? {
      if q < |s| {
        Ip4.NonDigitNoMatch(s, q, 3);
      } else {
        Ip4.TooShort(s, q, 3);
      }
    }
    Search.NoneFound(Search.IPv4, s, 0);
    Search.LoneColonsNotFound(s);
  }

  /** A line without an address comes out unchanged in both modes. */
  lemma NoAddressUnchanged(replacement: string)
    ensures Sanitizer.SanitizeLine("No address" + " here", replacement) == Some("No address" + " here")
  {
    NoAddressClean("No address" + " here");
    Sanitizer.CleanUnchanged("No address" + " here", replacement);
  }
}
