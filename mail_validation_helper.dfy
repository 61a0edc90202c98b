/**
 * MailValidationHelper.php: the checks that make up an e-mail address
 * validation, each a predicate over byte strings switched by one of six
 * flags. No check writes the flags, so they are a Config value here.
 *
 * Three collaborators are parameters: the list of top-level domains (a set
 * of upper-case names, read from the file MailValidation.tld by the source)
 * and, for the DNS check, the MX lookup of a domain and the A-record test of
 * a host.
 *
 * The regular expressions are modelled as searches over the bytes. PCRE's
 * `$` also matches before a newline that ends the subject; here it matches
 * only at the end.
 */
module MailValidationHelper {
  import opened Php
  import opened IpGrammar

  /** The six protected flags (MailValidationHelper.php:31-36). */
  datatype Config = Config(
    doCheckLength: bool,
    doCheckTopLevelDomain: bool,
    doCheckControlChars: bool,
    doCheckDNS: bool,
    doAllowIpAsDomainPart: bool,
    doValidateLocalPart: bool)

  /** The initial values of the flags: every check on, IP-literal domains off. */
  const Defaults := Config(true, true, true, true, false, true)

  const MinimumDomainLength := 3
  const MaximumDomainLength := 255
  const MinimumMailboxNameLength := 1
  const MaximumMailboxNameLength := 64
  /** The path limit of section 4.5.3.1 of RFC 2821, as section 3 of RFC 3696 and its erratum 1690 apply it. */
  const MaximumOverallLength := 256

  // ---------------------------------------------------------------------
  // Splitting an address
  // ---------------------------------------------------------------------

  datatype AddressParts = AddressParts(mailbox: Bytes, domain: Bytes)

  /** Split at the last '@'; an address without '@' is all mailbox and no domain. */
  function SplitAddressParts(emailAddress: Bytes): (parts: AddressParts)
    ensures At in emailAddress ==> parts.mailbox + [At] + parts.domain == emailAddress && At !in parts.domain
    ensures At !in emailAddress ==> parts == AddressParts(emailAddress, [])
  {
    match LastIndexOf(emailAddress, At)
    case None => AddressParts(emailAddress, [])
    case Some(p) =>
      assert emailAddress == emailAddress[..p] + [At] + emailAddress[p + 1..];
      AddressParts(emailAddress[..p], emailAddress[p + 1..])
  }

  /** Joining a mailbox and an '@'-free domain with '@' and splitting again gives them back. */
  lemma {:induction false} SplitJoinedAddress(mailbox: Bytes, domain: Bytes)
    requires At !in domain
    ensures SplitAddressParts(mailbox + [At] + domain) == AddressParts(mailbox, domain)
  {
    var address := mailbox + [At] + domain;
    assert address[|mailbox|] == At;
    var p := LastIndexOf(address, At).value;
    assert p == |mailbox|;
    assert address[..p] == mailbox && address[p + 1..] == domain;
  }

  // ---------------------------------------------------------------------
  // Length limits
  // ---------------------------------------------------------------------

  /** _checkLengthMin: `strlen` counts bytes, so the string has at least the minimum number of bytes. */
  function CheckLengthMin(s: Bytes, minimumLength: int): (ok: bool)
    ensures ok <==> |s| >= minimumLength
  {
    |s| >= minimumLength
  }

  /** _checkLengthMax: the string has at most the maximum number of bytes. */
  function CheckLengthMax(s: Bytes, maximumLength: int): (ok: bool)
    ensures ok <==> |s| <= maximumLength
  {
    |s| <= maximumLength
  }

  /**
   * The length check on a mailbox and a domain; when the domain is absent
   * (PHP null) the first argument is a whole address and is split first.
   */
  function CheckLength(cfg: Config, mailboxOrMailAddress: Bytes, domain: Option<Bytes>): (ok: bool)
    ensures domain.Some? ==>
      (ok <==> (!cfg.doCheckLength ||
                (|mailboxOrMailAddress| + 1 + |domain.value| <= 256
                 && 1 <= |mailboxOrMailAddress| <= 64
                 && 3 <= |domain.value| <= 255)))
  {
    var parts :=
      if domain.Some? then AddressParts(mailboxOrMailAddress, domain.value)
      else SplitAddressParts(mailboxOrMailAddress);
    !cfg.doCheckLength
    || (CheckLengthMax(parts.mailbox + [At] + parts.domain, MaximumOverallLength)
        && CheckLengthMin(parts.mailbox, MinimumMailboxNameLength)
        && CheckLengthMax(parts.mailbox, MaximumMailboxNameLength)
        && CheckLengthMin(parts.domain, MinimumDomainLength)
        && CheckLengthMax(parts.domain, MaximumDomainLength))
  }

  /**
   * The one-argument form is the two-argument form on the split address;
   * an address that passes it has an '@', at most 256 bytes, and mailbox
   * and domain of at most 255 bytes together.
   */
  lemma CheckLengthOfAddress(cfg: Config, emailAddress: Bytes)
    ensures var parts := SplitAddressParts(emailAddress);
      CheckLength(cfg, emailAddress, None) == CheckLength(cfg, parts.mailbox, Some(parts.domain))
    ensures cfg.doCheckLength && CheckLength(cfg, emailAddress, None) ==>
      var parts := SplitAddressParts(emailAddress);
      At in emailAddress && 5 <= |emailAddress| <= 256 && |parts.mailbox| + |parts.domain| <= 255
  {
  }

  // ---------------------------------------------------------------------
  // Control characters
  // ---------------------------------------------------------------------

  /** The class [\x00-\x1F\x7F-\xFF]: ASCII controls, DEL and every byte with the high bit set. */
  predicate IsControlByte(c: Byte) {
    c as int <= 0x1F || c as int >= 0x7F
  }

  /** preg_match of [\x00-\x1F\x7F-\xFF]: a search for one such byte. */
  function MatchesControlChars(s: Bytes): (found: bool)
    ensures found <==> exists i :: 0 <= i < |s| && IsControlByte(s[i])
  {
    if s == [] then false
    else if IsControlByte(s[0]) then true
    else
      assert forall i :: 1 <= i < |s| ==> s[i] == s[1..][i - 1];
      MatchesControlChars(s[1..])
  }

  /** With its flag on, the check passes exactly the addresses made of printable ASCII. */
  function CheckControlChars(cfg: Config, emailAddress: Bytes): (ok: bool)
    ensures ok <==> !cfg.doCheckControlChars || forall i :: 0 <= i < |emailAddress| ==> 0x20 <= emailAddress[i] as int <= 0x7E
  {
    !cfg.doCheckControlChars || !MatchesControlChars(emailAddress)
  }

  // ---------------------------------------------------------------------
  // Top-level domain
  // ---------------------------------------------------------------------

  /** The class [A-Za-z0-9-]. */
  predicate IsLabelByte(c: Byte) {
    IsDigit(c) || IsLowerLetter(c) || IsUpperLetter(c) || c == '-'
  }

  /** [A-Za-z0-9-]+$ matches from position p on. */
  predicate LabelRunFrom(s: Bytes, p: int) {
    0 <= p < |s| && forall i :: p <= i < |s| ==> IsLabelByte(s[i])
  }

  /** The leftmost position at or after p from which [A-Za-z0-9-]+$ matches. */
  function LeftmostLabelRun(s: Bytes, p: nat): (k: Option<nat>)
    ensures k.Some? ==> p <= k.value && LabelRunFrom(s, k.value)
    ensures k.Some? ==> forall j :: p <= j < k.value ==> !LabelRunFrom(s, j)
    ensures k.None? ==> forall j :: p <= j ==> !LabelRunFrom(s, j)
    decreases |s| - p
  {
    if p >= |s| then None
    else if LabelRunFrom(s, p) then Some(p)
    else LeftmostLabelRun(s, p + 1)
  }

  /** preg_match of [A-Za-z0-9-]+$ and its $matches[0]. */
  function TopLevelDomainMatch(domainPart: Bytes): Option<Bytes> {
    match LeftmostLabelRun(domainPart, 0)
    case Some(k) => Some(domainPart[k..])
    case None => None
  }

  /** The label starting at k runs to the end of s, and no label byte precedes it. */
  predicate IsTrailingLabelAt(s: Bytes, k: int) {
    LabelRunFrom(s, k) && (k == 0 || !IsLabelByte(s[k - 1]))
  }

  /** The match is the maximal run of label bytes that ends the domain, and there is one exactly when the domain ends in a label byte. */
  lemma TopLevelDomainMatchIsTrailingLabel(domainPart: Bytes)
    ensures TopLevelDomainMatch(domainPart).Some? <==> |domainPart| > 0 && IsLabelByte(domainPart[|domainPart| - 1])
    ensures TopLevelDomainMatch(domainPart).Some? ==>
      exists k :: IsTrailingLabelAt(domainPart, k) && TopLevelDomainMatch(domainPart).value == domainPart[k..]
  {
    var n := |domainPart|;
    if n > 0 && IsLabelByte(domainPart[n - 1]) {
      assert LabelRunFrom(domainPart, n - 1);
    }
    if LeftmostLabelRun(domainPart, 0).Some? {
      var k := LeftmostLabelRun(domainPart, 0).value;
      if k > 0 && IsLabelByte(domainPart[k - 1]) {
        assert LabelRunFrom(domainPart, k - 1);
      }
      assert IsTrailingLabelAt(domainPart, k);
    }
  }

  /** _checkTopLevelDomain: the match, upper-cased, is a known top-level domain. */
  function CheckTopLevelDomainName(topLevelDomains: set<Bytes>, domainPart: Bytes): (ok: bool)
    ensures ok <==> exists k :: IsTrailingLabelAt(domainPart, k) && ToUpper(domainPart[k..]) in topLevelDomains
  {
    TopLevelDomainMatchIsTrailingLabel(domainPart);
    TrailingLabelUnique(domainPart);
    match TopLevelDomainMatch(domainPart)
    case Some(name) => ToUpper(name) in topLevelDomains
    case None => false
  }

  /**
   * With its flag on, the check passes exactly when the domain ends in a
   * run of [A-Za-z0-9-] whose upper-case form is a listed top-level domain.
   */
  function CheckTopLevelDomain(cfg: Config, topLevelDomains: set<Bytes>, domainPart: Bytes): (ok: bool)
    ensures ok <==> (!cfg.doCheckTopLevelDomain ||
                     exists k :: IsTrailingLabelAt(domainPart, k) && ToUpper(domainPart[k..]) in topLevelDomains)
  {
    !cfg.doCheckTopLevelDomain || CheckTopLevelDomainName(topLevelDomains, domainPart)
  }

  lemma TrailingLabelUnique(s: Bytes)
    ensures forall j, k :: IsTrailingLabelAt(s, j) && IsTrailingLabelAt(s, k) ==> j == k
  {
    forall j, k | IsTrailingLabelAt(s, j) && IsTrailingLabelAt(s, k) ensures j == k {
    }
  }

  lemma UpperByteKeepsLabel(c: Byte)
    ensures IsLabelByte(UpperByte(c)) <==> IsLabelByte(c)
  {
  }

  /** The check does not depend on the case of the domain. */
  lemma TopLevelDomainIgnoresCase(cfg: Config, topLevelDomains: set<Bytes>, domainPart: Bytes)
    ensures CheckTopLevelDomain(cfg, topLevelDomains, ToUpper(domainPart)) == CheckTopLevelDomain(cfg, topLevelDomains, domainPart)
  {
    var up := ToUpper(domainPart);
    forall i | 0 <= i < |domainPart| ensures IsLabelByte(up[i]) <==> IsLabelByte(domainPart[i]) {
      UpperByteKeepsLabel(domainPart[i]);
    }
    forall k | 0 <= k <= |domainPart| ensures ToUpper(up[k..]) == ToUpper(domainPart[k..]) {
      assert up[k..] == ToUpper(domainPart[k..]);
      forall i | 0 <= i < |up[k..]| ensures UpperByte(UpperByte(domainPart[k..][i])) == UpperByte(domainPart[k..][i]) {
      }
    }
    assert forall k :: IsTrailingLabelAt(up, k) <==> IsTrailingLabelAt(domainPart, k);
  }

  /** A domain that is empty or ends in something other than [A-Za-z0-9-] (a dot, a bracket) fails the check. */
  lemma TopLevelDomainNeedsTrailingLabel(cfg: Config, topLevelDomains: set<Bytes>, domainPart: Bytes)
    requires cfg.doCheckTopLevelDomain
    requires domainPart == [] || !IsLabelByte(domainPart[|domainPart| - 1])
    ensures !CheckTopLevelDomain(cfg, topLevelDomains, domainPart)
  {
    TopLevelDomainMatchIsTrailingLabel(domainPart);
  }

  /** Only the last label counts: a domain passes exactly when its last label alone does. */
  lemma TopLevelDomainOfLastLabel(cfg: Config, topLevelDomains: set<Bytes>, prefix: Bytes, lastLabel: Bytes)
    requires lastLabel != [] && forall i :: 0 <= i < |lastLabel| ==> IsLabelByte(lastLabel[i])
    ensures CheckTopLevelDomain(cfg, topLevelDomains, prefix + [Dot] + lastLabel) == CheckTopLevelDomain(cfg, topLevelDomains, lastLabel)
  {
    var d := prefix + [Dot] + lastLabel;
    var k := |prefix| + 1;
    assert d[k..] == lastLabel;
    assert IsTrailingLabelAt(d, k);
    assert IsTrailingLabelAt(lastLabel, 0);
    TrailingLabelUnique(d);
    TrailingLabelUnique(lastLabel);
  }

  // ---------------------------------------------------------------------
  // Local part
  // ---------------------------------------------------------------------

  predicate DoubleDotAt(s: Bytes, i: int) {
    0 <= i < |s| - 1 && s[i] == Dot && s[i + 1] == Dot
  }

  /** A search for "..". */
  function HasDoubleDot(s: Bytes): (found: bool)
    ensures found <==> exists i :: DoubleDotAt(s, i)
  {
    if |s| < 2 then false
    else if s[0] == Dot && s[1] == Dot then
      assert DoubleDotAt(s, 0);
      true
    else
      var found := HasDoubleDot(s[1..]);
      assert found ==> exists i :: DoubleDotAt(s, i) by {
        if found {
          var i :| DoubleDotAt(s[1..], i);
          assert DoubleDotAt(s, i + 1);
        }
      }
      assert (exists i :: DoubleDotAt(s, i)) ==> found by {
        if exists i :: DoubleDotAt(s, i) {
          var i :| DoubleDotAt(s, i);
          assert DoubleDotAt(s[1..], i - 1);
        }
      }
      found
  }

  /** preg_match of (^\.|\.$|\.\.): a leading dot, a trailing dot, or two dots in a row. */
  function MatchesDotRule(s: Bytes): bool {
    (|s| > 0 && s[0] == Dot) || (|s| > 0 && s[|s| - 1] == Dot) || HasDoubleDot(s)
  }

  /** With its flag on, the check passes exactly when every dot stands between two bytes that are not dots. */
  function ValidateLocalPart(cfg: Config, localPart: Bytes): (ok: bool)
    ensures ok <==> (!cfg.doValidateLocalPart ||
                     forall i :: 0 <= i < |localPart| && localPart[i] == Dot ==> 0 < i < |localPart| - 1 && localPart[i + 1] != Dot)
  {
    var ok := !cfg.doValidateLocalPart || !MatchesDotRule(localPart);
    assert !ok ==> exists i :: 0 <= i < |localPart| && localPart[i] == Dot && !(0 < i < |localPart| - 1 && localPart[i + 1] != Dot) by {
      if !ok {
        if localPart[0] != Dot && localPart[|localPart| - 1] != Dot {
          var i :| DoubleDotAt(localPart, i);
          assert localPart[i] == Dot;
        }
      }
    }
    assert ok && cfg.doValidateLocalPart ==> forall i :: 0 <= i < |localPart| && localPart[i] == Dot ==> 0 < i < |localPart| - 1 && localPart[i + 1] != Dot by {
      if ok && cfg.doValidateLocalPart {
        forall i | 0 <= i < |localPart| && localPart[i] == Dot ensures 0 < i < |localPart| - 1 && localPart[i + 1] != Dot {
          assert !DoubleDotAt(localPart, i);
        }
      }
    }
    ok
  }

  predicate NoDoubleDot(s: Bytes) {
    forall i :: 0 <= i < |s| ==> !DoubleDotAt(s, i)
  }

  lemma NoDoubleDotAfterFirst(s: Bytes)
    requires s != []
    ensures NoDoubleDot(s) <==> NoDoubleDot(s[1..]) && !DoubleDotAt(s, 0)
  {
    if !NoDoubleDot(s) && !DoubleDotAt(s, 0) {
      var i :| 0 <= i < |s| && DoubleDotAt(s, i);
      assert s[1..][i - 1] == s[i] && s[1..][i] == s[i + 1];
      assert DoubleDotAt(s[1..], i - 1);
    }
    if !NoDoubleDot(s[1..]) {
      var i :| 0 <= i < |s[1..]| && DoubleDotAt(s[1..], i);
      assert s[1..][i] == s[i + 1] && s[1..][i + 1] == s[i + 2];
      assert DoubleDotAt(s, i + 1);
    }
  }

  /** The first field is empty exactly when the string is empty or starts with the separator. */
  lemma FirstFieldEmpty(s: Bytes)
    ensures Explode(s, Dot)[0] == [] <==> s == [] || s[0] == Dot
  {
  }

  /** All but the first field are non-empty. */
  predicate LaterFieldsOk(fields: seq<Bytes>) {
    forall i :: 1 <= i < |fields| ==> fields[i] != []
  }

  lemma LaterFieldsAfterDot(s: Bytes)
    requires s != [] && s[0] == Dot
    ensures LaterFieldsOk(Explode(s, Dot)) <==>
      Explode(s[1..], Dot)[0] != [] && LaterFieldsOk(Explode(s[1..], Dot))
  {
    var rest := Explode(s[1..], Dot);
    assert Explode(s, Dot) == [[]] + rest;
    assert forall i :: 1 <= i < |rest| + 1 ==> ([[]] + rest)[i] == rest[i - 1];
  }

  lemma LaterFieldsAfterOther(s: Bytes)
    requires s != [] && s[0] != Dot
    ensures LaterFieldsOk(Explode(s, Dot)) <==> LaterFieldsOk(Explode(s[1..], Dot))
  {
    var rest := Explode(s[1..], Dot);
    assert Explode(s, Dot) == [[s[0]] + rest[0]] + rest[1..];
  }

  /** The fields between the dots, after the first, are non-empty exactly when there is no ".." and no trailing dot. */
  lemma {:induction false} LaterFieldsNonEmpty(s: Bytes)
    ensures LaterFieldsOk(Explode(s, Dot)) <==> NoDoubleDot(s) && (s == [] || s[|s| - 1] != Dot)
  {
    if s != [] {
      LaterFieldsNonEmpty(s[1..]);
      NoDoubleDotAfterFirst(s);
      if s[1..] != [] {
        assert s[1..][|s[1..]| - 1] == s[|s| - 1];
        assert s[1..][0] == s[1];
      }
      if s[0] == Dot {
        LaterFieldsAfterDot(s);
        FirstFieldEmpty(s[1..]);
      } else {
        LaterFieldsAfterOther(s);
      }
    }
  }

  /**
   * With its flag on, a non-empty local part passes exactly when it is a
   * dot-separated sequence of non-empty atoms, as in the dot-atom form of
   * section 3.2.3 of RFC 5322.
   */
  lemma LocalPartIsDotAtoms(cfg: Config, localPart: Bytes)
    requires cfg.doValidateLocalPart && localPart != []
    ensures ValidateLocalPart(cfg, localPart) <==>
      forall i :: 0 <= i < |Explode(localPart, Dot)| ==> Explode(localPart, Dot)[i] != []
  {
    LaterFieldsNonEmpty(localPart);
    FirstFieldEmpty(localPart);
    assert HasDoubleDot(localPart) <==> !NoDoubleDot(localPart);
  }

  // ---------------------------------------------------------------------
  // IP-literal domain
  // ---------------------------------------------------------------------

  /** From position i: '[', then at least one byte other than a newline, then ']' at the end. */
  predicate BracketedFrom(d: Bytes, i: int) {
    0 <= i && i + 2 < |d| && d[i] == '[' && d[|d| - 1] == ']' &&
    forall k :: i < k < |d| - 1 ==> d[k] != Newline
  }

  /** preg_match of \[.+\]$: a search for a start position. */
  function MatchesBracketed(d: Bytes, p: nat): (found: bool)
    ensures found <==> exists i :: p <= i && BracketedFrom(d, i)
    decreases |d| - p
  {
    if p + 2 >= |d| then false
    else if BracketedFrom(d, p) then true
    else MatchesBracketed(d, p + 1)
  }

  /** An accepted IP text has neither brackets nor newlines. */
  lemma IpTextHasNoBracket(s: Bytes, x: Byte)
    requires IsIpv4Text(s) || IsIpv6Text(s)
    requires x in s
    ensures x != '[' && x != Newline
  {
    if IsIpv4Text(s) {
      Ipv4Alphabet(s, x);
    } else {
      Ipv6Alphabet(s, x);
    }
  }

  /** Given an IP between the first and the last byte, the search succeeds exactly when those two are the brackets. */
  lemma BracketSearchOfIpLiteral(d: Bytes)
    ensures |d| >= 5 && (IsIpv4Text(d[1..|d| - 1]) || IsIpv6Text(d[1..|d| - 1])) ==>
      (MatchesBracketed(d, 0) <==> d[0] == '[' && d[|d| - 1] == ']')
  {
    if |d| >= 5 && (IsIpv4Text(d[1..|d| - 1]) || IsIpv6Text(d[1..|d| - 1])) {
      var inner := d[1..|d| - 1];
      if MatchesBracketed(d, 0) {
        var i :| 0 <= i && BracketedFrom(d, i);
        if i > 0 {
          assert inner[i - 1] == '[';
          IpTextHasNoBracket(inner, '[');
        }
      }
      if d[0] == '[' && d[|d| - 1] == ']' {
        forall k | 0 < k < |d| - 1 ensures d[k] != Newline {
          if d[k] == Newline {
            assert inner[k - 1] == Newline;
            IpTextHasNoBracket(inner, Newline);
          }
        }
        assert BracketedFrom(d, 0);
      }
    }
  }

  /**
   * With IP literals allowed, a domain passes exactly when it is '[' and ']'
   * around an IPv4 or an IPv6 text; the shortest is five bytes.
   */
  function CheckIpAddress(cfg: Config, domainPart: Bytes): (ok: bool)
    ensures ok <==> (cfg.doAllowIpAsDomainPart && |domainPart| >= 5
                     && domainPart[0] == '[' && domainPart[|domainPart| - 1] == ']'
                     && (IsIpv4Text(domainPart[1..|domainPart| - 1]) || IsIpv6Text(domainPart[1..|domainPart| - 1])))
  {
    BracketSearchOfIpLiteral(domainPart);
    if !cfg.doAllowIpAsDomainPart || IsEmpty(Str(domainPart)) then false
    else if |domainPart| < 5 then false
    else if !MatchesBracketed(domainPart, 0) then false
    else
      var unquotedIpAddress := domainPart[1..|domainPart| - 1];
      IsIpv4Text(unquotedIpAddress) || IsIpv6Text(unquotedIpAddress)
  }

  // ---------------------------------------------------------------------
  // DNS
  // ---------------------------------------------------------------------

  /**
   * _checkDNS: walk the MX records of the domain and stop at the first
   * target with an A record. `mx` stands for dns_get_record(..., DNS_MX)
   * (a failed lookup gives no records) and `hasA` for checkdnsrr(..., 'A').
   */
  method CheckMxRecords(domainPart: Bytes, mx: Bytes -> seq<Bytes>, hasA: Bytes -> bool) returns (found: bool)
    ensures found <==> exists i :: 0 <= i < |mx(domainPart)| && hasA(mx(domainPart)[i])
  {
    var records := mx(domainPart);
    for i := 0 to |records|
      invariant forall j :: 0 <= j < i ==> !hasA(records[j])
    {
      if hasA(records[i]) {
        return true;
      }
    }
    return false;
  }

  /** With its flag on, the check passes exactly when some MX target of the domain has an A record. */
  method CheckDNS(cfg: Config, domainPart: Bytes, mx: Bytes -> seq<Bytes>, hasA: Bytes -> bool) returns (ok: bool)
    ensures ok <==> !cfg.doCheckDNS || exists i :: 0 <= i < |mx(domainPart)| && hasA(mx(domainPart)[i])
  {
    if !cfg.doCheckDNS {
      return true;
    }
    ok := CheckMxRecords(domainPart, mx, hasA);
  }
}
