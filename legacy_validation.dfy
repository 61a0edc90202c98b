/**
 * MailValidation.php: the older validator object. It holds one address and
 * four check flags, which fluent setters change in place, and `validate()`
 * chains the checks.
 *
 * The file splits the address with `split()` (MailValidation.php:116), which
 * exists only up to PHP 5, so every PHP built-in here takes its PHP 5
 * meaning. Read that way, several lines do something other than what their
 * names say; each such reading is stated on the member that models it:
 *   - `strstr($address, '@' === false)` passes `false` as the needle, which
 *     PHP 5 converts to the byte 0: the guard rejects addresses holding a
 *     NUL byte, not addresses without '@';
 *   - `list($mailbox, $domain)` over the array `_splitAddressParts` returns
 *     reads the keys 0 and 1, which that array (keyed 'mailbox' and
 *     'domain') does not have, so both are null and have length 0;
 *   - `preg_match` returns a count, so `$matches[1]` indexes an integer and
 *     is null; `in_array` then compares null loosely with each line of the
 *     top-level-domain file, and null equals only the empty string.
 *
 * The lines of the top-level-domain file are a parameter of `Validate`.
 * `filter_var` with FILTER_VALIDATE_IP is modelled by the IPv4 and IPv6
 * grammars that MailValidationHelper.php uses when the filter is missing.
 */
module LegacyValidation {
  import opened Php
  import opened IpGrammar
  import Helper = MailValidationHelper

  /** The number of '@'-separated parts an address must have (MailValidation.php:17). */
  const AllowedMailParts := 2
  const MinimumTopLevelDomainLength := 3
  const MaximumTopLevelDomainLength := 256
  const MinimumMailboxNameLength := 1
  const MaximumMailboxNameLength := 64

  /** The array `_splitAddressParts` builds: the keys 'mailbox' and 'domain'. */
  datatype AddressParts = AddressParts(mailbox: Value, domain: Value)

  /**
   * `split('@', $address)` into `list($mailbox, $domain)`: the text before
   * the first '@' and the text between the first and the second '@', the
   * latter null when there is no '@' at all. The array always has two keys.
   */
  function SplitAddressParts(emailAddress: Bytes): (parts: AddressParts)
    ensures parts.mailbox.Str? && At !in parts.mailbox.s
    ensures At !in emailAddress ==> parts == AddressParts(Str(emailAddress), Null)
    ensures At in emailAddress ==>
      parts.domain.Str? && At !in parts.domain.s
      && |parts.mailbox.s| + 1 + |parts.domain.s| <= |emailAddress|
      && emailAddress[..|parts.mailbox.s| + 1 + |parts.domain.s|] == parts.mailbox.s + [At] + parts.domain.s
    ensures At in emailAddress ==>
      var n := |parts.mailbox.s| + 1 + |parts.domain.s|;
      n == |emailAddress| || emailAddress[n] == At
  {
    var fields := Explode(emailAddress, At);
    if |fields| == 1 then
      AddressParts(Str(fields[0]), Null)
    else
      assert emailAddress == fields[0] + [At] + Implode(fields[1..], At);
      ImplodeStartsWithFirst(fields[1..], At);
      assert emailAddress[..|fields[0]| + 1 + |fields[1]|] == fields[0] + [At] + fields[1];
      DomainEndsAtAt(emailAddress, fields);
      AddressParts(Str(fields[0]), Str(fields[1]))
  }

  /** The second field of a split runs up to the second '@' or to the end of the address. */
  lemma DomainEndsAtAt(emailAddress: Bytes, fields: seq<Bytes>)
    requires |fields| >= 2 && emailAddress == fields[0] + [At] + Implode(fields[1..], At)
    ensures var n := |fields[0]| + 1 + |fields[1]|;
      n <= |emailAddress| && (n == |emailAddress| || emailAddress[n] == At)
  {
    var rest := fields[1..];
    if |fields| == 2 {
      assert rest == [fields[1]];
    } else {
      assert rest[1..] == fields[2..];
      assert Implode(rest, At) == fields[1] + [At] + Implode(fields[2..], At);
    }
  }

  /**
   * `list($a, $b) = $array` on the array `_splitAddressParts` returns: list()
   * reads the keys 0 and 1, which that array does not have, so both are null.
   */
  function ListOfParts(parts: AddressParts): (Value, Value) {
    (Null, Null)
  }

  /** PHP 5 `strstr($haystack, false)`: the needle becomes the byte 0; the rest of the string from it, or false. */
  function StrstrFalseNeedle(haystack: Bytes): (r: Value)
    ensures Nul !in haystack ==> r == Bool(false)
    ensures Nul in haystack ==> r.Str? && 0 < |r.s| <= |haystack| && r.s[0] == Nul && haystack[|haystack| - |r.s|..] == r.s
                                && Nul !in haystack[..|haystack| - |r.s|]
  {
    match IndexOf(haystack, Nul)
    case None => Bool(false)
    case Some(i) => Str(haystack[i..])
  }

  /** `in_array($needle, $lines)` with `$needle` null: loose equality holds for the empty string only. */
  predicate InArrayNull(lines: seq<Bytes>) {
    exists i :: 0 <= i < |lines| && lines[i] == []
  }

  /** An IP text has no bracket, and it has a dot (IPv4) or a colon (IPv6). */
  lemma BareIpText(text: Bytes)
    requires IsIpv4Text(text) || IsIpv6Text(text)
    ensures '[' !in text && (Dot in text || Colon in text)
  {
    if '[' in text {
      Helper.IpTextHasNoBracket(text, '[');
    }
    if IsIpv4Text(text) {
      ImplodeBytes(Explode(text, Dot), Dot, Dot);
    } else {
      Ipv6HasColon(text);
    }
  }

  /**
   * The domain text itself must be an IPv4 or an IPv6 address: a bracketed
   * literal such as "[192.0.2.1]" never passes.
   */
  function CheckIpAddress(domainPart: Value): (ok: bool)
    ensures ok <==> IsIpv4Text(AsString(domainPart)) || IsIpv6Text(AsString(domainPart))
    ensures ok ==> domainPart.Str? && '[' !in domainPart.s && (Dot in domainPart.s || Colon in domainPart.s)
  {
    var text := AsString(domainPart);
    if IsIpv4Text(text) || IsIpv6Text(text) then
      BareIpText(text);
      true
    else
      false
  }
  /**
   * The older check takes the bare text that the helper's check
   * (MailValidationHelper.php:152-165) takes in brackets, for every text of
   * three bytes or more.
   */
  lemma BareTextIsBracketedLiteral(cfg: Helper.Config, text: Bytes)
    requires cfg.doAllowIpAsDomainPart && |text| >= 3
    ensures CheckIpAddress(Str(text)) <==> Helper.CheckIpAddress(cfg, ['['] + text + [']'])
  {
    var d := ['['] + text + [']'];
    assert d[1..|d| - 1] == text;
  }

  /** The unspecified address "::" passes the older check, while "[::]" is below the helper's five-byte minimum. */
  lemma UnspecifiedAddressOnlyBare(cfg: Helper.Config, text: Bytes)
    requires cfg.doAllowIpAsDomainPart && text == "::"
    ensures CheckIpAddress(Str(text))
    ensures !Helper.CheckIpAddress(cfg, ['['] + text + [']'])
  {
    var t := Compressed([], [], None);
    assert FormatIpv6(t) == text;
    Ipv6ParseComplete(t);
  }

  class MailValidation {
    var EmailAddress: Value
    var DoCheckLength: bool
    var DoCheckTopLevelDomain: bool
    var DoCheckControlChars: bool
    var DoCheckDNS: bool

    /** The four flags, in declaration order. */
    function Flags(): (bool, bool, bool, bool)
      reads this
    {
      (DoCheckLength, DoCheckTopLevelDomain, DoCheckControlChars, DoCheckDNS)
    }

    /** Every check starts switched on; the address is kept only when it is not empty(). */
    constructor (emailAddress: Value := Null)
      ensures Flags() == (true, true, true, true)
      ensures EmailAddress == if IsEmpty(emailAddress) then Null else emailAddress
    {
      DoCheckLength := true;
      DoCheckTopLevelDomain := true;
      DoCheckControlChars := true;
      DoCheckDNS := true;
      if !IsEmpty(emailAddress) {
        EmailAddress := emailAddress;
      } else {
        EmailAddress := Null;
      }
    }

    /** Stores the value as given and returns the object itself. */
    method SetEmailAddress(value: Value) returns (self: MailValidation)
      modifies this
      ensures self == this
      ensures EmailAddress == value
      ensures Flags() == old(Flags())
    {
      EmailAddress := value;
      self := this;
    }

    /** The flag becomes true only for the boolean true itself (`=== true`). */
    method SetCheckDNS(value: Value := Bool(true)) returns (self: MailValidation)
      modifies this
      ensures self == this
      ensures DoCheckDNS == (value == Bool(true))
      ensures EmailAddress == old(EmailAddress)
      ensures (DoCheckLength, DoCheckTopLevelDomain, DoCheckControlChars) == old((DoCheckLength, DoCheckTopLevelDomain, DoCheckControlChars))
    {
      DoCheckDNS := value == Bool(true);
      self := this;
    }

    method SetCheckControlChars(value: Value := Bool(true)) returns (self: MailValidation)
      modifies this
      ensures self == this
      ensures DoCheckControlChars == (value == Bool(true))
      ensures EmailAddress == old(EmailAddress)
      ensures (DoCheckLength, DoCheckTopLevelDomain, DoCheckDNS) == old((DoCheckLength, DoCheckTopLevelDomain, DoCheckDNS))
    {
      DoCheckControlChars := value == Bool(true);
      self := this;
    }

    method SetCheckLength(value: Value := Bool(true)) returns (self: MailValidation)
      modifies this
      ensures self == this
      ensures DoCheckLength == (value == Bool(true))
      ensures EmailAddress == old(EmailAddress)
      ensures (DoCheckTopLevelDomain, DoCheckControlChars, DoCheckDNS) == old((DoCheckTopLevelDomain, DoCheckControlChars, DoCheckDNS))
    {
      DoCheckLength := value == Bool(true);
      self := this;
    }

    method SetCheckTopLevelDomain(value: Value := Bool(true)) returns (self: MailValidation)
      modifies this
      ensures self == this
      ensures DoCheckTopLevelDomain == (value == Bool(true))
      ensures EmailAddress == old(EmailAddress)
      ensures (DoCheckLength, DoCheckControlChars, DoCheckDNS) == old((DoCheckLength, DoCheckControlChars, DoCheckDNS))
    {
      DoCheckTopLevelDomain := value == Bool(true);
      self := this;
    }

    /**
     * Sets the DNS, control-character and top-level-domain flags from the
     * value; the length flag is set with no argument, so it always ends up on.
     */
    method SetAllChecks(value: Value := Bool(true)) returns (self: MailValidation)
      modifies this
      ensures self == this
      ensures Flags() == (true, value == Bool(true), value == Bool(true), value == Bool(true))
      ensures EmailAddress == old(EmailAddress)
    {
      self := SetCheckDNS(value);
      self := SetCheckControlChars(value);
      self := SetCheckLength();
      self := SetCheckTopLevelDomain(value);
    }

    /**
     * As written the check passes whenever its flag is on; with the flag off
     * it passes only an address that does hold a control or non-ASCII byte.
     */
    function CheckControlChars(emailAddress: Bytes): (ok: bool)
      reads this
      ensures ok <==> (DoCheckControlChars || exists i :: 0 <= i < |emailAddress| && Helper.IsControlByte(emailAddress[i]))
    {
      DoCheckControlChars || Helper.MatchesControlChars(emailAddress)
    }

    /** The length limits compare null parts, so the check passes exactly when it is switched off. */
    function CheckLength(emailAddress: Bytes): (ok: bool)
      reads this
      ensures ok <==> !DoCheckLength
    {
      var (mailbox, domain) := ListOfParts(SplitAddressParts(emailAddress));
      !DoCheckLength
      || (Helper.CheckLengthMin(AsString(mailbox), MinimumMailboxNameLength)
          && Helper.CheckLengthMax(AsString(mailbox), MaximumMailboxNameLength)
          && Helper.CheckLengthMin(AsString(domain), MinimumTopLevelDomainLength)
          && Helper.CheckLengthMax(AsString(domain), MaximumTopLevelDomainLength))
    }

    /**
     * The lookup searches the file's lines for null rather than for the
     * domain's ending, so the outcome depends on the flag and on whether the
     * file has an empty line, and never on the domain.
     */
    function CheckTopLevelDomain(domainPart: Value, topLevelDomainLines: seq<Bytes>): (ok: bool)
      reads this
      ensures ok <==> (!DoCheckTopLevelDomain || exists i :: 0 <= i < |topLevelDomainLines| && topLevelDomainLines[i] == [])
    {
      !DoCheckTopLevelDomain || InArrayNull(topLevelDomainLines)
    }

    /**
     * `validate()`: a non-empty address without a NUL byte, split into two
     * parts, passing the control-character and length checks, whose domain
     * part is an IP address or passes the top-level-domain check. The DNS
     * flag is stored but never consulted.
     */
    function Validate(topLevelDomainLines: seq<Bytes>): (valid: bool)
      reads this
      ensures valid ==> !IsEmpty(EmailAddress) && Nul !in AsString(EmailAddress)
      ensures valid ==> !DoCheckLength
      ensures valid ==> CheckControlChars(AsString(EmailAddress))
      ensures var address := AsString(EmailAddress);
        var domain := AsString(SplitAddressParts(address).domain);
        valid <==>
          && !IsEmpty(EmailAddress) && Nul !in address
          && (DoCheckControlChars || exists i :: 0 <= i < |address| && Helper.IsControlByte(address[i]))
          && !DoCheckLength
          && (IsIpv4Text(domain) || IsIpv6Text(domain) || !DoCheckTopLevelDomain || InArrayNull(topLevelDomainLines))
    {
      if IsEmpty(EmailAddress) then false
      else if !IsEmpty(StrstrFalseNeedle(AsString(EmailAddress))) then false
      else
        var address := AsString(EmailAddress);
        var addressParts := SplitAddressParts(address);
        AllowedMailParts == 2
        && CheckControlChars(address)
        && CheckLength(address)
        && (CheckIpAddress(addressParts.domain) || CheckTopLevelDomain(addressParts.domain, topLevelDomainLines))
    }
  }

  /** `validate()` never reads the DNS flag: two objects that differ only there agree. */
  lemma ValidateIgnoresDnsFlag(a: MailValidation, b: MailValidation, topLevelDomainLines: seq<Bytes>)
    requires a.EmailAddress == b.EmailAddress
    requires a.DoCheckLength == b.DoCheckLength && a.DoCheckTopLevelDomain == b.DoCheckTopLevelDomain
    requires a.DoCheckControlChars == b.DoCheckControlChars
    ensures a.Validate(topLevelDomainLines) == b.Validate(topLevelDomainLines)
  {
  }

  /** A validator made from any value rejects it: the length check starts switched on. */
  method ValidateNewAddress(emailAddress: Value, topLevelDomainLines: seq<Bytes>) returns (valid: bool)
    ensures !valid
  {
    var validation := new MailValidation(emailAddress);
    valid := validation.Validate(topLevelDomainLines);
  }

  /**
   * The control-character gate is inverted: with the flag off a plain
   * address fails and one holding the byte 0x01 passes.
   */
  lemma ControlCharGateInverted(validation: MailValidation, plain: Bytes, withControl: Bytes)
    requires !validation.DoCheckControlChars
    requires plain == "joe@iana.org" && withControl == "joe" + [1 as char] + "@iana.org"
    ensures !validation.CheckControlChars(plain)
    ensures validation.CheckControlChars(withControl)
  {
    assert Helper.IsControlByte(withControl[3]);
    assert forall i :: 0 <= i < |plain| ==> !Helper.IsControlByte(plain[i]);
  }

  /**
   * With its flag on, the lookup fails for every domain whenever no line of
   * the file is empty, as is the case for any file of names read by file().
   */
  lemma TopLevelDomainLookupIgnoresDomain(validation: MailValidation, domainPart: Value, topLevelDomainLines: seq<Bytes>)
    requires validation.DoCheckTopLevelDomain
    requires forall i :: 0 <= i < |topLevelDomainLines| ==> topLevelDomainLines[i] != []
    ensures !validation.CheckTopLevelDomain(domainPart, topLevelDomainLines)
  {
  }

  /**
   * The '@' guard does not exist: with the length and top-level-domain
   * checks off, the address "joe", which has no '@', is valid.
   */
  lemma AddressWithoutAtPasses(validation: MailValidation, topLevelDomainLines: seq<Bytes>)
    requires validation.EmailAddress == Str("joe")
    requires validation.DoCheckControlChars && !validation.DoCheckLength && !validation.DoCheckTopLevelDomain
    ensures validation.Validate(topLevelDomainLines)
  {
    assert "joe" != "0";
  }

  // ---------------------------------------------------------------------
  // The validation the class evidently intends
  // ---------------------------------------------------------------------

  /** The length limits of MailValidation.php:18-21 on the mailbox and the domain. */
  function CheckPartLengths(doCheckLength: bool, mailbox: Bytes, domain: Bytes): (ok: bool)
    ensures ok <==> (!doCheckLength || (MinimumMailboxNameLength <= |mailbox| <= MaximumMailboxNameLength
                                        && MinimumTopLevelDomainLength <= |domain| <= MaximumTopLevelDomainLength))
  {
    !doCheckLength
    || (Helper.CheckLengthMin(mailbox, MinimumMailboxNameLength)
        && Helper.CheckLengthMax(mailbox, MaximumMailboxNameLength)
        && Helper.CheckLengthMin(domain, MinimumTopLevelDomainLength)
        && Helper.CheckLengthMax(domain, MaximumTopLevelDomainLength))
  }

  /**
   * `validate()` as its guards evidently mean it: exactly one '@', the
   * control-character check passing printable ASCII, the limits applied to
   * the two parts, and the top-level domain looked up from the domain's
   * last label (as MailValidationHelper.php does). The file of names is the
   * set of its upper-case lines.
   */
  function IntendedValidate(doCheckLength: bool, doCheckTopLevelDomain: bool, doCheckControlChars: bool,
                            emailAddress: Value, topLevelDomains: set<Bytes>): (valid: bool)
    ensures valid ==> !IsEmpty(emailAddress)
    ensures valid ==> exists mailbox, domain :: At !in mailbox && At !in domain && AsString(emailAddress) == mailbox + [At] + domain
    ensures valid && doCheckControlChars ==>
      forall i :: 0 <= i < |AsString(emailAddress)| ==> 0x20 <= AsString(emailAddress)[i] as int <= 0x7E
    ensures valid && doCheckLength ==>
      var fields := Explode(AsString(emailAddress), At);
      |fields| == 2 && 1 <= |fields[0]| <= 64 && 3 <= |fields[1]| <= 256
  {
    var address := AsString(emailAddress);
    var fields := Explode(address, At);
    var cfg := Helper.Config(doCheckLength, doCheckTopLevelDomain, doCheckControlChars, false, false, false);
    if IsEmpty(emailAddress) || |fields| != AllowedMailParts then false
    else
      assert Implode(fields[1..], At) == fields[1];
      assert address == fields[0] + [At] + fields[1];
      Helper.CheckControlChars(cfg, address)
      && CheckPartLengths(doCheckLength, fields[0], fields[1])
      && (CheckIpAddress(Str(fields[1])) || Helper.CheckTopLevelDomain(cfg, topLevelDomains, fields[1]))
  }

  /**
   * With every check on, an address "mailbox@host.tld" within the limits,
   * made of printable ASCII and whose last label is listed, is valid as
   * intended; ValidateNewAddress shows a fresh validator rejects it.
   */
  lemma IntendedValidateAcceptsPlainAddress(mailbox: Bytes, host: Bytes, tld: Bytes)
    requires 1 <= |mailbox| <= 64 && host != [] && |host| + 1 + |tld| <= 256
    requires At !in mailbox && At !in host
    requires tld != [] && forall i :: 0 <= i < |tld| ==> Helper.IsLabelByte(tld[i])
    requires forall i :: 0 <= i < |mailbox| ==> 0x20 <= mailbox[i] as int <= 0x7E
    requires forall i :: 0 <= i < |host| ==> 0x20 <= host[i] as int <= 0x7E
    ensures IntendedValidate(true, true, true, Str(mailbox + [At] + (host + [Dot] + tld)), {ToUpper(tld)})
  {
    var domain := host + [Dot] + tld;
    DomainHasNoAt(host, tld);
    PlainAddressParts(mailbox, host, tld);
    IntendedValidateOfParts(true, true, true, mailbox, domain, {ToUpper(tld)});
  }

  /** The three checks IntendedValidateAcceptsPlainAddress needs, one by one. */
  lemma PlainAddressParts(mailbox: Bytes, host: Bytes, tld: Bytes)
    requires 1 <= |mailbox| <= 64 && host != [] && |host| + 1 + |tld| <= 256
    requires tld != [] && forall i :: 0 <= i < |tld| ==> Helper.IsLabelByte(tld[i])
    requires forall i :: 0 <= i < |mailbox| ==> 0x20 <= mailbox[i] as int <= 0x7E
    requires forall i :: 0 <= i < |host| ==> 0x20 <= host[i] as int <= 0x7E
    ensures var cfg := Helper.Config(true, true, true, false, false, false);
      && Helper.CheckControlChars(cfg, mailbox + [At] + (host + [Dot] + tld))
      && CheckPartLengths(true, mailbox, host + [Dot] + tld)
      && Helper.CheckTopLevelDomain(cfg, {ToUpper(tld)}, host + [Dot] + tld)
  {
    var cfg := Helper.Config(true, true, true, false, false, false);
    PrintableAddress(mailbox, host, tld);
    ListedLastLabel(cfg, host, tld);
  }

  /** An address with exactly one '@' is judged by its two parts. */
  lemma IntendedValidateOfParts(doCheckLength: bool, doCheckTopLevelDomain: bool, doCheckControlChars: bool,
                                mailbox: Bytes, domain: Bytes, topLevelDomains: set<Bytes>)
    requires At !in mailbox && At !in domain
    ensures var cfg := Helper.Config(doCheckLength, doCheckTopLevelDomain, doCheckControlChars, false, false, false);
      var address := mailbox + [At] + domain;
      IntendedValidate(doCheckLength, doCheckTopLevelDomain, doCheckControlChars, Str(address), topLevelDomains)
      <==> (Helper.CheckControlChars(cfg, address)
            && CheckPartLengths(doCheckLength, mailbox, domain)
            && (CheckIpAddress(Str(domain)) || Helper.CheckTopLevelDomain(cfg, topLevelDomains, domain)))
  {
    var address := mailbox + [At] + domain;
    assert address[|mailbox|] == At;
    TwoFields(mailbox, domain);
  }

  lemma DomainHasNoAt(host: Bytes, tld: Bytes)
    requires At !in host
    requires forall i :: 0 <= i < |tld| ==> Helper.IsLabelByte(tld[i])
    ensures At !in host + [Dot] + tld
  {
  }

  lemma TwoFields(mailbox: Bytes, domain: Bytes)
    requires At !in mailbox && At !in domain
    ensures Explode(mailbox + [At] + domain, At) == [mailbox, domain]
  {
    ExplodeAfterField(mailbox, At, domain);
    ExplodeWithoutSeparator(domain, At);
  }

  lemma ListedLastLabel(cfg: Helper.Config, host: Bytes, tld: Bytes)
    requires tld != [] && forall i :: 0 <= i < |tld| ==> Helper.IsLabelByte(tld[i])
    ensures Helper.CheckTopLevelDomain(cfg, {ToUpper(tld)}, host + [Dot] + tld)
  {
    assert tld[0..] == tld;
    assert Helper.IsTrailingLabelAt(tld, 0);
    Helper.TopLevelDomainOfLastLabel(cfg, {ToUpper(tld)}, host, tld);
  }

  lemma PrintableAddress(mailbox: Bytes, host: Bytes, tld: Bytes)
    requires forall i :: 0 <= i < |tld| ==> Helper.IsLabelByte(tld[i])
    requires forall i :: 0 <= i < |mailbox| ==> 0x20 <= mailbox[i] as int <= 0x7E
    requires forall i :: 0 <= i < |host| ==> 0x20 <= host[i] as int <= 0x7E
    ensures var address := mailbox + [At] + (host + [Dot] + tld);
      forall i :: 0 <= i < |address| ==> 0x20 <= address[i] as int <= 0x7E
  {
    var address := mailbox + [At] + (host + [Dot] + tld);
    forall i | 0 <= i < |address| ensures 0x20 <= address[i] as int <= 0x7E {
      if i < |mailbox| {
        assert address[i] == mailbox[i];
      } else if i == |mailbox| {
      } else if i < |mailbox| + 1 + |host| {
        assert address[i] == host[i - |mailbox| - 1];
      } else if i == |mailbox| + 1 + |host| {
      } else {
        assert address[i] == tld[i - |mailbox| - 2 - |host|];
      }
    }
  }
}
