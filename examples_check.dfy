/**
 * The cases that test/MailValidationHelperTest.php and
 * test/MailValidationTest.php assert, stated over the model.
 */
module MailValidationExamples {
  import opened Php
  import opened IpGrammar
  import Helper = MailValidationHelper
  import Legacy = LegacyValidation

  /** The default flags with IP-literal domains allowed. */
  const AllowIp := Helper.Config(true, true, true, true, true, true)

  /** "12.12.12.12" is the rendering of the octets 12, 12, 12, 12. */
  lemma TwelvesAreIpv4(s: Bytes)
    requires s == "12.12.12.12"
    ensures IsIpv4Text(s)
  {
    var q := [12, 12, 12, 12];
    TwelvesFormat(q, s);
    Ipv4RoundTrip(q);
  }

  lemma TwelvesFormat(q: seq<nat>, s: Bytes)
    requires q == [12, 12, 12, 12] && s == "12.12.12.12"
    ensures IsQuad(q) && FormatIpv4(q) == s
  {
    var twelve: Bytes := "12";
    TwoDigitText(twelve);
    assert s == twelve + [Dot] + (twelve + [Dot] + (twelve + [Dot] + twelve));
    SameOctetsFormat(12, twelve, s);
  }

  /** Four equal octets render as four copies of the octet's text joined by dots. */
  lemma SameOctetsFormat(n: nat, f: Bytes, s: Bytes)
    requires n <= 255 && DecimalText(n) == f && s == f + [Dot] + (f + [Dot] + (f + [Dot] + f))
    ensures IsQuad([n, n, n, n]) && FormatIpv4([n, n, n, n]) == s
  {
    assert QuadTexts([n, n, n, n]) == [f, f, f, f];
    JoinFourFields(f, s);
  }

  /** Four copies of a field joined by dots. */
  lemma JoinFourFields(f: Bytes, s: Bytes)
    requires s == f + [Dot] + (f + [Dot] + (f + [Dot] + f))
    ensures Implode([f, f, f, f], Dot) == s
  {
    var fields := [f, f, f, f];
    assert Implode(fields[3..], Dot) == f;
    assert Implode(fields[2..], Dot) == f + [Dot] + f;
    assert Implode(fields[1..], Dot) == f + [Dot] + (f + [Dot] + f);
  }

  /** "256.12.12.12" is no dotted quad: 256 is no octet. */
  lemma TwoFiftySixIsNoIpv4(s: Bytes)
    requires s == "256.12.12.12"
    ensures !IsIpv4Text(s)
  {
    var fields: seq<Bytes> := ["256", "12", "12", "12"];
    assert Implode(fields, Dot) == s;
    ExplodeImplode(fields, Dot);
    assert !IsOctetText(fields[0]);
  }

  /** "256.12.12.12" is no IPv6 text: it has no colon. */
  lemma TwoFiftySixIsNoIpv6(s: Bytes)
    requires s == "256.12.12.12"
    ensures !IsIpv6Text(s)
  {
    if IsIpv6Text(s) {
      Ipv6HasColon(s);
    }
  }

  /**
   * A text that writes "::" twice, such as "1::2::3", is no IPv6 text: the
   * lookahead after the first "::" rejects the second.
   */
  lemma DoubledDoubleColonIsNoIpv6(s: Bytes)
    requires s == "1::2::3"
    ensures !IsIpv6Text(s)
  {
    if IsIpv6Text(s) {
      assert DoubleColonAt(s, 1) && DoubleColonAt(s, 4);
      Ipv6AtMostOneDoubleColon(s, 1, 4);
    }
  }

  /** One hex group followed by "::", as "1::" and "2600::", is a compressed IPv6 text. */
  lemma GroupThenDoubleColonIsIpv6(g: Bytes, s: Bytes)
    requires IsHexGroup(g) && s == g + [Colon, Colon]
    ensures IsIpv6Text(s)
  {
    var t := Compressed([g], [], None);
    assert FormatIpv6(t) == s;
    Ipv6ParseComplete(t);
  }

  /** "2600::1" is a compressed IPv6 text. */
  lemma TwentySixHundredIsIpv6(s: Bytes)
    requires s == "2600::1"
    ensures IsIpv6Text(s)
  {
    var t := Compressed(["2600"], ["1"], None);
    assert FormatIpv6(t) == "2600::1";
    Ipv6ParseComplete(t);
  }

  /** With IP literals allowed, an IP text of three bytes or more in brackets passes. */
  lemma BracketedIpPasses(d: Bytes)
    requires |d| >= 5 && d[0] == '[' && d[|d| - 1] == ']'
    requires IsIpv4Text(d[1..|d| - 1]) || IsIpv6Text(d[1..|d| - 1])
    ensures Helper.CheckIpAddress(AllowIp, d)
  {
  }

  /** An IP text without brackets fails, and so does a bracketed text that is no IP. */
  lemma UnbracketedIpFails(d: Bytes)
    requires |d| > 0 && d[0] != '['
    ensures !Helper.CheckIpAddress(AllowIp, d)
  {
  }

  lemma BracketedNonIpFails(d: Bytes)
    requires |d| >= 2 && !IsIpv4Text(d[1..|d| - 1]) && !IsIpv6Text(d[1..|d| - 1])
    ensures !Helper.CheckIpAddress(AllowIp, d)
  {
  }

  /** testCheckIpAddress: "[12.12.12.12]" passes. */
  lemma BracketedTwelvesPass(d: Bytes)
    requires d == "[12.12.12.12]"
    ensures Helper.CheckIpAddress(AllowIp, d)
  {
    var inner := d[1..|d| - 1];
    assert inner == "12.12.12.12";
    TwelvesAreIpv4(inner);
    BracketedIpPasses(d);
  }

  /** testCheckIpAddress: "[1::]" passes. */
  lemma BracketedOneColonColonPasses(d: Bytes)
    requires d == "[1::]"
    ensures Helper.CheckIpAddress(AllowIp, d)
  {
    var inner := d[1..|d| - 1];
    assert inner == "1::";
    GroupThenDoubleColonIsIpv6(inner[..1], inner);
    BracketedIpPasses(d);
  }

  /** testCheckIpAddress: "[2600::1]" passes. */
  lemma BracketedTwentySixHundredPasses(d: Bytes)
    requires d == "[2600::1]"
    ensures Helper.CheckIpAddress(AllowIp, d)
  {
    var inner := d[1..|d| - 1];
    assert inner == "2600::1";
    TwentySixHundredIsIpv6(inner);
    BracketedIpPasses(d);
  }

  /** "[2600::]" passes, as the address "01234@[2600::]" of test/MailValidationTest.php needs. */
  lemma BracketedTwentySixHundredPrefixPasses(d: Bytes)
    requires d == "[2600::]"
    ensures Helper.CheckIpAddress(AllowIp, d)
  {
    var inner := d[1..|d| - 1];
    assert inner == "2600::";
    GroupThenDoubleColonIsIpv6(inner[..4], inner);
    BracketedIpPasses(d);
  }

  /** testCheckIpAddress: "[256.12.12.12]" fails. */
  lemma BracketedTwoFiftySixFails(d: Bytes)
    requires d == "[256.12.12.12]"
    ensures !Helper.CheckIpAddress(AllowIp, d)
  {
    var inner := d[1..|d| - 1];
    assert inner == "256.12.12.12";
    TwoFiftySixIsNoIpv4(inner);
    TwoFiftySixIsNoIpv6(inner);
    BracketedNonIpFails(d);
  }

  /** testCheckIpAddress: "12.12.12.12" and "1::" fail without brackets. */
  lemma UnbracketedExamplesFail()
    ensures !Helper.CheckIpAddress(AllowIp, "12.12.12.12")
    ensures !Helper.CheckIpAddress(AllowIp, "1::")
  {
    UnbracketedIpFails("12.12.12.12");
    UnbracketedIpFails("1::");
  }

  /** testSplitAddressParts: "joe@example.com" splits at its '@'. */
  lemma SplitAddressPartsAtSign(mailbox: Bytes, domain: Bytes)
    requires mailbox == "joe" && domain == "example.com"
    ensures Helper.SplitAddressParts(mailbox + [At] + domain) == Helper.AddressParts(mailbox, domain)
  {
    assert At !in domain;
    Helper.SplitJoinedAddress(mailbox, domain);
  }

  /** testSplitAddressParts: "joe" is all mailbox. */
  lemma SplitAddressPartsNoAtSign()
    ensures Helper.SplitAddressParts("joe") == Helper.AddressParts("joe", "")
  {
  }

  /** testValidateLocalPart: a dot inside passes; a leading, trailing or doubled dot fails. */
  lemma ValidateLocalPartExamples()
    ensures Helper.ValidateLocalPart(Helper.Defaults, "abc.defg")
    ensures !Helper.ValidateLocalPart(Helper.Defaults, ".abcdefg")
    ensures !Helper.ValidateLocalPart(Helper.Defaults, "abcdefg.")
    ensures !Helper.ValidateLocalPart(Helper.Defaults, "abc..defg")
  {
    var doubled: Bytes := "abc..defg";
    assert doubled[3] == Dot;
  }

  /** A name made only of label bytes passes when its upper-case form is listed. */
  lemma ListedNamePasses(name: Bytes, topLevelDomains: set<Bytes>)
    requires name != [] && forall i :: 0 <= i < |name| ==> Helper.IsLabelByte(name[i])
    requires ToUpper(name) in topLevelDomains
    ensures Helper.CheckTopLevelDomain(Helper.Defaults, topLevelDomains, name)
  {
    assert name[0..] == name;
    assert Helper.IsTrailingLabelAt(name, 0);
  }

  /** A name made only of label bytes fails when its upper-case form is not listed. */
  lemma UnlistedNameFails(name: Bytes, topLevelDomains: set<Bytes>)
    requires name != [] && forall i :: 0 <= i < |name| ==> Helper.IsLabelByte(name[i])
    requires ToUpper(name) !in topLevelDomains
    ensures !Helper.CheckTopLevelDomain(Helper.Defaults, topLevelDomains, name)
  {
    forall k | Helper.IsTrailingLabelAt(name, k) ensures k == 0 {
      if k > 0 {
        assert Helper.IsLabelByte(name[k - 1]);
      }
    }
    assert name[0..] == name;
  }

  /** The list of names the examples below look names up in. */
  predicate ExampleList(topLevelDomains: set<Bytes>) {
    topLevelDomains == {"COM", "GOOGLE", "DE"}
  }

  /** testCheckTopLevelDomain: "com", "google" and "de" are listed, "notexistent" is not. */
  lemma CheckTopLevelDomainExamples(com: Bytes, google: Bytes, notexistent: Bytes, de: Bytes, topLevelDomains: set<Bytes>)
    requires com == "com" && google == "google" && notexistent == "notexistent" && de == "de"
    requires topLevelDomains == {"COM", "GOOGLE", "DE"}
    ensures Helper.CheckTopLevelDomain(Helper.Defaults, topLevelDomains, com)
    ensures Helper.CheckTopLevelDomain(Helper.Defaults, topLevelDomains, google)
    ensures !Helper.CheckTopLevelDomain(Helper.Defaults, topLevelDomains, notexistent)
    ensures Helper.CheckTopLevelDomain(Helper.Defaults, topLevelDomains, de)
  {
    ComIsListed(com, topLevelDomains);
    GoogleIsListed(google, topLevelDomains);
    NotexistentIsUnlisted(notexistent, topLevelDomains);
    DeIsListed(de, topLevelDomains);
  }

  lemma ComIsListed(com: Bytes, topLevelDomains: set<Bytes>)
    requires com == "com" && ExampleList(topLevelDomains)
    ensures Helper.CheckTopLevelDomain(Helper.Defaults, topLevelDomains, com)
  {
    assert ToUpper(com) == "COM";
    ListedNamePasses(com, topLevelDomains);
  }

  lemma GoogleIsListed(google: Bytes, topLevelDomains: set<Bytes>)
    requires google == "google" && ExampleList(topLevelDomains)
    ensures Helper.CheckTopLevelDomain(Helper.Defaults, topLevelDomains, google)
  {
    assert ToUpper(google) == "GOOGLE";
    ListedNamePasses(google, topLevelDomains);
  }

  lemma DeIsListed(de: Bytes, topLevelDomains: set<Bytes>)
    requires de == "de" && ExampleList(topLevelDomains)
    ensures Helper.CheckTopLevelDomain(Helper.Defaults, topLevelDomains, de)
  {
    assert ToUpper(de) == "DE";
    ListedNamePasses(de, topLevelDomains);
  }

  lemma NotexistentIsUnlisted(notexistent: Bytes, topLevelDomains: set<Bytes>)
    requires notexistent == "notexistent" && ExampleList(topLevelDomains)
    ensures !Helper.CheckTopLevelDomain(Helper.Defaults, topLevelDomains, notexistent)
  {
    assert |ToUpper(notexistent)| == 11;
    UnlistedNameFails(notexistent, topLevelDomains);
  }

  /** testCheckControlChars: the byte 0 fails, the byte 47 ('/') passes. */
  lemma CheckControlCharsExamples()
    ensures !Helper.CheckControlChars(Helper.Defaults, [Nul])
    ensures Helper.CheckControlChars(Helper.Defaults, [47 as char])
  {
  }

  /**
   * testCheckLengthMax: a run of 'a' exactly as long as each maximum (256,
   * 64 and 255) passes that maximum, and one byte more fails it.
   */
  lemma CheckLengthMaxExamples()
    ensures Helper.CheckLengthMax(seq(Helper.MaximumOverallLength, _ => 'a'), Helper.MaximumOverallLength)
    ensures !Helper.CheckLengthMax(seq(Helper.MaximumOverallLength + 1, _ => 'a'), Helper.MaximumOverallLength)
    ensures Helper.CheckLengthMax(seq(Helper.MaximumMailboxNameLength, _ => 'a'), Helper.MaximumMailboxNameLength)
    ensures !Helper.CheckLengthMax(seq(Helper.MaximumMailboxNameLength + 1, _ => 'a'), Helper.MaximumMailboxNameLength)
    ensures Helper.CheckLengthMax(seq(Helper.MaximumDomainLength, _ => 'a'), Helper.MaximumDomainLength)
    ensures !Helper.CheckLengthMax(seq(Helper.MaximumDomainLength + 1, _ => 'a'), Helper.MaximumDomainLength)
  {
  }

  /**
   * testCheckLengthMin: "1@1.1" reaches the sum of the two minimums (4) and
   * "1@1" does not; a run of 'a' exactly as long as each minimum (1 and 3)
   * passes that minimum, and one byte fewer fails it.
   */
  lemma CheckLengthMinExamples()
    ensures Helper.CheckLengthMin("1@1.1", Helper.MinimumMailboxNameLength + Helper.MinimumDomainLength)
    ensures !Helper.CheckLengthMin("1@1", Helper.MinimumMailboxNameLength + Helper.MinimumDomainLength)
    ensures Helper.CheckLengthMin(seq(Helper.MinimumMailboxNameLength, _ => 'a'), Helper.MinimumMailboxNameLength)
    ensures !Helper.CheckLengthMin(seq(Helper.MinimumMailboxNameLength - 1, _ => 'a'), Helper.MinimumMailboxNameLength)
    ensures Helper.CheckLengthMin(seq(Helper.MinimumDomainLength, _ => 'a'), Helper.MinimumDomainLength)
    ensures !Helper.CheckLengthMin(seq(Helper.MinimumDomainLength - 1, _ => 'a'), Helper.MinimumDomainLength)
  {
  }

  /**
   * The composite length check on a mailbox and a domain: 64 bytes of
   * mailbox pass and 65 fail; the domain "1" is below the three-byte minimum.
   */
  lemma CheckLengthExamples()
    ensures Helper.CheckLength(Helper.Defaults, seq(64, _ => 'a'), Some("iana.org"))
    ensures !Helper.CheckLength(Helper.Defaults, seq(65, _ => 'a'), Some("iana.org"))
    ensures Helper.CheckLength(Helper.Defaults, "1", Some("1.1"))
    ensures !Helper.CheckLength(Helper.Defaults, "1", Some("1"))
  {
  }

  /**
   * testSetAllChecks: after setAllChecks(false) the older class still has
   * its length check on, since setAllChecks calls setCheckLength() without
   * the value.
   */
  method SetAllChecksOff() returns (validation: Legacy.MailValidation)
    ensures validation.Flags() == (true, false, false, false)
  {
    validation := new Legacy.MailValidation();
    validation := validation.SetAllChecks(Bool(false));
  }

  /**
   * testCheckDNS against a resolver that knows one mail host for gmail.com:
   * that domain passes and a domain without MX records fails.
   */
  method CheckDnsExamples() returns (gmail: bool, unknown: bool)
    ensures gmail && !unknown
  {
    var host: Bytes := "gmail-smtp-in.l.google.com";
    var mx := (d: Bytes) => if d == "gmail.com" then [host] else [];
    var hasA := (h: Bytes) => h == host;
    gmail := Helper.CheckDNS(Helper.Defaults, "gmail.com", mx, hasA);
    assert hasA(mx("gmail.com")[0]);
    var missing: Bytes := "example.unexistenttld";
    assert |missing| != |"gmail.com"|;
    unknown := Helper.CheckDNS(Helper.Defaults, missing, mx, hasA);
  }

  /**
   * In the older class, "joe@iana.org" fails on a fresh validator, whatever
   * the file of top-level domains holds, and passes once the length and the
   * top-level-domain checks are off.
   */
  method LegacyValidateExamples(address: Bytes, topLevelDomainLines: seq<Bytes>) returns (initially: bool, checksOff: bool)
    requires address == "joe@iana.org"
    ensures !initially && checksOff
  {
    assert Nul !in address && address != "0";
    var validation := new Legacy.MailValidation(Str(address));
    initially := validation.Validate(topLevelDomainLines);
    validation := validation.SetCheckLength(Bool(false));
    validation := validation.SetCheckTopLevelDomain(Bool(false));
    checksOff := validation.Validate(topLevelDomainLines);
  }
}
