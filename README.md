# php-mail-validation in Dafny

This project models the e-mail address checks of php-mail-validation:

- `MailValidationHelper.php` is a set of boolean checks on a byte string, with a helper that splits an address at its last `@`. Six flags switch the checks on and off, one flag per check:
  - length limits on the mailbox, the domain and the whole path;
  - rejecting control and high-bit bytes;
  - the dot rules of the local part;
  - looking up the top-level domain;
  - bracketed IPv4/IPv6 literals as the domain;
  - an MX/A-record lookup.
- `MailValidation.php` is the older validator object. It holds an address and four flags, which fluent setters change in place, and its `validate()` chains the checks.

## Files

- `php.dfy` (module `Php`) models the PHP runtime pieces the two files rely on:
  - byte strings, and PHP values (null, bool, string);
  - `empty()`, `strtoupper`, the first-occurrence search inside `strstr`, `strrpos`, `explode`/`implode`;
  - PHP 5's `split` with a one-byte pattern is `Explode`.
- `ip_grammar.dfy` (module `IpGrammar`) models the two regular expressions at `MailValidationHelper.php:48-49`:
  - the IPv4 grammar, as four dot-separated octet texts;
  - the IPv6 grammar, as the `Ipv6Text` values it denotes (the text forms of section 2.2 of RFC 4291);
  - a parser and a formatter for each, with round-trip, soundness and completeness lemmas.
- `mail_validation_helper.dfy` (module `MailValidationHelper`) holds the helper's checks.
  - The six flags are a `Config` value, because no check writes them.
  - Each check is a function whose contract is the property the check promises.
  - `_checkDNS` is a method with the source's early-exit `foreach` loop.
- `legacy_validation.dfy` (module `LegacyValidation`) models the older validator object.
  - The object is the class `MailValidation`; its setters are methods with `modifies this`.
  - `validate()` and the private checks are functions reading the object.
  - The module also holds the definitions the class evidently intends (see Findings).
- `examples_check.dfy` (module `MailValidationExamples`) states the cases the PHPUnit files assert, over the model.

The built-ins that `MailValidation.php` calls are read with PHP 5 semantics, because that file calls `split()` (`MailValidation.php:116`), which PHP 7 removed; `MailValidationHelper.php` is read as PHP 7.3 or later, with PCRE2. Under PHP 5:

- `strstr($address, '@' === false)` (`:34`) searches for the byte 0, not for `@`;
- `list($mailbox, $domain)` over the array keyed 'mailbox'/'domain' (`:94`) yields two nulls;
- `$matches[1]` on the integer `preg_match` returns (`:103-104`) is null, and `in_array` finds null only on an empty line.

Regular expressions are modelled as searches over bytes. PCRE's `$` also matches before a newline that ends the subject. Here it matches only at the very end.

## Model

| member | source | states |
|---|---|---|
| Php.EmptyIffFalsyString | MailValidation.php:27 | `empty()` holds exactly for values that convert to "" or "0" |
| Php.LastIndexOf | MailValidationHelper.php:138 | `strrpos` is none iff the byte is absent; otherwise it is the last position holding the byte |
| Php.IndexOf | MailValidation.php:34 | the search `strstr` makes for its needle is none iff the byte is absent; otherwise it is the first position holding the byte |
| Php.ToUpper | MailValidationHelper.php:106 | `strtoupper` keeps the length and upper-cases a-z byte by byte, leaving every other byte alone |
| Php.Explode | MailValidation.php:116 | splitting gives at least one field, no field holds the separator, and joining the fields gives the input back |
| Php.ExplodeImplode | MailValidation.php:116 | joining separator-free fields and splitting again gives the fields back |
| IpGrammar.ParseIpv4 | MailValidationHelper.php:48 | the IPv4 recogniser accepts exactly four dot-separated octet texts; each accepted text denotes four numbers 0-255 |
| IpGrammar.OctetTextIsCanonical | MailValidationHelper.php:48 | an accepted octet text is the leading-zero-free decimal rendering of a number at most 255 |
| IpGrammar.CanonicalTextIsOctet | MailValidationHelper.php:48 | the decimal rendering of every number up to 255 is an accepted octet text |
| IpGrammar.Ipv4TextIsCanonical | MailValidationHelper.php:48 | every accepted IPv4 text is the rendering of the octets it denotes, so no leading zeros pass |
| IpGrammar.Ipv4RoundTrip | MailValidationHelper.php:48 | every four octets render as an accepted text that parses back to them |
| IpGrammar.FindDoubleColon | MailValidationHelper.php:49 | finds the first "::" of a text, or none when there is none |
| IpGrammar.Ipv6ParseSound | MailValidationHelper.php:49 | every text the IPv6 recogniser accepts is the rendering of a well-formed value: eight units, or at most seven beside one "::", with an optional dotted-quad tail counting as two |
| IpGrammar.Ipv6ParseComplete | MailValidationHelper.php:49 | every well-formed IPv6 value's rendering is accepted and parses back to that value |
| IpGrammar.Ipv4Alphabet | MailValidationHelper.php:48 | an accepted IPv4 text holds only digits and dots |
| IpGrammar.Ipv6Alphabet | MailValidationHelper.php:49 | an accepted IPv6 text holds only hex digits, colons and dots |
| IpGrammar.Ipv6HasColon | MailValidationHelper.php:49 | every accepted IPv6 text holds a colon |
| IpGrammar.Ipv6AtMostOneDoubleColon | MailValidationHelper.php:49 | an accepted IPv6 text writes "::" at most once |
| MailValidationHelper.SplitAddressParts | MailValidationHelper.php:137-143 | with an '@', mailbox + '@' + domain is the address and the domain has no '@'; without one the mailbox is the address and the domain is empty |
| MailValidationHelper.SplitJoinedAddress | MailValidationHelper.php:137-143 | joining a mailbox and an '@'-free domain and splitting again gives them back |
| MailValidationHelper.CheckLengthMin | MailValidationHelper.php:117-119 | `_checkLengthMin` passes iff the string's byte count (`strlen`) is at least the minimum |
| MailValidationHelper.CheckLengthMax | MailValidationHelper.php:127-129 | `_checkLengthMax` passes iff the string's byte count is at most the maximum |
| MailValidationHelper.CheckLength | MailValidationHelper.php:81-92 | with the flag on and a domain given, passes iff the path is at most 256 bytes, the mailbox 1 to 64 and the domain 3 to 255; with the flag off always passes |
| MailValidationHelper.CheckLengthOfAddress | MailValidationHelper.php:82-88 | the one-argument form is the two-argument form on the split address; passing it with the flag on means an '@' is present, the address is 5 to 256 bytes and mailbox plus domain are at most 255 |
| MailValidationHelper.MatchesControlChars | MailValidationHelper.php:47 | the control-character search succeeds iff some byte is in 0x00-0x1F or 0x7F-0xFF |
| MailValidationHelper.CheckControlChars | MailValidationHelper.php:57-60 | with the flag on, passes iff every byte is printable ASCII (0x20-0x7E); with it off always passes |
| MailValidationHelper.LeftmostLabelRun | MailValidationHelper.php:46 | finds the leftmost position from which the rest is a non-empty run of [A-Za-z0-9-] |
| MailValidationHelper.TopLevelDomainMatchIsTrailingLabel | MailValidationHelper.php:103-105 | the expression matches iff the domain ends in a label byte, and the match is the maximal trailing run of label bytes |
| MailValidationHelper.CheckTopLevelDomainName | MailValidationHelper.php:103-109 | `_checkTopLevelDomain` passes iff the domain's maximal trailing run of label bytes, upper-cased, is a listed name |
| MailValidationHelper.CheckTopLevelDomain | MailValidationHelper.php:67-69 | with the flag on, passes iff the domain's maximal trailing run of label bytes, upper-cased, is a listed name; with it off always passes |
| MailValidationHelper.TopLevelDomainIgnoresCase | MailValidationHelper.php:103-109 | the lookup gives the same answer for a domain and its upper-case form |
| MailValidationHelper.TopLevelDomainNeedsTrailingLabel | MailValidationHelper.php:103-109 | with the flag on, an empty domain or one ending in a dot or bracket fails |
| MailValidationHelper.TopLevelDomainOfLastLabel | MailValidationHelper.php:103-109 | only the last label counts: "prefix.label" passes iff "label" does |
| MailValidationHelper.HasDoubleDot | MailValidationHelper.php:231 | the `..` search succeeds iff two dots stand side by side |
| MailValidationHelper.ValidateLocalPart | MailValidationHelper.php:230-232 | with the flag on, passes iff every dot has a non-dot byte on each side (no leading, trailing or doubled dot); with it off always passes |
| MailValidationHelper.LocalPartIsDotAtoms | MailValidationHelper.php:230-232 | for a non-empty local part with the flag on, passing is the same as every dot-separated field being non-empty |
| MailValidationHelper.MatchesBracketed | MailValidationHelper.php:158 | the search for `\[.+\]$` succeeds iff some '[' is followed by at least one non-newline byte and a final ']' |
| MailValidationHelper.BracketSearchOfIpLiteral | MailValidationHelper.php:158-161 | when the bytes between the first and the last are an IP text, the bracket search succeeds iff those two are '[' and ']' |
| MailValidationHelper.CheckIpAddress | MailValidationHelper.php:152-165 | passes iff IP literals are allowed, the domain has at least 5 bytes, starts with '[' and ends with ']', and what lies between is an IPv4 or IPv6 text |
| MailValidationHelper.CheckMxRecords | MailValidationHelper.php:215-222 | the walk over the MX targets finds one iff some target has an A record |
| MailValidationHelper.CheckDNS | MailValidationHelper.php:205-207 | with the flag on, passes iff some MX target of the domain has an A record; with it off always passes |
| LegacyValidation.SplitAddressParts | MailValidation.php:115-118 | the mailbox is the text before the first '@'; with an '@' the domain is the whole text between the first '@' and the second '@' (or the end), and mailbox + '@' + domain begins the address; without one the domain is null |
| LegacyValidation.StrstrFalseNeedle | MailValidation.php:34 | `strstr` with a false needle gives false iff the address has no byte 0, and otherwise the rest of the address from its first byte 0 |
| LegacyValidation.BareIpText | MailValidation.php:125-131 | an IP text holds no '[' and holds a dot or a colon |
| LegacyValidation.CheckIpAddress | MailValidation.php:120-123 | the domain passes iff its text is an IPv4 or IPv6 text; so a passing domain has no '[' and a bracketed literal never passes |
| LegacyValidation.BareTextIsBracketedLiteral | MailValidation.php:120-123 | for every text of three bytes or more, the older check passes the bare text iff the helper's check (with IP literals allowed) passes it in brackets |
| LegacyValidation.UnspecifiedAddressOnlyBare | MailValidation.php:120-123 | a shorter case differs: "::" passes the older check, while "[::]" fails the helper's five-byte minimum |
| LegacyValidation.MailValidation.constructor | MailValidation.php:26-29 | a new object has all four flags on and stores the address only when it is not empty |
| LegacyValidation.MailValidation.SetEmailAddress | MailValidation.php:45-51 | stores the value verbatim, changes no flag and returns the same object |
| LegacyValidation.MailValidation.SetCheckDNS | MailValidation.php:61-64 | sets only the DNS flag, to whether the value is the boolean true, and returns the same object |
| LegacyValidation.MailValidation.SetCheckControlChars | MailValidation.php:66-69 | sets only the control-character flag, to whether the value is the boolean true, and returns the same object |
| LegacyValidation.MailValidation.SetCheckLength | MailValidation.php:71-74 | sets only the length flag, to whether the value is the boolean true, and returns the same object |
| LegacyValidation.MailValidation.SetCheckTopLevelDomain | MailValidation.php:76-79 | sets only the top-level-domain flag, to whether the value is the boolean true, and returns the same object |
| LegacyValidation.MailValidation.SetAllChecks | MailValidation.php:53-59 | sets the DNS, control-character and top-level-domain flags from the value and the length flag to true whatever the value; the address is unchanged |
| LegacyValidation.MailValidation.CheckControlChars | MailValidation.php:81-87 | passes iff the flag is on or the address holds a control or high-bit byte |
| LegacyValidation.MailValidation.CheckLength | MailValidation.php:93-100 | passes iff the length flag is off |
| LegacyValidation.MailValidation.CheckTopLevelDomain | MailValidation.php:102-105 | passes iff the flag is off or some line of the file is empty, whatever the domain |
| LegacyValidation.MailValidation.Validate | MailValidation.php:31-43 | valid iff the address is non-empty with no byte 0, the control-character gate passes (flag on, or a control byte present), the length flag is off, and the text between the first and second '@' is an IP text or the top-level-domain gate passes (flag off, or an empty line in the file) |
| LegacyValidation.ValidateIgnoresDnsFlag | MailValidation.php:31-43 | two objects that differ only in the DNS flag give the same `validate()` result: the flag set at :61-64 is never read |
| LegacyValidation.ValidateNewAddress | MailValidation.php:26-43 | a validator built from any value rejects it |
| LegacyValidation.ControlCharGateInverted | MailValidation.php:81-83 | with the flag off, "joe@iana.org" fails the gate and the same address with the byte 0x01 passes |
| LegacyValidation.TopLevelDomainLookupIgnoresDomain | MailValidation.php:102-105 | with the flag on and no empty line in the file, every domain fails |
| LegacyValidation.AddressWithoutAtPasses | MailValidation.php:31-43 | with the length and top-level-domain checks off, the address "joe" is valid |
| LegacyValidation.CheckPartLengths | MailValidation.php:96-99 | with the flag on, passes iff the mailbox has 1 to 64 bytes and the domain 3 to 256 |
| LegacyValidation.IntendedValidate | MailValidation.php:31-43 | a valid address is non-empty and is mailbox '@' domain with no other '@'; with the checks on it is printable ASCII and its parts are within the limits |
| LegacyValidation.IntendedValidateOfParts | MailValidation.php:36-42 | an address with exactly one '@' is valid iff it passes the control-character check, its parts pass the limits, and its domain is an IP text or has a listed top-level domain |
| LegacyValidation.IntendedValidateAcceptsPlainAddress | MailValidation.php:31-43 | with every check on, a printable "mailbox@host.tld" within the limits whose last label is listed is valid |
| MailValidationExamples.BracketedTwelvesPass | test/MailValidationHelperTest.php:85 | "[12.12.12.12]" passes when IP literals are allowed |
| MailValidationExamples.UnbracketedExamplesFail | test/MailValidationHelperTest.php:86-92 | "12.12.12.12" and "1::" fail without brackets |
| MailValidationExamples.BracketedTwoFiftySixFails | test/MailValidationHelperTest.php:88 | "[256.12.12.12]" fails |
| MailValidationExamples.DoubledDoubleColonIsNoIpv6 | MailValidationHelper.php:49 | "1::2::3", which writes "::" twice, is not an IPv6 text |
| MailValidationExamples.GroupThenDoubleColonIsIpv6 | test/MailValidationHelperTest.php:90 | one hex group followed by "::" (such as "1::" and "2600::") is an IPv6 text |
| MailValidationExamples.BracketedOneColonColonPasses | test/MailValidationHelperTest.php:90 | "[1::]" passes |
| MailValidationExamples.BracketedTwentySixHundredPasses | test/MailValidationHelperTest.php:91 | "[2600::1]" passes |
| MailValidationExamples.BracketedTwentySixHundredPrefixPasses | test/MailValidationTest.php:51 | "[2600::]" passes |
| MailValidationExamples.CheckDnsExamples | test/MailValidationHelperTest.php:95-98 | with a resolver knowing one mail host for gmail.com, that domain passes and one without MX records fails |
| MailValidationExamples.SplitAddressPartsAtSign | test/MailValidationHelperTest.php:101-102 | "joe@example.com" splits into "joe" and "example.com" |
| MailValidationExamples.SplitAddressPartsNoAtSign | test/MailValidationHelperTest.php:103-104 | "joe" splits into "joe" and "" |
| MailValidationExamples.ValidateLocalPartExamples | test/MailValidationHelperTest.php:107-112 | "abc.defg" passes; ".abcdefg", "abcdefg." and "abc..defg" fail |
| MailValidationExamples.CheckTopLevelDomainExamples | test/MailValidationHelperTest.php:114-119 | "com", "google" and "de" pass against a list holding them; "notexistent" fails |
| MailValidationExamples.CheckControlCharsExamples | test/MailValidationHelperTest.php:121-124 | the byte 0 fails and the byte 47 passes |
| MailValidationExamples.CheckLengthMaxExamples | test/MailValidationHelperTest.php:28-52 | runs of 256, 64 and 255 bytes pass the maximum of their own length; 257, 65 and 256 bytes fail it |
| MailValidationExamples.CheckLengthMinExamples | test/MailValidationHelperTest.php:54-78 | "1@1.1" reaches the minimum 1 + 3 and "1@1" does not; runs of 1 and 3 bytes pass the minimum of their own length, 0 and 2 bytes fail it |
| MailValidationExamples.CheckLengthExamples | MailValidationHelper.php:81-92 | for the length check on a mailbox and a domain: a 64-byte mailbox passes and a 65-byte one fails; "1" with "1.1" passes, "1" with "1" fails (domain below three bytes) |
| MailValidationExamples.SetAllChecksOff | MailValidation.php:53-59 | after setAllChecks(false) on a new object the length check is still on and the other three are off |
| MailValidationExamples.LegacyValidateExamples | MailValidation.php:31-43 | "joe@iana.org" fails on a new object and passes once the length and top-level-domain checks are off |

## Left out

- DNS lookups (`dns_get_record`, `checkdnsrr`) are network I/O. They are the parameters `mx` and `hasA`; a failed lookup counts as no records.
- Reading the top-level-domain file (`file(...)`) is file I/O.
  - The helper takes the file as a set of upper-case names.
  - The older class takes the file's lines as a sequence.
- `DownloadTopLevelDomains` is not part of this model. It is network I/O, and its definition is not among the modelled files.
- `filter_var` and `filter_list` are foreign library calls. Both paths of `_validateIp4Address`/`_validateIp6Address`, and the older class's IP checks, use the regular-expression grammars of `MailValidationHelper.php:48-49`.
- The subroutine calls of both IP expressions (`(?1)` in the IPv4 expression at `MailValidationHelper.php:48`; `(?4)` and `(?7)` in the IPv6 expression at `:49`) are read with their set meaning, as PCRE2 10.30 and later backtrack into them. Older PCRE releases treat subroutine calls as atomic, so they reject some of these texts (for instance "1.1.1.250", where `(?1)` commits to "25"). The atomic group `(?>.*?(::))` at `:49` is not given a set meaning: the model commits to the first "::" (`IpGrammar.FindDoubleColon`), and the lookahead `(?!.+\3)` then rejects a second "::" (`IpGrammar.Ipv6AtMostOneDoubleColon`).
- PCRE's `$` before a final newline is not modelled; `$` is the end of the string. This affects `MailValidationHelper.php:46`, the `$` inside the IPv6 expression at `:49`, `:158`, and `\.$` at `:231` (under PCRE the local part "abc.\n" fails, the model passes it).
- `setEmailAddress` with magic quotes on (`stripslashes`) depends on runtime configuration; the model stores the value verbatim.
- PHP values other than null, booleans and strings (numbers, arrays, objects) are not modelled as addresses or setter arguments.
- `in_array` compares loosely. The model keeps that only for the older class's null needle. The helper's lookup is set membership, which differs from loose comparison only for numeric strings such as "0123" and "123"; top-level-domain names are never numeric.
- PHP 7 and later cannot run `MailValidation.php` (no `split()`), so its PHP 7 behaviour is not modelled.
- `substr` past the end gives `false` in PHP 5 rather than ""; `MailValidationHelper.SplitAddressParts` gives "" for an address ending in '@', as PHP 7 does.
- The PHPUnit assertions about getters, `setAllowIpAsDomainPart` and end-to-end `validate()` target a newer `MailValidation` that is not part of this model. Three of them disagree with the modelled code, which the model follows:
  - test/MailValidationTest.php:35 expects IP literals allowed by default; `MailValidationHelper.php:35` has them off.
  - test/MailValidationTest.php:104 expects `setAllChecks(false)` to turn the length check off; `MailValidation.php:56` leaves it on (`MailValidationExamples.SetAllChecksOff`).
  - test/MailValidationTest.php:85-86 expect `setEmailAddress(null)` and `(false)` to read back as ""; `MailValidation.php:49` stores the value as given.
- MailValidationHelper.CheckMxRecords: the `mx` and `hasA` oracles are total functions, so a lookup that changes between calls is not modelled.

## Findings

| source | as written | input that shows it | evidently intended | confidence | as-written member | corrected member |
|---|---|---|---|---|---|---|
| MailValidation.php:82 | `DoCheckControlChars \|\| preg_match(...)`: the gate passes when the flag is on or when a control byte is found | flag off, "joe@iana.org" fails; flag on, an address with the byte 0x01 passes | with the flag on, pass only addresses without control or high-bit bytes | high, not executed | LegacyValidation.ControlCharGateInverted | MailValidationHelper.CheckControlChars |
| MailValidation.php:94 | `list($mailbox, $domain)` over an array keyed 'mailbox'/'domain' gives two nulls, so with the flag on the length check always fails | `new MailValidation('joe@iana.org')` then `validate()` is false | apply the limits to the two parts | high, not executed | LegacyValidation.ValidateNewAddress | LegacyValidation.CheckPartLengths |
| MailValidation.php:103-104 | `$matches` holds the count `preg_match` returns, so `$matches[1]` is null and the lookup searches the file for an empty line | flag on, "iana.org" with a file listing ORG fails | look up the domain's last label in the list | high, not executed | LegacyValidation.TopLevelDomainLookupIgnoresDomain | MailValidationHelper.CheckTopLevelDomain |
| MailValidation.php:34 | `strstr($address, '@' === false)` searches for the byte 0, so an address without '@' is not rejected here | "joe" with the length and top-level-domain checks off is valid | reject an address that has no '@' | high, not executed | LegacyValidation.AddressWithoutAtPasses | LegacyValidation.IntendedValidate |

`LegacyValidation.IntendedValidate` puts the corrected pieces together: exactly one '@', the helper's control-character check, `CheckPartLengths`, and an IP domain or the helper's top-level-domain lookup. `LegacyValidation.IntendedValidateAcceptsPlainAddress` shows it accepts the addresses that `ValidateNewAddress` shows the class as written rejects.
