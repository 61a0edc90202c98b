/**
 * The IP-literal grammars of MailValidationHelper.php, read as sets of texts.
 *
 * The IPv4 expression at :48 is one octet, then three more each after a dot,
 * anchored at both ends; an octet is the alternation
 * (2[0-4]|1\d|[1-9])?\d | 25[0-5]. The IPv6 expression at :49 accepts the
 * text forms of section 2.2 of RFC 4291: eight colon-separated groups of one
 * to four hex digits, or six groups and a dotted quad, where one "::" may
 * stand for one or more groups of zeros. The subroutine calls `(?1)`, `(?4)`
 * and `(?7)` are read with their set meaning (any way of matching the called
 * group counts), as PCRE2 10.30 and later backtrack into them. The IPv6
 * expression's atomic group `(?>.*?(::))` commits to the first "::"
 * (FindDoubleColon), and the lookahead `(?!.+\3)` after it then rejects any
 * second "::" (Ipv6AtMostOneDoubleColon).
 *
 * Each grammar is given a value form and a formatter, and its recogniser is
 * proved to accept exactly the formatted values.
 */
module IpGrammar {
  import opened Php

  // ---------------------------------------------------------------------
  // Decimal octets
  // ---------------------------------------------------------------------

  function DigitValue(c: Byte): nat
    requires IsDigit(c)
  {
    c as int - '0' as int
  }

  function DigitByte(d: nat): (c: Byte)
    requires d < 10
    ensures IsDigit(c) && DigitValue(c) == d && c as int == '0' as int + d
  {
    ('0' as int + d) as char
  }

  predicate AllDigits(s: Bytes) {
    forall i :: 0 <= i < |s| ==> IsDigit(s[i])
  }

  /** The number a string of decimal digits denotes. */
  function DecimalValue(s: Bytes): nat
    requires AllDigits(s)
  {
    if |s| == 0 then 0 else 10 * DecimalValue(s[..|s| - 1]) + DigitValue(s[|s| - 1])
  }

  /** The decimal rendering of n, without leading zeros. */
  function DecimalText(n: nat): (s: Bytes)
    ensures 1 <= |s| && AllDigits(s)
    ensures DecimalValue(s) == n
    ensures |s| > 1 ==> s[0] != '0'
  {
    if n < 10 then [DigitByte(n)]
    else
      var s := DecimalText(n / 10) + [DigitByte(n % 10)];
      assert s[..|s| - 1] == DecimalText(n / 10);
      s
  }

  /** The octet alternation  (2[0-4]|1\d|[1-9])?\d | 25[0-5]  as a set of texts. */
  predicate IsOctetText(s: Bytes) {
    || (|s| == 1 && IsDigit(s[0]))
    || (|s| == 2 && '1' <= s[0] <= '9' && IsDigit(s[1]))
    || (|s| == 3 && s[0] == '1' && IsDigit(s[1]) && IsDigit(s[2]))
    || (|s| == 3 && s[0] == '2' && '0' <= s[1] <= '4' && IsDigit(s[2]))
    || (|s| == 3 && s[0] == '2' && s[1] == '5' && '0' <= s[2] <= '5')
  }

  lemma DecimalValueOfOne(s: Bytes)
    requires |s| == 1 && AllDigits(s)
    ensures DecimalValue(s) == DigitValue(s[0])
  {
    assert s[..0] == [];
  }

  lemma DecimalValueOfTwo(s: Bytes)
    requires |s| == 2 && AllDigits(s)
    ensures DecimalValue(s) == 10 * DigitValue(s[0]) + DigitValue(s[1])
  {
    DecimalValueOfOne(s[..1]);
  }

  lemma DecimalValueOfThree(s: Bytes)
    requires |s| == 3 && AllDigits(s)
    ensures DecimalValue(s) == 100 * DigitValue(s[0]) + 10 * DigitValue(s[1]) + DigitValue(s[2])
  {
    DecimalValueOfTwo(s[..2]);
  }

  lemma DivModTen(a: nat, d: nat)
    requires d < 10
    ensures (10 * a + d) / 10 == a && (10 * a + d) % 10 == d
  {
  }

  /** Appending a digit to a rendering without leading zeros renders ten times more, plus the digit. */
  lemma DecimalTextAppend(m: nat, c: Byte)
    requires m >= 1 && IsDigit(c)
    ensures DecimalText(10 * m + DigitValue(c)) == DecimalText(m) + [c]
  {
    DivModTen(m, DigitValue(c));
  }

  /** Two digits, the first not '0', are the text of their value. */
  lemma TwoDigitText(s: Bytes)
    requires |s| == 2 && AllDigits(s) && s[0] != '0'
    ensures DecimalText(10 * DigitValue(s[0]) + DigitValue(s[1])) == s
  {
    assert DecimalText(DigitValue(s[0])) == [s[0]];
    DecimalTextAppend(DigitValue(s[0]), s[1]);
    assert [s[0]] + [s[1]] == s;
  }

  /** Three digits, the first not '0', are the text of their value. */
  lemma ThreeDigitText(s: Bytes)
    requires |s| == 3 && AllDigits(s) && s[0] != '0'
    ensures DecimalText(DecimalValue(s)) == s
  {
    DecimalValueOfThree(s);
    var m := 10 * DigitValue(s[0]) + DigitValue(s[1]);
    TwoDigitText(s[..2]);
    DecimalTextAppend(m, s[2]);
    assert DecimalValue(s) == 10 * m + DigitValue(s[2]);
    assert s[..2] + [s[2]] == s;
  }

  lemma ThreeDigitOctet(s: Bytes)
    requires |s| == 3 && IsOctetText(s)
    ensures AllDigits(s) && DecimalValue(s) <= 255
    ensures DecimalText(DecimalValue(s)) == s
  {
    DecimalValueOfThree(s);
    ThreeDigitText(s);
  }

  /** Every octet text is the decimal rendering of a number up to 255: no leading zeros. */
  lemma OctetTextIsCanonical(s: Bytes)
    requires IsOctetText(s)
    ensures AllDigits(s) && DecimalValue(s) <= 255
    ensures DecimalText(DecimalValue(s)) == s
  {
    if |s| == 1 {
      DecimalValueOfOne(s);
      assert DecimalText(DigitValue(s[0])) == [s[0]];
    } else if |s| == 2 {
      DecimalValueOfTwo(s);
      TwoDigitText(s);
    } else {
      ThreeDigitOctet(s);
    }
  }

  /** The four fields of an accepted dotted quad denote numbers up to 255. */
  lemma OctetFieldsBounded(fields: seq<Bytes>)
    requires |fields| == 4 && forall i :: 0 <= i < 4 ==> IsOctetText(fields[i])
    ensures forall i :: 0 <= i < 4 ==> AllDigits(fields[i]) && DecimalValue(fields[i]) <= 255
  {
    forall i | 0 <= i < 4 ensures AllDigits(fields[i]) && DecimalValue(fields[i]) <= 255 {
      OctetTextIsCanonical(fields[i]);
    }
  }

  /** Every number up to 255 renders as an octet text. */
  lemma CanonicalTextIsOctet(n: nat)
    requires n <= 255
    ensures IsOctetText(DecimalText(n))
  {
    var s := DecimalText(n);
    if 10 <= n < 100 {
      assert DecimalText(n / 10) == [DigitByte(n / 10)];
      assert s == [DigitByte(n / 10)] + [DigitByte(n % 10)];
    } else if n >= 100 {
      var h, t := n / 100, (n / 10) % 10;
      assert (n / 10) / 10 == h;
      assert DecimalText(h) == [DigitByte(h)];
      assert DecimalText(n / 10) == [DigitByte(h)] + [DigitByte(t)];
      assert s == [DigitByte(h)] + [DigitByte(t)] + [DigitByte(n % 10)];
      if h == 2 {
        assert t <= 5;
        assert t == 5 ==> n % 10 <= 5;
      }
    }
  }

  // ---------------------------------------------------------------------
  // IPv4: the expression at MailValidationHelper.php:48
  // ---------------------------------------------------------------------

  /** The value form of a dotted quad: four numbers, each at most 255. */
  predicate IsQuad(q: seq<nat>) {
    |q| == 4 && forall i :: 0 <= i < 4 ==> q[i] <= 255
  }

  /** octet(\.octet){3}, anchored at both ends: four dot-separated octet texts. */
  predicate IsIpv4Text(s: Bytes) {
    var fields := Explode(s, Dot);
    |fields| == 4 && forall i :: 0 <= i < 4 ==> IsOctetText(fields[i])
  }

  function QuadTexts(q: seq<nat>): (ts: seq<Bytes>)
    requires IsQuad(q)
    ensures |ts| == 4 && forall i :: 0 <= i < 4 ==> ts[i] == DecimalText(q[i])
  {
    [DecimalText(q[0]), DecimalText(q[1]), DecimalText(q[2]), DecimalText(q[3])]
  }

  /** The dotted-quad rendering of four octets. */
  function FormatIpv4(q: seq<nat>): Bytes
    requires IsQuad(q)
  {
    Implode(QuadTexts(q), Dot)
  }

  /** The octets an accepted dotted quad denotes. */
  function ParseIpv4(s: Bytes): (q: Option<seq<nat>>)
    ensures q.Some? <==> IsIpv4Text(s)
    ensures q.Some? ==> IsQuad(q.value)
  {
    var fields := Explode(s, Dot);
    if |fields| == 4 && forall i :: 0 <= i < 4 ==> IsOctetText(fields[i]) then
      OctetFieldsBounded(fields);
      Some([DecimalValue(fields[0]), DecimalValue(fields[1]), DecimalValue(fields[2]), DecimalValue(fields[3])])
    else
      None
  }

  /** Every accepted text is the canonical rendering of the octets it denotes. */
  lemma Ipv4TextIsCanonical(s: Bytes)
    requires IsIpv4Text(s)
    ensures ParseIpv4(s).Some? && FormatIpv4(ParseIpv4(s).value) == s
  {
    var fields := Explode(s, Dot);
    var q := ParseIpv4(s).value;
    forall i | 0 <= i < 4 ensures QuadTexts(q)[i] == fields[i] {
      OctetTextIsCanonical(fields[i]);
    }
    assert QuadTexts(q) == fields;
  }

  /** Every four octets up to 255 render as an accepted text that parses back to them. */
  lemma Ipv4RoundTrip(q: seq<nat>)
    requires IsQuad(q)
    ensures IsIpv4Text(FormatIpv4(q))
    ensures ParseIpv4(FormatIpv4(q)) == Some(q)
  {
    var ts := QuadTexts(q);
    forall i | 0 <= i < 4 ensures Dot !in ts[i] && IsOctetText(ts[i]) && DecimalValue(ts[i]) == q[i] {
      CanonicalTextIsOctet(q[i]);
    }
    ExplodeImplode(ts, Dot);
    assert Explode(FormatIpv4(q), Dot) == ts;
    assert [DecimalValue(ts[0]), DecimalValue(ts[1]), DecimalValue(ts[2]), DecimalValue(ts[3])] == q;
  }

  // ---------------------------------------------------------------------
  // IPv6: the expression at MailValidationHelper.php:49
  // ---------------------------------------------------------------------

  /** [\dA-F]{1,4} under the case-insensitive flag. */
  predicate IsHexGroup(g: Bytes) {
    1 <= |g| <= 4 && forall i :: 0 <= i < |g| ==> IsHexDigit(g[i])
  }

  predicate AllHexGroups(gs: seq<Bytes>) {
    forall i :: 0 <= i < |gs| ==> IsHexGroup(gs[i])
  }

  /**
   * An IPv6 text: hex groups exactly as written (case and leading zeros
   * kept), with an optional dotted quad in place of the last two groups;
   * Compressed has a "::" between its left and right groups.
   */
  datatype Ipv6Text =
    | Full(groups: seq<Bytes>, v4: Option<seq<nat>>)
    | Compressed(left: seq<Bytes>, right: seq<Bytes>, v4: Option<seq<nat>>)

  predicate ValidTail(v4: Option<seq<nat>>) {
    v4.Some? ==> IsQuad(v4.value)
  }

  /** A dotted quad takes the room of two groups. */
  function TailUnits(v4: Option<seq<nat>>): nat {
    if v4.Some? then 2 else 0
  }

  /**
   * Eight units in the full form; at most seven written units beside "::",
   * which stands for at least one group of zeros.
   */
  predicate WellFormed(t: Ipv6Text) {
    match t
    case Full(gs, v4) => AllHexGroups(gs) && ValidTail(v4) && |gs| + TailUnits(v4) == 8
    case Compressed(l, r, v4) => AllHexGroups(l) && AllHexGroups(r) && ValidTail(v4) && |l| + |r| + TailUnits(v4) <= 7
  }

  /** The colon-separated pieces: the groups, then the dotted quad if there is one. */
  function Pieces(gs: seq<Bytes>, v4: Option<seq<nat>>): seq<Bytes>
    requires ValidTail(v4)
  {
    gs + if v4.Some? then [FormatIpv4(v4.value)] else []
  }

  function JoinPieces(ps: seq<Bytes>): Bytes {
    if ps == [] then [] else Implode(ps, Colon)
  }

  /** The text an IPv6 value is written as. */
  function FormatIpv6(t: Ipv6Text): Bytes
    requires WellFormed(t)
  {
    match t
    case Full(gs, v4) => JoinPieces(Pieces(gs, v4))
    case Compressed(l, r, v4) => JoinPieces(l) + [Colon, Colon] + JoinPieces(Pieces(r, v4))
  }

  predicate DoubleColonAt(s: Bytes, i: int) {
    0 <= i < |s| - 1 && s[i] == Colon && s[i + 1] == Colon
  }

  /** The position of the first "::", if any. */
  function FindDoubleColon(s: Bytes): (r: Option<nat>)
    ensures r.None? <==> forall i :: 0 <= i < |s| - 1 ==> !DoubleColonAt(s, i)
    ensures r.Some? ==> DoubleColonAt(s, r.value) && forall i :: 0 <= i < r.value ==> !DoubleColonAt(s, i)
  {
    if |s| < 2 then None
    else if s[0] == Colon && s[1] == Colon then
      assert DoubleColonAt(s, 0);
      Some(0)
    else match FindDoubleColon(s[1..])
      case None =>
        assert forall i :: 1 <= i < |s| - 1 ==> DoubleColonAt(s, i) == DoubleColonAt(s[1..], i - 1);
        None
      case Some(k) =>
        assert forall i :: 1 <= i < |s| - 1 ==> DoubleColonAt(s, i) == DoubleColonAt(s[1..], i - 1);
        assert DoubleColonAt(s, k + 1);
        Some(k + 1)
  }

  /** Colon-separated pieces: hex groups, the last of which may be a dotted quad instead. */
  function ParsePieces(ps: seq<Bytes>): (r: Option<(seq<Bytes>, Option<seq<nat>>)>)
    requires |ps| >= 1
    ensures r.Some? ==> AllHexGroups(r.value.0) && ValidTail(r.value.1)
  {
    var last := ps[|ps| - 1];
    if !AllHexGroups(ps[..|ps| - 1]) then None
    else if IsHexGroup(last) then Some((ps, None))
    else match ParseIpv4(last)
      case Some(q) => Some((ps[..|ps| - 1], Some(q)))
      case None => None
  }

  /** The hex groups left of "::": none, or colon-separated groups. */
  function ParseLeft(l: Bytes): Option<seq<Bytes>> {
    if l == [] then Some([])
    else
      var gs := Explode(l, Colon);
      if AllHexGroups(gs) then Some(gs) else None
  }

  /** The pieces right of "::": none, or colon-separated pieces. */
  function ParseRight(r: Bytes): Option<(seq<Bytes>, Option<seq<nat>>)> {
    if r == [] then Some(([], None)) else ParsePieces(Explode(r, Colon))
  }

  /** The IPv6 value an accepted text denotes. */
  function ParseIpv6(s: Bytes): Option<Ipv6Text> {
    match FindDoubleColon(s)
    case None =>
      (match ParsePieces(Explode(s, Colon))
       case Some((gs, v4)) =>
         if |gs| + TailUnits(v4) == 8 then Some(Full(gs, v4)) else None
       case None => None)
    case Some(i) =>
      match (ParseLeft(s[..i]), ParseRight(s[i + 2..]))
      case (Some(l), Some((r, v4))) =>
        if |l| + |r| + TailUnits(v4) <= 7 then Some(Compressed(l, r, v4)) else None
      case _ => None
  }

  /** The IPv6 expression at MailValidationHelper.php:49 accepts s. */
  predicate IsIpv6Text(s: Bytes) {
    ParseIpv6(s).Some?
  }

  // ---------------------------------------------------------------------
  // The IPv6 recogniser accepts exactly the formatted well-formed values
  // ---------------------------------------------------------------------

  /** A dotted quad has dots, and nothing but digits and dots. */
  lemma Ipv4TextBytes(q: seq<nat>, x: Byte)
    requires IsQuad(q)
    ensures Dot in FormatIpv4(q)
    ensures x in FormatIpv4(q) ==> x == Dot || IsDigit(x)
  {
    ImplodeBytes(QuadTexts(q), Dot, Dot);
    ImplodeBytes(QuadTexts(q), Dot, x);
  }

  /** The pieces of a well-formed value are non-empty and hold no colon. */
  lemma PiecesAreColonFree(gs: seq<Bytes>, v4: Option<seq<nat>>)
    requires AllHexGroups(gs) && ValidTail(v4)
    ensures forall i :: 0 <= i < |Pieces(gs, v4)| ==> Pieces(gs, v4)[i] != [] && Colon !in Pieces(gs, v4)[i]
  {
    var ps := Pieces(gs, v4);
    forall i | 0 <= i < |ps| ensures ps[i] != [] && Colon !in ps[i] {
      if i < |gs| {
        assert ps[i] == gs[i];
        assert IsHexGroup(gs[i]);
      } else {
        Ipv4TextBytes(v4.value, Colon);
      }
    }
  }

  lemma {:induction false} ImplodeEndsWithLast(ps: seq<Bytes>, c: Byte)
    requires |ps| >= 1 && ps[|ps| - 1] != []
    ensures |Implode(ps, c)| >= 1
    ensures Implode(ps, c)[|Implode(ps, c)| - 1] == ps[|ps| - 1][|ps[|ps| - 1]| - 1]
  {
    if |ps| > 1 {
      ImplodeEndsWithLast(ps[1..], c);
    }
  }

  /** Joining non-empty colon-free pieces with single colons never writes "::". */
  lemma {:induction false} NoDoubleColonInJoin(ps: seq<Bytes>)
    requires |ps| >= 1
    requires forall i :: 0 <= i < |ps| ==> ps[i] != [] && Colon !in ps[i]
    ensures forall j :: 0 <= j < |Implode(ps, Colon)| - 1 ==> !DoubleColonAt(Implode(ps, Colon), j)
  {
    if |ps| > 1 {
      var rest := Implode(ps[1..], Colon);
      var s := Implode(ps, Colon);
      NoDoubleColonInJoin(ps[1..]);
      ImplodeStartsWithFirst(ps[1..], Colon);
      assert s == ps[0] + [Colon] + rest;
      forall j | 0 <= j < |s| - 1 ensures !DoubleColonAt(s, j) {
        if j < |ps[0]| {
          assert s[j] == ps[0][j];
        } else if j == |ps[0]| {
          assert s[j + 1] == rest[0] == ps[1][0];
        } else {
          assert s[j] == rest[j - |ps[0]| - 1] && s[j + 1] == rest[j - |ps[0]|];
          assert !DoubleColonAt(rest, j - |ps[0]| - 1);
        }
      }
    }
  }

  /** Parsing pieces recovers the groups and the dotted quad they were made of. */
  lemma ParsePiecesOfPieces(gs: seq<Bytes>, v4: Option<seq<nat>>)
    requires AllHexGroups(gs) && ValidTail(v4) && |Pieces(gs, v4)| >= 1
    ensures ParsePieces(Pieces(gs, v4)) == Some((gs, v4))
  {
    var ps := Pieces(gs, v4);
    if v4.Some? {
      var q := v4.value;
      assert ps[..|ps| - 1] == gs;
      Ipv4TextBytes(q, Dot);
      assert !IsHexGroup(FormatIpv4(q));
      Ipv4RoundTrip(q);
    } else {
      assert ps == gs;
      assert ps[..|ps| - 1] == gs[..|gs| - 1];
    }
  }

  /** Parsed pieces are the pieces of what they were parsed into. */
  lemma ParsePiecesSound(ps: seq<Bytes>)
    requires |ps| >= 1 && ParsePieces(ps).Some?
    ensures Pieces(ParsePieces(ps).value.0, ParsePieces(ps).value.1) == ps
  {
    var last := ps[|ps| - 1];
    if !IsHexGroup(last) {
      Ipv4TextIsCanonical(last);
      assert ps[..|ps| - 1] + [last] == ps;
    }
  }

  lemma ParseLeftSound(l: Bytes)
    requires ParseLeft(l).Some?
    ensures AllHexGroups(ParseLeft(l).value)
    ensures JoinPieces(ParseLeft(l).value) == l
  {
  }

  lemma ParseRightSound(r: Bytes)
    requires ParseRight(r).Some?
    ensures AllHexGroups(ParseRight(r).value.0) && ValidTail(ParseRight(r).value.1)
    ensures JoinPieces(Pieces(ParseRight(r).value.0, ParseRight(r).value.1)) == r
  {
    if r != [] {
      ParsePiecesSound(Explode(r, Colon));
    }
  }

  lemma FullParseSound(s: Bytes)
    requires FindDoubleColon(s).None? && ParseIpv6(s).Some?
    ensures WellFormed(ParseIpv6(s).value)
    ensures FormatIpv6(ParseIpv6(s).value) == s
  {
    ParsePiecesSound(Explode(s, Colon));
  }

  lemma CompressedParseSound(s: Bytes, i: nat)
    requires FindDoubleColon(s) == Some(i) && ParseIpv6(s).Some?
    ensures WellFormed(ParseIpv6(s).value)
    ensures FormatIpv6(ParseIpv6(s).value) == s
  {
    SplitAtDoubleColon(s, i);
    CompressedFormat(s[..i], s[i + 2..]);
  }

  lemma SplitAtDoubleColon(s: Bytes, i: int)
    requires DoubleColonAt(s, i)
    ensures s == s[..i] + [Colon, Colon] + s[i + 2..]
  {
    assert s[i..i + 2] == [Colon, Colon];
    assert s == s[..i] + s[i..i + 2] + s[i + 2..];
  }

  /** The value parsed from the two sides of "::" is written back as those sides around "::". */
  lemma CompressedFormat(l: Bytes, r: Bytes)
    requires ParseLeft(l).Some? && ParseRight(r).Some?
    requires |ParseLeft(l).value| + |ParseRight(r).value.0| + TailUnits(ParseRight(r).value.1) <= 7
    ensures var t := Compressed(ParseLeft(l).value, ParseRight(r).value.0, ParseRight(r).value.1);
      WellFormed(t) && FormatIpv6(t) == l + [Colon, Colon] + r
  {
    ParseLeftSound(l);
    ParseRightSound(r);
  }

  /** Soundness: whatever the recogniser accepts is a well-formed value, written as Format writes it. */
  lemma Ipv6ParseSound(s: Bytes)
    requires ParseIpv6(s).Some?
    ensures WellFormed(ParseIpv6(s).value)
    ensures FormatIpv6(ParseIpv6(s).value) == s
  {
    match FindDoubleColon(s)
    case None => FullParseSound(s);
    case Some(i) => CompressedParseSound(s, i);
  }

  lemma FullComplete(gs: seq<Bytes>, v4: Option<seq<nat>>)
    requires WellFormed(Full(gs, v4))
    ensures ParseIpv6(FormatIpv6(Full(gs, v4))) == Some(Full(gs, v4))
  {
    var ps := Pieces(gs, v4);
    PiecesAreColonFree(gs, v4);
    NoDoubleColonInJoin(ps);
    ExplodeImplode(ps, Colon);
    ParsePiecesOfPieces(gs, v4);
  }

  /** In a compressed text, the first "::" is the one Format wrote. */
  lemma FirstDoubleColonOfCompressed(l: seq<Bytes>, jr: Bytes)
    requires AllHexGroups(l)
    ensures FindDoubleColon(JoinPieces(l) + [Colon, Colon] + jr) == Some(|JoinPieces(l)|)
  {
    var jl := JoinPieces(l);
    var s := jl + [Colon, Colon] + jr;
    assert DoubleColonAt(s, |jl|);
    if l != [] {
      PiecesAreColonFree(l, None);
      assert Pieces(l, None) == l;
      NoDoubleColonInJoin(l);
      ImplodeEndsWithLast(l, Colon);
      forall j | 0 <= j < |jl| ensures !DoubleColonAt(s, j) {
        if j < |jl| - 1 {
          assert !DoubleColonAt(jl, j);
        } else {
          assert s[j] == l[|l| - 1][|l[|l| - 1]| - 1];
        }
      }
    }
  }

  lemma ParseLeftOfJoin(l: seq<Bytes>)
    requires AllHexGroups(l)
    ensures ParseLeft(JoinPieces(l)) == Some(l)
  {
    if l != [] {
      PiecesAreColonFree(l, None);
      assert Pieces(l, None) == l;
      ExplodeImplode(l, Colon);
    }
  }

  lemma ParseRightOfJoin(r: seq<Bytes>, v4: Option<seq<nat>>)
    requires AllHexGroups(r) && ValidTail(v4)
    ensures ParseRight(JoinPieces(Pieces(r, v4))) == Some((r, v4))
  {
    var rs := Pieces(r, v4);
    if rs != [] {
      PiecesAreColonFree(r, v4);
      ExplodeImplode(rs, Colon);
      ParsePiecesOfPieces(r, v4);
    }
  }

  lemma CompressedComplete(l: seq<Bytes>, r: seq<Bytes>, v4: Option<seq<nat>>)
    requires WellFormed(Compressed(l, r, v4))
    ensures ParseIpv6(FormatIpv6(Compressed(l, r, v4))) == Some(Compressed(l, r, v4))
  {
    var jl, jr := JoinPieces(l), JoinPieces(Pieces(r, v4));
    var s := jl + [Colon, Colon] + jr;
    FirstDoubleColonOfCompressed(l, jr);
    assert s[..|jl|] == jl && s[|jl| + 2..] == jr;
    ParseLeftOfJoin(l);
    ParseRightOfJoin(r, v4);
  }

  /** Completeness: every well-formed value is accepted in the form Format writes it, and parses back to itself. */
  lemma Ipv6ParseComplete(t: Ipv6Text)
    requires WellFormed(t)
    ensures ParseIpv6(FormatIpv6(t)) == Some(t)
  {
    match t
    case Full(gs, v4) => FullComplete(gs, v4);
    case Compressed(l, r, v4) => CompressedComplete(l, r, v4);
  }

  // ---------------------------------------------------------------------
  // What accepted texts are made of
  // ---------------------------------------------------------------------

  /** An accepted dotted quad holds only digits and dots. */
  lemma Ipv4Alphabet(s: Bytes, x: Byte)
    requires IsIpv4Text(s) && x in s
    ensures x == Dot || IsDigit(x)
  {
    Ipv4TextIsCanonical(s);
    Ipv4TextBytes(ParseIpv4(s).value, x);
  }

  lemma PiecesAlphabet(gs: seq<Bytes>, v4: Option<seq<nat>>, x: Byte)
    requires AllHexGroups(gs) && ValidTail(v4)
    requires x in JoinPieces(Pieces(gs, v4))
    ensures x == Colon || x == Dot || IsHexDigit(x)
  {
    var ps := Pieces(gs, v4);
    ImplodeBytes(ps, Colon, x);
    if x != Colon {
      var i :| 0 <= i < |ps| && x in ps[i];
      if i < |gs| {
        assert ps[i] == gs[i] && IsHexGroup(gs[i]);
      } else {
        Ipv4TextBytes(v4.value, x);
      }
    }
  }

  /** An accepted IPv6 text holds only hex digits, colons and dots. */
  lemma Ipv6Alphabet(s: Bytes, x: Byte)
    requires IsIpv6Text(s) && x in s
    ensures x == Colon || x == Dot || IsHexDigit(x)
  {
    Ipv6ParseSound(s);
    match ParseIpv6(s).value
    case Full(gs, v4) =>
      PiecesAlphabet(gs, v4, x);
    case Compressed(l, r, v4) =>
      assert Pieces(l, None) == l;
      if x in JoinPieces(l) {
        PiecesAlphabet(l, None, x);
      } else if x in JoinPieces(Pieces(r, v4)) {
        PiecesAlphabet(r, v4, x);
      }
  }

  /** Every accepted IPv6 text has a colon; so no dotted quad alone is one. */
  lemma Ipv6HasColon(s: Bytes)
    requires IsIpv6Text(s)
    ensures Colon in s
  {
    Ipv6ParseSound(s);
    match ParseIpv6(s).value
    case Full(gs, v4) =>
      ImplodeBytes(Pieces(gs, v4), Colon, Colon);
    case Compressed(l, r, v4) =>
      assert s[|JoinPieces(l)|] == Colon;
  }

  /** An accepted IPv6 text writes "::" at most once. */
  lemma Ipv6AtMostOneDoubleColon(s: Bytes, i: int, j: int)
    requires IsIpv6Text(s)
    requires DoubleColonAt(s, i) && DoubleColonAt(s, j)
    ensures i == j
  {
    match FindDoubleColon(s)
    case None =>
    case Some(k) =>
      var t := ParseIpv6(s).value;
      Ipv6ParseSound(s);
      var jl, jr := JoinPieces(t.left), JoinPieces(Pieces(t.right, t.v4));
      assert s == jl + [Colon, Colon] + jr;
      FirstDoubleColonOfCompressed(t.left, jr);
      JoinedTailHasNoDoubleColon(t.right, t.v4);
      NoDoubleColonAfterFirst(jl, jr);
  }

  /** The pieces right of "::" neither start with a colon nor hold "::". */
  lemma JoinedTailHasNoDoubleColon(r: seq<Bytes>, v4: Option<seq<nat>>)
    requires AllHexGroups(r) && ValidTail(v4)
    ensures var jr := JoinPieces(Pieces(r, v4));
      (jr == [] || jr[0] != Colon) && forall m :: 0 <= m < |jr| - 1 ==> !DoubleColonAt(jr, m)
  {
    var rs := Pieces(r, v4);
    if rs != [] {
      PiecesAreColonFree(r, v4);
      NoDoubleColonInJoin(rs);
      ImplodeStartsWithFirst(rs, Colon);
      assert JoinPieces(rs)[0] == rs[0][0];
    }
  }

  /** Behind a "::", a text that neither starts with a colon nor holds "::" adds no second "::". */
  lemma NoDoubleColonAfterFirst(jl: Bytes, jr: Bytes)
    requires jr == [] || jr[0] != Colon
    requires forall m :: 0 <= m < |jr| - 1 ==> !DoubleColonAt(jr, m)
    ensures forall m :: |jl| < m < |jl + [Colon, Colon] + jr| - 1 ==> !DoubleColonAt(jl + [Colon, Colon] + jr, m)
  {
    var s := jl + [Colon, Colon] + jr;
    var k := |jl|;
    forall m | k < m < |s| - 1 ensures !DoubleColonAt(s, m) {
      if m == k + 1 {
        assert s[m + 1] == jr[0];
      } else {
        assert s[m] == jr[m - k - 2] && s[m + 1] == jr[m - k - 1];
        assert !DoubleColonAt(jr, m - k - 2);
      }
    }
  }
}
