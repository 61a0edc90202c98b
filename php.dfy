/**
 * Byte strings and the few PHP runtime behaviours that the two validator
 * classes lean on: `empty()`, the string a value converts to, `strrpos`,
 * `strtoupper`, and splitting at a separator byte (`explode`, and PHP 5's
 * `split` when its pattern is a single literal byte).
 */
module Php {

  /** A PHP string is a sequence of bytes; a Byte is a char no larger than 0xFF. */
  type Byte = c: char | c as int < 256 witness 'a'
  type Bytes = seq<Byte>

  datatype Option<T> = None | Some(value: T)

  const At: Byte := '@'
  const Dot: Byte := '.'
  const Colon: Byte := ':'
  const Newline: Byte := '\n'
  const Nul: Byte := '\0'

  predicate IsDigit(c: Byte) { '0' <= c <= '9' }
  predicate IsLowerLetter(c: Byte) { 'a' <= c <= 'z' }
  predicate IsUpperLetter(c: Byte) { 'A' <= c <= 'Z' }

  /** The class [0-9A-Fa-f]: `[\dA-F]` under the case-insensitive flag. */
  predicate IsHexDigit(c: Byte) { IsDigit(c) || 'a' <= c <= 'f' || 'A' <= c <= 'F' }

  /** `strtoupper` on one byte: only the ASCII letters a-z change. */
  function UpperByte(c: Byte): (u: Byte)
    ensures IsLowerLetter(c) ==> IsUpperLetter(u) && u as int == c as int - 32
    ensures !IsLowerLetter(c) ==> u == c
  {
    if IsLowerLetter(c) then (c as int - 32) as char else c
  }

  /** `strtoupper` on a string, byte by byte. */
  function ToUpper(s: Bytes): (r: Bytes)
    ensures |r| == |s|
    ensures forall i :: 0 <= i < |s| ==> r[i] == UpperByte(s[i])
  {
    if s == [] then [] else [UpperByte(s[0])] + ToUpper(s[1..])
  }

  /** The values a caller hands to the fluent setters: null, a boolean or a string. */
  datatype Value = Null | Bool(b: bool) | Str(s: Bytes)

  /** PHP's `empty()`: null, false, the empty string and the string "0". */
  predicate IsEmpty(v: Value) {
    v == Null || v == Bool(false) || v == Str([]) || v == Str("0")
  }

  /** The string a value converts to where PHP expects one. */
  function AsString(v: Value): Bytes {
    match v
    case Null => []
    case Bool(b) => if b then "1" else []
    case Str(s) => s
  }

  /** A value is empty exactly when it converts to "" or "0". */
  lemma EmptyIffFalsyString(v: Value)
    ensures IsEmpty(v) <==> AsString(v) == [] || AsString(v) == "0"
  {
    if v.Bool? && v.b {
      assert AsString(v) == "1";
      assert AsString(v)[0] != "0"[0];
    }
  }

  /** `strrpos($s, $c)`: the position of the last occurrence of c, or None (PHP's false). */
  function LastIndexOf(s: Bytes, c: Byte): (r: Option<nat>)
    ensures r.None? <==> c !in s
    ensures r.Some? ==> r.value < |s| && s[r.value] == c && c !in s[r.value + 1..]
  {
    if |s| == 0 then None
    else if s[|s| - 1] == c then Some(|s| - 1)
    else
      assert s == s[..|s| - 1] + [s[|s| - 1]];
      LastIndexOf(s[..|s| - 1], c)
  }

  /** The position of the first occurrence of c, or None: the search `strstr` makes for its needle. */
  function IndexOf(s: Bytes, c: Byte): (r: Option<nat>)
    ensures r.None? <==> c !in s
    ensures r.Some? ==> r.value < |s| && s[r.value] == c && c !in s[..r.value]
  {
    if |s| == 0 then None
    else if s[0] == c then Some(0)
    else match IndexOf(s[1..], c)
      case None => None
      case Some(k) =>
        assert s[..k + 1] == [s[0]] + s[1..][..k];
        Some(k + 1)
  }

  /**
   * `explode($c, $s)`: the fields between occurrences of c, from left to
   * right. There is always at least one field, and no field contains c.
   */
  function Explode(s: Bytes, c: Byte): (fields: seq<Bytes>)
    ensures |fields| >= 1
    ensures forall i :: 0 <= i < |fields| ==> c !in fields[i]
    ensures Implode(fields, c) == s
  {
    if |s| == 0 then [[]]
    else
      var rest := Explode(s[1..], c);
      if s[0] == c then
        assert ([[]] + rest)[1..] == rest;
        [[]] + rest
      else
        var fields := [[s[0]] + rest[0]] + rest[1..];
        assert fields[1..] == rest[1..];
        assert c !in fields[0];
        fields
  }

  /** `implode($c, $fields)`: the fields with c between neighbours. */
  function Implode(fields: seq<Bytes>, c: Byte): (s: Bytes)
    requires |fields| >= 1
  {
    if |fields| == 1 then fields[0] else fields[0] + [c] + Implode(fields[1..], c)
  }

  /** A string without the separator is a single field. */
  lemma {:induction false} ExplodeWithoutSeparator(s: Bytes, c: Byte)
    requires c !in s
    ensures Explode(s, c) == [s]
  {
    if |s| > 0 {
      ExplodeWithoutSeparator(s[1..], c);
      assert [s[0]] + s[1..] == s;
    }
  }

  /** The first field ends at the first separator. */
  lemma {:induction false} ExplodeAfterField(a: Bytes, c: Byte, b: Bytes)
    requires c !in a
    ensures Explode(a + [c] + b, c) == [a] + Explode(b, c)
  {
    if |a| == 0 {
      assert a + [c] + b == [c] + b;
      assert ([c] + b)[1..] == b;
    } else {
      ExplodeAfterField(a[1..], c, b);
      assert (a + [c] + b)[1..] == a[1..] + [c] + b;
      assert [a[0]] + a[1..] == a;
    }
  }

  /** Splitting undoes joining whenever no field holds the separator. */
  lemma {:induction false} ExplodeImplode(fields: seq<Bytes>, c: Byte)
    requires |fields| >= 1
    requires forall i :: 0 <= i < |fields| ==> c !in fields[i]
    ensures Explode(Implode(fields, c), c) == fields
  {
    if |fields| == 1 {
      ExplodeWithoutSeparator(fields[0], c);
    } else {
      ExplodeImplode(fields[1..], c);
      ExplodeAfterField(fields[0], c, Implode(fields[1..], c));
      assert [fields[0]] + fields[1..] == fields;
    }
  }

  /** Joining non-empty fields gives a string that starts with the first field. */
  lemma {:induction false} ImplodeStartsWithFirst(fields: seq<Bytes>, c: Byte)
    requires |fields| >= 1
    ensures |Implode(fields, c)| >= |fields[0]|
    ensures Implode(fields, c)[..|fields[0]|] == fields[0]
  {
    if |fields| > 1 {
      assert Implode(fields, c) == fields[0] + ([c] + Implode(fields[1..], c));
    }
  }

  /** Joining keeps exactly the bytes of the fields, plus the separators. */
  lemma {:induction false} ImplodeBytes(fields: seq<Bytes>, c: Byte, x: Byte)
    requires |fields| >= 1
    ensures x in Implode(fields, c) <==> (x == c && |fields| > 1) || exists i :: 0 <= i < |fields| && x in fields[i]
  {
    if |fields| > 1 {
      ImplodeBytes(fields[1..], c, x);
      var rest := Implode(fields[1..], c);
      assert Implode(fields, c) == fields[0] + [c] + rest;
      if x in fields[0] {
        assert x in Implode(fields, c);
      }
      if exists i :: 0 <= i < |fields| && x in fields[i] {
        var i :| 0 <= i < |fields| && x in fields[i];
        if i > 0 {
          assert fields[1..][i - 1] == fields[i];
        }
      }
      if exists i :: 0 <= i < |fields| - 1 && x in fields[1..][i] {
        var i :| 0 <= i < |fields| - 1 && x in fields[1..][i];
        assert fields[1..][i] == fields[i + 1];
      }
    }
  }
}
