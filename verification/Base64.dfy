/** The base64 encoding of section 4 of RFC 4648, with the leniencies of Go's decoder. */
module Base64 {
  import opened Bytes

  function Digit(n: nat): Byte
    requires n < 64
  {
    if n < 26 then (n + 65) as char            // A-Z
    else if n < 52 then (n + 71) as char       // a-z
    else if n < 62 then (n - 4) as char        // 0-9
    else if n == 62 then '+' else '/'
  }

  function Value(c: Byte): Option<nat> {
    if 'A' <= c <= 'Z' then Some(c as int - 65)
    else if 'a' <= c <= 'z' then Some(c as int - 71)
    else if '0' <= c <= '9' then Some(c as int + 4)
    else if c == '+' then Some(62)
    else if c == '/' then Some(63)
    else None
  }

  lemma ValueOfDigit(n: nat)
    requires n < 64
    ensures Value(Digit(n)) == Some(n)
  {
  }

  lemma DigitOfValue(c: Byte)
    ensures Value(c).Some? ==> Value(c).value < 64 && Digit(Value(c).value) == c
    ensures Value('=') == None
  {
  }

  lemma ValueBelow64(c: Byte)
    ensures Value(c).Some? ==> Value(c).value < 64
  {
  }

  function Encode(b: Bytes): Bytes {
    if b == [] then []
    else
      var x := b[0] as int;
      if |b| == 1 then [Digit(x / 4), Digit(x % 4 * 16), '=', '=']
      else
        var y := b[1] as int;
        if |b| == 2 then [Digit(x / 4), Digit(x % 4 * 16 + y / 16), Digit(y % 16 * 4), '=']
        else
          var z := b[2] as int;
          [Digit(x / 4), Digit(x % 4 * 16 + y / 16), Digit(y % 16 * 4 + z / 64), Digit(z % 64)] + Encode(b[3..])
  }

  /** The decoder skips line breaks wherever they stand. */
  function WithoutBreaks(s: Bytes): Bytes {
    if s == [] then []
    else if s[0] == '\r' || s[0] == '\n' then WithoutBreaks(s[1..])
    else [s[0]] + WithoutBreaks(s[1..])
  }

  function First(p: nat, q: nat): Byte
    requires p < 64 && q < 64
  {
    (p * 4 + q / 16) as char
  }

  function Second(q: nat, r: nat): Byte
    requires q < 64 && r < 64
  {
    (q % 16 * 16 + r / 4) as char
  }

  function Third(r: nat, t: nat): Byte
    requires r < 64 && t < 64
  {
    (r % 4 * 64 + t) as char
  }

  /** Groups of four; padding only in the last one; the unused low bits of the last digit are not checked. */
  function DecodeGroups(s: Bytes): Option<Bytes> {
    if s == [] then Some([])
    else if |s| < 4 then None
    else
      ValueBelow64(s[0]); ValueBelow64(s[1]); ValueBelow64(s[2]); ValueBelow64(s[3]);
      match (Value(s[0]), Value(s[1]))
      case (Some(p), Some(q)) =>
        if s[2] == '=' then
          if s[3] == '=' && |s| == 4 then Some([First(p, q)]) else None
        else
          (match Value(s[2])
           case None => None
           case Some(r) =>
             if s[3] == '=' then
               if |s| == 4 then Some([First(p, q), Second(q, r)]) else None
             else
               match Value(s[3])
               case None => None
               case Some(t) =>
                 match DecodeGroups(s[4..])
                 case None => None
                 case Some(rest) => Some([First(p, q), Second(q, r), Third(r, t)] + rest))
      case _ => None
  }

  function Decode(s: Bytes): Option<Bytes> {
    DecodeGroups(WithoutBreaks(s))
  }

  /** What base64 text is made of. */
  predicate IsText(c: Byte) {
    Value(c).Some? || c == '='
  }

  lemma {:induction false} EncodeIsText(b: Bytes)
    ensures forall i :: 0 <= i < |Encode(b)| ==> IsText(Encode(b)[i])
    ensures Encode(b) == [] <==> b == []
  {
    forall n: nat | n < 64 ensures Value(Digit(n)) == Some(n) {
      ValueOfDigit(n);
    }
    if |b| >= 3 {
      EncodeIsText(b[3..]);
    }
  }

  lemma {:induction false} NoBreaks(s: Bytes)
    requires forall i :: 0 <= i < |s| ==> s[i] != '\r' && s[i] != '\n'
    ensures WithoutBreaks(s) == s
  {
    if s != [] {
      NoBreaks(s[1..]);
    }
  }

  /** The digits of three bytes, and the bytes again. */
  lemma ThreeBytes(x: nat, y: nat, z: nat)
    requires x < 256 && y < 256 && z < 256
    ensures First(x / 4, x % 4 * 16 + y / 16) == x as char
    ensures Second(x % 4 * 16 + y / 16, y % 16 * 4 + z / 64) == y as char
    ensures Third(y % 16 * 4 + z / 64, z % 64) == z as char
  {
  }

  /** A group of four digits decodes to its three bytes, before whatever follows. */
  lemma FullGroup(p: nat, q: nat, r: nat, t: nat, rest: Bytes)
    requires p < 64 && q < 64 && r < 64 && t < 64
    ensures DecodeGroups([Digit(p), Digit(q), Digit(r), Digit(t)] + rest) ==
      match DecodeGroups(rest)
      case None => None
      case Some(bytes) => Some([First(p, q), Second(q, r), Third(r, t)] + bytes)
  {
    var s := [Digit(p), Digit(q), Digit(r), Digit(t)] + rest;
    assert s[4..] == rest;
    ValueOfDigit(p); ValueOfDigit(q); ValueOfDigit(r); ValueOfDigit(t);
  }

  lemma LastTwo(a: Byte, b: Byte)
    ensures DecodeGroups(Encode([a, b])) == Some([a, b])
  {
    var x, y := a as int, b as int;
    ThreeBytes(x, y, 0);
    ValueOfDigit(x / 4); ValueOfDigit(x % 4 * 16 + y / 16); ValueOfDigit(y % 16 * 4);
  }

  lemma LastOne(a: Byte)
    ensures DecodeGroups(Encode([a])) == Some([a])
  {
    ThreeBytes(a as int, 0, 0);
    ValueOfDigit(a as int / 4); ValueOfDigit(a as int % 4 * 16);
  }

  lemma {:induction false} GroupsRoundTrip(b: Bytes)
    ensures DecodeGroups(Encode(b)) == Some(b)
    decreases |b|
  {
    if |b| >= 3 {
      var x, y, z := b[0] as int, b[1] as int, b[2] as int;
      GroupsRoundTrip(b[3..]);
      ThreeBytes(x, y, z);
      FullGroup(x / 4, x % 4 * 16 + y / 16, y % 16 * 4 + z / 64, z % 64, Encode(b[3..]));
      assert b == [b[0], b[1], b[2]] + b[3..];
    } else if |b| == 2 {
      assert b == [b[0], b[1]];
      LastTwo(b[0], b[1]);
    } else if |b| == 1 {
      assert b == [b[0]];
      LastOne(b[0]);
    }
  }

  /** Decoding undoes encoding. */
  lemma RoundTrip(b: Bytes)
    ensures Decode(Encode(b)) == Some(b)
  {
    EncodeIsText(b);
    forall i | 0 <= i < |Encode(b)| ensures Encode(b)[i] != '\r' && Encode(b)[i] != '\n' {
      assert IsText(Encode(b)[i]);
    }
    NoBreaks(Encode(b));
    GroupsRoundTrip(b);
  }

  lemma {:induction false} BreaksOnly(s: Bytes)
    ensures WithoutBreaks(s) == [] ==> forall i :: 0 <= i < |s| ==> s[i] == '\r' || s[i] == '\n'
  {
    if s != [] && WithoutBreaks(s) == [] {
      BreaksOnly(s[1..]);
      forall i | 0 <= i < |s| ensures s[i] == '\r' || s[i] == '\n' {
        assert i > 0 ==> s[i] == s[1..][i - 1];
      }
    }
  }

  /** Only text consisting of line breaks decodes to nothing. */
  lemma DecodesToNothing(s: Bytes)
    ensures Decode(s) == Some([]) ==> forall i :: 0 <= i < |s| ==> s[i] == '\r' || s[i] == '\n'
  {
    BreaksOnly(s);
  }

  /** Breaks are dropped one by one: this and the next say all of WithoutBreaks. */
  lemma {:induction false} WithoutBreaksOfBoth(a: Bytes, b: Bytes)
    ensures WithoutBreaks(a + b) == WithoutBreaks(a) + WithoutBreaks(b)
  {
    if a == [] {
      assert [] + b == b;
    } else {
      assert a + b == [a[0]] + (a[1..] + b);
      WithoutBreaksOfBoth(a[1..], b);
    }
  }

  lemma WithoutBreaksOfOne(c: Byte)
    ensures WithoutBreaks([c]) == if c == '\r' || c == '\n' then [] else [c]
  {
    assert [c][1..] == [];
  }

  // ------------------------------------------------------------------ all texts

  /** Groups of four alphabet characters, of which the last one or two may be padding. */
  predicate IsBase64(s: Bytes, pads: nat) {
    && |s| % 4 == 0 && pads <= 2 && pads <= |s|
    && (forall i :: 0 <= i < |s| - pads ==> Value(s[i]).Some?)
    && (forall i :: |s| - pads <= i < |s| ==> s[i] == '=')
  }

  /** Exactly such text decodes. */
  lemma {:induction false} DecodesIff(s: Bytes)
    ensures DecodeGroups(s).Some? <==> exists pads: nat :: IsBase64(s, pads)
    decreases |s|
  {
    if s == [] {
      assert IsBase64(s, 0);
    } else if |s| >= 4 {
      DecodesIff(s[4..]);
      DigitOfValue(s[0]);
      forall pads: nat ensures IsBase64(s, pads) <==> BeginsGroup(s, pads) {
        GroupByGroup(s, pads);
      }
      if DecodeGroups(s).Some? {
        if s[2] == '=' {
          assert BeginsGroup(s, 2);
        } else if s[3] == '=' {
          assert BeginsGroup(s, 1);
        } else {
          var pads :| IsBase64(s[4..], pads);
          assert BeginsGroup(s, pads);
        }
      }
    }
  }

  /** The same by the first group. */
  predicate BeginsGroup(s: Bytes, pads: nat)
    requires |s| >= 4
  {
    && Value(s[0]).Some? && Value(s[1]).Some?
    && if |s| == 4 && pads > 0 then
         if pads == 1 then Value(s[2]).Some? && s[3] == '=' else pads == 2 && s[2] == s[3] == '='
       else Value(s[2]).Some? && Value(s[3]).Some? && IsBase64(s[4..], pads)
  }

  lemma GroupByGroup(s: Bytes, pads: nat)
    requires |s| >= 4
    ensures IsBase64(s, pads) <==> BeginsGroup(s, pads)
  {
    DigitOfValue(s[0]);
    var rest := s[4..];
    if IsBase64(s, pads) && !(|s| == 4 && pads > 0) {
      assert |s| >= 8 || pads == 0;
      assert forall i :: 0 <= i < |rest| ==> rest[i] == s[i + 4];
    }
    if BeginsGroup(s, pads) && !(|s| == 4 && pads > 0) {
      forall i | 4 <= i < |s| ensures s[i] == rest[i - 4] {}
    }
  }

  /** The text with the unused low bits of its last digit cleared. */
  function Canonical(s: Bytes, pads: nat): Bytes
    requires IsBase64(s, pads)
  {
    if pads == 0 then s
    else
      ValueBelow64(s[|s| - pads - 1]);
      var digit := Value(s[|s| - pads - 1]).value;
      s[|s| - pads - 1 := Digit(if pads == 1 then digit / 4 * 4 else digit / 16 * 16)]
  }

  /** Three bytes from four digits give the digits back. */
  lemma FourDigits(p: nat, q: nat, r: nat, t: nat)
    requires p < 64 && q < 64 && r < 64 && t < 64
    ensures var x, y, z := First(p, q) as int, Second(q, r) as int, Third(r, t) as int;
      && x == p * 4 + q / 16 && y == q % 16 * 16 + r / 4 && z == r % 4 * 64 + t
      && x / 4 == p && x % 4 * 16 + y / 16 == q && y % 16 * 4 + z / 64 == r && z % 64 == t
      && x % 4 * 16 == q / 16 * 16 && y % 16 * 4 == r / 4 * 4
  {
  }

  lemma EncodeOfGroup(p: nat, q: nat, r: nat, t: nat, rest: Bytes)
    requires p < 64 && q < 64 && r < 64 && t < 64
    ensures Encode([First(p, q), Second(q, r), Third(r, t)] + rest) == [Digit(p), Digit(q), Digit(r), Digit(t)] + Encode(rest)
  {
    FourDigits(p, q, r, t);
    assert ([First(p, q), Second(q, r), Third(r, t)] + rest)[3..] == rest;
  }

  lemma CanonicalOfGroup(s: Bytes, pads: nat)
    requires IsBase64(s, pads) && |s| >= 4 && !(|s| == 4 && pads > 0)
    ensures IsBase64(s[4..], pads) && Canonical(s, pads) == s[..4] + Canonical(s[4..], pads)
  {
    GroupByGroup(s, pads);
    assert s == s[..4] + s[4..];
  }

  lemma AsDigits(s: Bytes, p: nat, q: nat, r: nat, t: nat)
    requires |s| >= 4 && Value(s[0]) == Some(p) && Value(s[1]) == Some(q) && Value(s[2]) == Some(r) && Value(s[3]) == Some(t)
    ensures p < 64 && q < 64 && r < 64 && t < 64
    ensures s[..4] == [Digit(p), Digit(q), Digit(r), Digit(t)] && s == [Digit(p), Digit(q), Digit(r), Digit(t)] + s[4..]
  {
    DigitOfValue(s[0]); DigitOfValue(s[1]); DigitOfValue(s[2]); DigitOfValue(s[3]);
  }

  lemma FirstGroupEncodes(s: Bytes, pads: nat)
    requires IsBase64(s, pads) && |s| >= 4 && BeginsGroup(s, pads) && !(|s| == 4 && pads > 0)
    requires DecodeGroups(s[4..]).Some? && Encode(DecodeGroups(s[4..]).value) == Canonical(s[4..], pads)
    ensures DecodeGroups(s).Some? && Encode(DecodeGroups(s).value) == Canonical(s, pads)
  {
    var p, q, r, t := Value(s[0]).value, Value(s[1]).value, Value(s[2]).value, Value(s[3]).value;
    AsDigits(s, p, q, r, t);
    FullGroup(p, q, r, t, s[4..]);
    CanonicalOfGroup(s, pads);
    EncodeOfGroup(p, q, r, t, DecodeGroups(s[4..]).value);
  }

  lemma LastGroupEncodes(s: Bytes, pads: nat)
    requires IsBase64(s, pads) && |s| == 4 && BeginsGroup(s, pads) && pads > 0
    ensures DecodeGroups(s).Some? && Encode(DecodeGroups(s).value) == Canonical(s, pads)
  {
    DigitOfValue(s[0]); DigitOfValue(s[1]); DigitOfValue(s[2]);
    var p, q := Value(s[0]).value, Value(s[1]).value;
    if pads == 1 {
      FourDigits(p, q, Value(s[2]).value, 0);
    } else {
      FourDigits(p, q, 0, 0);
    }
  }

  /** What it decodes to is what encodes to it, those bits apart. */
  lemma {:induction false} DecodedEncodes(s: Bytes, pads: nat)
    requires IsBase64(s, pads)
    ensures DecodeGroups(s).Some? && Encode(DecodeGroups(s).value) == Canonical(s, pads)
    decreases |s|
  {
    DecodesIff(s);
    if s != [] {
      GroupByGroup(s, pads);
      if |s| == 4 && pads > 0 {
        LastGroupEncodes(s, pads);
      } else {
        DecodedEncodes(s[4..], pads);
        FirstGroupEncodes(s, pads);
      }
    }
  }

  /** Which texts decode, line breaks apart, and to what: the value whose encoding the text is, unused bits cleared. */
  lemma DecodeIsExact(text: Bytes, s: Bytes)
    requires s == WithoutBreaks(text)
    ensures Decode(text).Some? <==> exists pads: nat :: IsBase64(s, pads)
    ensures forall pads: nat :: IsBase64(s, pads) ==> Encode(Decode(text).value) == Canonical(s, pads)
  {
    DecodesIff(s);
    forall pads: nat | IsBase64(s, pads) ensures Encode(Decode(text).value) == Canonical(s, pads) {
      DecodedEncodes(s, pads);
    }
  }

  const UPPER_CASE := "ABCDEFGHIJKLMNOPQRSTUVWXYZ"
  const LOWER_CASE := "abcdefghijklmnopqrstuvwxyz"
  const DECIMALS := "0123456789"

  /** Table 1 of RFC 4648: the alphabet is the letters, the decimals, plus and slash. */
  lemma DigitsAreTheAlphabet(n: nat)
    requires n < 64
    ensures Digit(n) == (UPPER_CASE + LOWER_CASE + DECIMALS + "+/")[n]
  {
    assert forall i: nat :: i < 26 ==> UPPER_CASE[i] as int == 65 + i;
    assert forall i: nat :: i < 26 ==> LOWER_CASE[i] as int == 97 + i;
    assert forall i: nat :: i < 10 ==> DECIMALS[i] as int == 48 + i;
  }
}
