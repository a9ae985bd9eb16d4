/**
 The Upload-Metadata header of the tus resumable upload protocol 1.0.0 (Creation extension):
 parseMeta and serializeMeta, a parser and a printer whose order of entries is arbitrary.
 */
module Metadata {
  import opened Bytes
  import opened Base64

  // ------------------------------------------------------------------ white space

  /** The characters with the Unicode property White_Space, by the number of bytes of their UTF-8 encodings. */
  predicate Space1(a: Byte) {
    '\t' <= a <= '\r' || a == ' '
  }

  predicate Space2(a: Byte, b: Byte) {
    a == '\U{C2}' && (b == '\U{85}' || b == '\U{A0}')
  }

  predicate Space3(a: Byte, b: Byte, c: Byte) {
    || (a == '\U{E1}' && b == '\U{9A}' && c == '\U{80}')
    || (a == '\U{E2}' && b == '\U{80}' && ('\U{80}' <= c <= '\U{8A}' || c == '\U{A8}' || c == '\U{A9}' || c == '\U{AF}'))
    || (a == '\U{E2}' && b == '\U{81}' && c == '\U{9F}')
    || (a == '\U{E3}' && b == '\U{80}' && c == '\U{80}')
  }

  /** The length of the white-space character the string begins with; 0 if there is none. */
  function LeadingSpace(s: Bytes): (n: nat)
    ensures n <= |s|
  {
    if |s| >= 1 && Space1(s[0]) then 1
    else if |s| >= 2 && Space2(s[0], s[1]) then 2
    else if |s| >= 3 && Space3(s[0], s[1], s[2]) then 3
    else 0
  }

  function TrailingSpace(s: Bytes): (n: nat)
    ensures n <= |s|
  {
    var n := |s|;
    if n >= 1 && Space1(s[n - 1]) then 1
    else if n >= 2 && Space2(s[n - 2], s[n - 1]) then 2
    else if n >= 3 && Space3(s[n - 3], s[n - 2], s[n - 1]) then 3
    else 0
  }

  function TrimLeft(s: Bytes): (r: Bytes)
    ensures LeadingSpace(r) == 0
    decreases |s|
  {
    if LeadingSpace(s) == 0 then s else TrimLeft(s[LeadingSpace(s)..])
  }

  lemma {:induction false} TrimLeftIsSuffix(s: Bytes)
    ensures |TrimLeft(s)| <= |s| && TrimLeft(s) == s[|s| - |TrimLeft(s)|..]
    decreases |s|
  {
    if LeadingSpace(s) != 0 {
      var n, r := LeadingSpace(s), TrimLeft(s);
      TrimLeftIsSuffix(s[n..]);
      assert s[n..][|s| - n - |r|..] == s[|s| - |r|..];
    }
  }

  function TrimRight(s: Bytes): (r: Bytes)
    ensures TrailingSpace(r) == 0
    ensures r <= s
    decreases |s|
  {
    if TrailingSpace(s) == 0 then s else TrimRight(s[..|s| - TrailingSpace(s)])
  }

  /** strings.TrimSpace. */
  function TrimSpace(s: Bytes): Bytes {
    TrimRight(TrimLeft(s))
  }

  /** A prefix begins with white space only if the whole does. */
  lemma PrefixLeadingSpace(s: Bytes, p: Bytes)
    requires p <= s && LeadingSpace(s) == 0
    ensures LeadingSpace(p) == 0
  {
  }

  lemma Trimmed(s: Bytes)
    ensures LeadingSpace(TrimSpace(s)) == 0 && TrailingSpace(TrimSpace(s)) == 0
    ensures forall c :: c in TrimSpace(s) ==> c in s
  {
    TrimLeftIsSuffix(s);
    PrefixLeadingSpace(TrimLeft(s), TrimSpace(s));
  }

  /** One white-space character. */
  predicate IsSpace(c: Bytes) {
    || (|c| == 1 && Space1(c[0]))
    || (|c| == 2 && Space2(c[0], c[1]))
    || (|c| == 3 && Space3(c[0], c[1], c[2]))
  }

  /** The characters with the Unicode property White_Space. */
  predicate WhiteSpace(point: nat) {
    || 0x9 <= point <= 0xD || point == 0x20 || point == 0x85 || point == 0xA0 || point == 0x1680
    || 0x2000 <= point <= 0x200A || point == 0x2028 || point == 0x2029 || point == 0x202F || point == 0x205F || point == 0x3000
  }

  /** White space are the encodings of those. */
  lemma SpaceIsWhite(point: nat)
    requires IsScalar(point)
    ensures IsSpace(Utf8(point)) <==> WhiteSpace(point)
  {
  }

  lemma SpaceIsUtf8(c: Bytes) returns (point: nat)
    requires IsSpace(c)
    ensures IsScalar(point) && c == Utf8(point)
  {
    var a := c[0] as int;
    match |c|
    case 1 => point := a;
    case 2 => point := (a - 0xC0) * 64 + (c[1] as int - 0x80);
    case _ => point := (a - 0xE0) * 4096 + (c[1] as int - 0x80) * 64 + (c[2] as int - 0x80);
  }

  predicate AllSpaces(characters: seq<Bytes>) {
    forall i :: 0 <= i < |characters| ==> IsSpace(characters[i])
  }

  function Flat(characters: seq<Bytes>): Bytes {
    if characters == [] then [] else characters[0] + Flat(characters[1..])
  }

  lemma {:induction false} FlatSnoc(characters: seq<Bytes>, last: Bytes)
    ensures Flat(characters + [last]) == Flat(characters) + last
  {
    if characters == [] {
      assert last + [] == [] + last;
    } else {
      FlatSnoc(characters[1..], last);
      assert (characters + [last])[1..] == characters[1..] + [last];
    }
  }

  lemma SpaceLeads(c: Bytes, rest: Bytes)
    requires IsSpace(c)
    ensures LeadingSpace(c + rest) == |c| && (c + rest)[|c|..] == rest
  {
  }

  lemma SpaceTrails(rest: Bytes, c: Bytes)
    requires IsSpace(c)
    ensures TrailingSpace(rest + c) == |c| && (rest + c)[..|rest|] == rest
  {
  }

  lemma {:induction false} TrimLeftPasses(white: seq<Bytes>, rest: Bytes)
    requires AllSpaces(white)
    ensures TrimLeft(Flat(white) + rest) == TrimLeft(rest)
    decreases |white|
  {
    if white == [] {
      assert [] + rest == rest;
    } else {
      assert Flat(white) + rest == white[0] + (Flat(white[1..]) + rest);
      SpaceLeads(white[0], Flat(white[1..]) + rest);
      TrimLeftPasses(white[1..], rest);
    }
  }

  lemma {:induction false} TrimRightPasses(rest: Bytes, white: seq<Bytes>)
    requires AllSpaces(white)
    ensures TrimRight(rest + Flat(white)) == TrimRight(rest)
    decreases |white|
  {
    if white == [] {
      assert rest + [] == rest;
    } else {
      var fewer, c := white[..|white| - 1], white[|white| - 1];
      assert white == fewer + [c];
      FlatSnoc(fewer, c);
      assert rest + Flat(white) == (rest + Flat(fewer)) + c;
      SpaceTrails(rest + Flat(fewer), c);
      TrimRightPasses(rest, fewer);
    }
  }

  /** Text that neither begins nor ends with white space is what trimming leaves of it with any white space around. */
  lemma TrimOfPadded(before: seq<Bytes>, text: Bytes, behind: seq<Bytes>)
    requires AllSpaces(before) && AllSpaces(behind) && LeadingSpace(text) == 0 && TrailingSpace(text) == 0
    ensures TrimSpace(Flat(before) + text + Flat(behind)) == text
  {
    var rest := text + Flat(behind);
    assert Flat(before) + text + Flat(behind) == Flat(before) + rest;
    TrimLeftPasses(before, rest);
    if text == [] {
      assert rest == Flat(behind) + [] == Flat(behind);
      TrimLeftPasses(behind, []);
    } else {
      NoLeadingSpaceBefore(text, behind);
      TrimRightPasses(text, behind);
    }
  }

  /** A white-space character that follows does not turn the beginning of a text into one. */
  lemma NoLeadingSpaceBefore(text: Bytes, behind: seq<Bytes>)
    requires text != [] && LeadingSpace(text) == 0 && AllSpaces(behind)
    ensures LeadingSpace(text + Flat(behind)) == 0
  {
    if behind != [] {
      assert IsSpace(behind[0]) && Flat(behind)[0] == behind[0][0];
    }
  }

  lemma {:induction false} TrimLeftTakesSpaces(s: Bytes) returns (before: seq<Bytes>)
    ensures AllSpaces(before) && s == Flat(before) + TrimLeft(s)
    decreases |s|
  {
    var n := LeadingSpace(s);
    if n == 0 {
      before := [];
      assert s == [] + s;
    } else {
      var rest := TrimLeftTakesSpaces(s[n..]);
      before := [s[..n]] + rest;
      assert before[1..] == rest && IsSpace(s[..n]);
      ThreeParts(s, n, Flat(rest), TrimLeft(s[n..]));
    }
  }

  lemma ThreeParts(s: Bytes, n: nat, middle: Bytes, last: Bytes)
    requires n <= |s| && s[n..] == middle + last
    ensures s == (s[..n] + middle) + last
  {
    assert s == s[..n] + s[n..];
  }

  lemma LastSpace(s: Bytes)
    requires TrailingSpace(s) != 0
    ensures IsSpace(s[|s| - TrailingSpace(s)..])
  {
  }

  lemma {:induction false} TrimRightTakesSpaces(s: Bytes) returns (behind: seq<Bytes>)
    ensures AllSpaces(behind) && s == TrimRight(s) + Flat(behind)
    decreases |s|
  {
    var n := |s| - TrailingSpace(s);
    if n == |s| {
      behind := [];
      assert s == s + [];
    } else {
      var rest := TrimRightTakesSpaces(s[..n]);
      behind := rest + [s[n..]];
      LastSpace(s);
      FlatSnoc(rest, s[n..]);
      LastPart(s, n, TrimRight(s[..n]), Flat(rest));
    }
  }

  lemma LastPart(s: Bytes, n: nat, first: Bytes, middle: Bytes)
    requires n <= |s| && s[..n] == first + middle
    ensures s == first + (middle + s[n..])
  {
    assert s == s[..n] + s[n..];
  }

  /** The string is the text with nothing but white space around it. */
  ghost predicate Pads(s: Bytes, text: Bytes) {
    exists before, behind :: AllSpaces(before) && AllSpaces(behind) && s == Flat(before) + text + Flat(behind)
  }

  lemma TrimTakesSpaces(s: Bytes)
    ensures Pads(s, TrimSpace(s))
  {
    var before := TrimLeftTakesSpaces(s);
    var behind := TrimRightTakesSpaces(TrimLeft(s));
    assert s == Flat(before) + (TrimSpace(s) + Flat(behind)) == Flat(before) + TrimSpace(s) + Flat(behind);
  }

  /** Trimming takes away white space at both ends, all of it, and nothing else. */
  lemma TrimIsExact(s: Bytes, text: Bytes)
    ensures text == TrimSpace(s) <==> LeadingSpace(text) == 0 && TrailingSpace(text) == 0 && Pads(s, text)
  {
    Trimmed(s);
    TrimTakesSpaces(s);
    if LeadingSpace(text) == 0 && TrailingSpace(text) == 0 && Pads(s, text) {
      var before, behind :| AllSpaces(before) && AllSpaces(behind) && s == Flat(before) + text + Flat(behind);
      TrimOfPadded(before, text, behind);
    }
  }

  // ------------------------------------------------------------------ splitting and joining

  /** strings.Split at a single-byte separator. */
  function Split(s: Bytes, c: Byte): (parts: seq<Bytes>)
    ensures |parts| >= 1
  {
    if s == [] then [[]]
    else
      var rest := Split(s[1..], c);
      if s[0] == c then [[]] + rest else [[s[0]] + rest[0]] + rest[1..]
  }

  function Join(parts: seq<Bytes>, c: Byte): Bytes {
    if parts == [] then []
    else if |parts| == 1 then parts[0]
    else parts[0] + [c] + Join(parts[1..], c)
  }

  /** Splitting loses nothing and leaves no separator in a part. */
  lemma {:induction false} JoinOfSplit(s: Bytes, c: Byte)
    ensures Join(Split(s, c), c) == s
    ensures forall i :: 0 <= i < |Split(s, c)| ==> c !in Split(s, c)[i]
    ensures forall i, x :: 0 <= i < |Split(s, c)| && x in Split(s, c)[i] ==> x in s
  {
    if s != [] {
      JoinOfSplit(s[1..], c);
      var rest := Split(s[1..], c);
      assert s == [s[0]] + s[1..];
      if s[0] == c {
        assert ([[]] + rest)[1..] == rest;
      } else {
        var parts := [[s[0]] + rest[0]] + rest[1..];
        assert parts[1..] == rest[1..];
        if |rest| > 1 {
          assert [s[0]] + rest[0] + [c] + Join(rest[1..], c) == [s[0]] + (rest[0] + [c] + Join(rest[1..], c));
        }
      }
    }
  }

  lemma {:induction false} SplitAtFirst(a: Bytes, b: Bytes, c: Byte)
    requires c !in a
    ensures Split(a + [c] + b, c) == [a] + Split(b, c)
  {
    var s := a + [c] + b;
    if a == [] {
      assert s[1..] == b;
    } else {
      assert s[1..] == a[1..] + [c] + b;
      SplitAtFirst(a[1..], b, c);
      assert [a[0]] + a[1..] == a;
    }
  }

  lemma {:induction false} SplitWhole(a: Bytes, c: Byte)
    requires c !in a
    ensures Split(a, c) == [a]
  {
    if a != [] {
      SplitWhole(a[1..], c);
      assert [a[0]] + a[1..] == a;
    }
  }

  lemma {:induction false} SplitOfJoin(parts: seq<Bytes>, c: Byte)
    requires parts != [] && forall i :: 0 <= i < |parts| ==> c !in parts[i]
    ensures Split(Join(parts, c), c) == parts
  {
    if |parts| == 1 {
      SplitWhole(parts[0], c);
    } else {
      SplitAtFirst(parts[0], Join(parts[1..], c), c);
      SplitOfJoin(parts[1..], c);
    }
  }

  // ------------------------------------------------------------------ parsing

  type Meta = map<Bytes, Bytes>

  /** What an element that splits into these parts contributes, if anything. */
  type Entry = Option<(Bytes, Bytes)>

  function EntryOf(parts: seq<Bytes>): Entry {
    if |parts| != 2 then None
    else
      match Decode(parts[1])
      case None => None
      case Some(value) => Some((parts[0], value))
  }

  /** One element of the header: a key, one space, and a base64 value; anything else is ignored. */
  function ParseElement(element: Bytes): Entry {
    EntryOf(Split(TrimSpace(element), ' '))
  }

  /** An element sets a key to a value iff it is, white space at its ends apart, the key, one space and base64 of the value. */
  lemma ParseElementIff(element: Bytes, key: Bytes, value: Bytes)
    ensures ParseElement(element) == Some((key, value)) <==>
      exists text: Bytes :: ' ' !in key && ' ' !in text && TrimSpace(element) == key + [' '] + text && Decode(text) == Some(value)
  {
    var e := TrimSpace(element);
    var parts := Split(e, ' ');
    JoinOfSplit(e, ' ');
    if ParseElement(element) == Some((key, value)) {
      assert parts[1..] == [parts[1]];
      assert ' ' !in parts[0] && ' ' !in parts[1] && e == key + [' '] + parts[1];
    }
    if text: Bytes :| ' ' !in key && ' ' !in text && e == key + [' '] + text && Decode(text) == Some(value) {
      SplitAtFirst(key, text, ' ');
      SplitWhole(text, ' ');
    }
  }

  function With(m: Meta, entry: Entry): Meta {
    match entry
    case None => m
    case Some((key, value)) => m[key := value]
  }

  /** Later entries win. */
  function Collect(entries: seq<Entry>): Meta {
    if entries == [] then map[] else With(Collect(entries[..|entries| - 1]), entries[|entries| - 1])
  }

  function ParseElements(elements: seq<Bytes>): seq<Entry> {
    seq(|elements|, i requires 0 <= i < |elements| => ParseElement(elements[i]))
  }

  function Parse(header: Bytes): Meta {
    Collect(ParseElements(Split(header, ',')))
  }

  lemma CollectOneMore(entries: seq<Entry>, i: nat)
    requires i < |entries|
    ensures Collect(entries[..i + 1]) == With(Collect(entries[..i]), entries[i])
  {
    assert entries[..i + 1][..i] == entries[..i];
  }

  method ParseMeta(header: Bytes) returns (meta: Meta)
    ensures meta == Parse(header)
  {
    meta := map[];
    var elements := Split(header, ',');
    ghost var entries := ParseElements(elements);
    for i := 0 to |elements|
      invariant meta == Collect(entries[..i])
    {
      CollectOneMore(entries, i);
      var element := TrimSpace(elements[i]);
      var parts := Split(element, ' ');
      assert entries[i] == EntryOf(parts);
      if |parts| != 2 {
        continue;
      }
      var key := parts[0];
      var value := Decode(parts[1]);
      if value == None {
        continue;
      }
      meta := meta[key := value.value];
    }
    assert entries[..|elements|] == entries;
  }

  /** What a header means: its elements, the pieces between commas, each parsed, in order. */
  lemma ParseOfElements(elements: seq<Bytes>)
    requires elements != [] && forall i :: 0 <= i < |elements| ==> ',' !in elements[i]
    ensures Parse(Join(elements, ',')) == Collect(seq(|elements|, i requires 0 <= i < |elements| => ParseElement(elements[i])))
  {
    SplitOfJoin(elements, ',');
    assert ParseElements(elements) == seq(|elements|, i requires 0 <= i < |elements| => ParseElement(elements[i]));
  }

  predicate Sets(entry: Entry, key: Bytes) {
    entry.Some? && entry.value.0 == key
  }

  /** A key has the value of the last entry that sets it. */
  lemma {:induction false} LastEntryWins(entries: seq<Entry>, key: Bytes)
    ensures key in Collect(entries) <==> exists i :: 0 <= i < |entries| && Sets(entries[i], key)
    ensures key in Collect(entries) ==>
      exists i :: 0 <= i < |entries| && entries[i] == Some((key, Collect(entries)[key]))
        && forall j :: i < j < |entries| ==> !Sets(entries[j], key)
  {
    if entries != [] {
      var n := |entries| - 1;
      var earlier := entries[..n];
      LastEntryWins(earlier, key);
      if Sets(entries[n], key) {
        assert entries[n] == Some((key, Collect(entries)[key]));
      } else if key in Collect(entries) {
        var i :| 0 <= i < n && earlier[i] == Some((key, Collect(earlier)[key])) && forall j :: i < j < n ==> !Sets(earlier[j], key);
        assert entries[i] == Some((key, Collect(entries)[key]));
        forall j | i < j < |entries| ensures !Sets(entries[j], key) {
          assert j < n ==> earlier[j] == entries[j];
        }
      } else {
        forall i | 0 <= i < |entries| ensures !Sets(entries[i], key) {
          assert i < n ==> earlier[i] == entries[i];
        }
      }
    }
  }

  // ------------------------------------------------------------------ serialising

  function Element(key: Bytes, value: Bytes): Bytes {
    key + " " + Encode(value)
  }

  function Elements(order: seq<Bytes>, m: Meta): seq<Bytes>
    requires forall k :: k in order ==> k in m
  {
    seq(|order|, i requires 0 <= i < |order| => Element(order[i], m[order[i]]))
  }

  /** One order in which the map may be ranged over. */
  ghost predicate Enumerates(order: seq<Bytes>, m: Meta) {
    && (forall k :: k in order <==> k in m)
    && forall i, j :: 0 <= i < j < |order| ==> order[i] != order[j]
  }

  function SerializeIn(order: seq<Bytes>, m: Meta): Bytes
    requires forall k :: k in order ==> k in m
  {
    Join(Elements(order, m), ',')
  }

  /** The header is what serialising the map gives in some order. */
  ghost predicate Prints(header: Bytes, m: Meta) {
    exists order :: Enumerates(order, m) && header == SerializeIn(order, m)
  }

  method SerializeMeta(meta: Meta) returns (header: Bytes)
    ensures Prints(header, meta)
  {
    header := "";
    ghost var order := [];
    var remaining := meta.Keys;
    while remaining != {}
      invariant forall k :: k in order <==> k in meta && k !in remaining
      invariant remaining <= meta.Keys
      invariant Enumerates(order, map k | k in meta && k !in remaining :: meta[k])
      invariant header == if order == [] then "" else SerializeIn(order, meta) + ","
      decreases remaining
    {
      var key :| key in remaining;
      SerializeOneMore(order, key, meta);
      header := header + key + " " + Encode(meta[key]) + ",";
      order := order + [key];
      remaining := remaining - {key};
    }
    if |header| > 0 {
      header := header[..|header| - 1];
    }
    assert Enumerates(order, meta) && header == SerializeIn(order, meta);
  }

  lemma SerializeOneMore(order: seq<Bytes>, key: Bytes, m: Meta)
    requires key in m && forall k :: k in order ==> k in m
    ensures SerializeIn(order + [key], m)
         == (if order == [] then "" else SerializeIn(order, m) + ",") + key + " " + Encode(m[key])
  {
    var elements := Elements(order, m);
    assert Elements(order + [key], m) == elements + [Element(key, m[key])];
    JoinSnoc(elements, Element(key, m[key]), ',');
    AppendPieces(if order == [] then "" else SerializeIn(order, m) + ",", key, Encode(m[key]));
  }

  lemma AppendPieces(header: Bytes, key: Bytes, text: Bytes)
    ensures header + (key + " " + text) == header + key + " " + text
  {
  }

  lemma {:induction false} JoinSnoc(parts: seq<Bytes>, last: Bytes, c: Byte)
    ensures Join(parts + [last], c) == (if parts == [] then [] else Join(parts, c) + [c]) + last
  {
    if parts == [] {
      assert [] + last == last;
    } else {
      JoinSnoc(parts[1..], last, c);
      assert (parts + [last])[1..] == parts[1..] + [last];
    }
  }

  // ------------------------------------------------------------------ round trips

  /** A key that survives: not empty, free of the two separators, not beginning with white space. */
  predicate GoodKey(k: Bytes) {
    k != [] && ',' !in k && ' ' !in k && LeadingSpace(k) == 0
  }

  predicate GoodKeys(m: Meta) {
    forall k :: k in m ==> GoodKey(k)
  }

  predicate NoEmptyValues(m: Meta) {
    forall k :: k in m ==> m[k] != []
  }

  /** The entries with a value. */
  function NonEmpty(m: Meta): Meta {
    map k | k in m && m[k] != [] :: m[k]
  }

  /** The last byte of a string without trailing white space is no line break. */
  lemma LastIsNoBreak(s: Bytes)
    requires s != [] && TrailingSpace(s) == 0
    ensures s[|s| - 1] != '\r' && s[|s| - 1] != '\n' && s[|s| - 1] != ' '
  {
  }

  lemma FirstIsNoSpace(s: Bytes)
    requires s != [] && LeadingSpace(s) == 0
    ensures s[0] != ' '
  {
  }

  lemma JoinTwo(a: Bytes, b: Bytes)
    ensures Join([a, b], ' ') == a + " " + b
  {
    assert [a, b][1..] == [b];
  }

  /** If trimmed text splits in two at its only space, both parts are there and keep the outer ends. */
  lemma TwoParts(e: Bytes)
    requires LeadingSpace(e) == 0 && TrailingSpace(e) == 0 && |Split(e, ' ')| == 2
    ensures var parts := Split(e, ' ');
      && parts[0] != [] && ' ' !in parts[0] && LeadingSpace(parts[0]) == 0
      && parts[1] != [] && parts[1][|parts[1]| - 1] != '\r' && parts[1][|parts[1]| - 1] != '\n'
      && forall c :: c in parts[0] ==> c in e
  {
    var parts := Split(e, ' ');
    JoinOfSplit(e, ' ');
    assert parts == [parts[0], parts[1]];
    JoinTwo(parts[0], parts[1]);
    FirstIsNoSpace(e);
    LastIsNoBreak(e);
    PrefixLeadingSpace(e, parts[0]);
    assert e[|parts[0]|] == ' ';
    assert parts[1] != [] ==> parts[1][|parts[1]| - 1] == e[|e| - 1];
  }

  lemma EntryHasValue(parts: seq<Bytes>)
    requires EntryOf(parts).Some? && parts[1] != [] && parts[1][|parts[1]| - 1] != '\r' && parts[1][|parts[1]| - 1] != '\n'
    ensures EntryOf(parts).value.0 == parts[0] && EntryOf(parts).value.1 != []
  {
    DecodesToNothing(parts[1]);
  }

  predicate GoodEntry(entry: Entry) {
    entry.Some? ==> GoodKey(entry.value.0) && entry.value.1 != []
  }

  /** What an element without a comma parses to has a good key and a value. */
  lemma ParsedElementIsGood(element: Bytes)
    requires ',' !in element
    ensures GoodEntry(ParseElement(element))
  {
    var e := TrimSpace(element);
    Trimmed(element);
    if EntryOf(Split(e, ' ')).Some? {
      TwoParts(e);
      EntryHasValue(Split(e, ' '));
    }
  }

  lemma {:induction false} CollectedIsGood(entries: seq<Entry>)
    requires forall i :: 0 <= i < |entries| ==> GoodEntry(entries[i])
    ensures GoodKeys(Collect(entries)) && NoEmptyValues(Collect(entries))
  {
    if entries != [] {
      CollectedIsGood(entries[..|entries| - 1]);
    }
  }

  /** Every parsed map has good keys and no empty value. */
  lemma ParsedIsGood(header: Bytes)
    ensures GoodKeys(Parse(header)) && NoEmptyValues(Parse(header))
  {
    JoinOfSplit(header, ',');
    var elements := Split(header, ',');
    var entries := ParseElements(elements);
    forall i | 0 <= i < |entries| ensures GoodEntry(entries[i]) {
      ParsedElementIsGood(elements[i]);
    }
    CollectedIsGood(entries);
  }

  lemma {:induction false} TrimKeepsFirst(s: Bytes)
    requires s != [] && TrailingSpace(s) == 0 && LeadingSpace(s) == 0
    ensures TrimSpace(s) == s
  {
    assert TrimLeft(s) == s;
  }

  /** The printed entry begins and ends like something that trimming leaves alone. */
  lemma ElementEnds(key: Bytes, value: Bytes)
    requires GoodKey(key)
    ensures LeadingSpace(Element(key, value)) == 0
    ensures value != [] ==> TrailingSpace(Element(key, value)) == 0
    ensures ',' !in Element(key, value)
  {
    var e := Element(key, value);
    var text := Encode(value);
    EncodeIsText(value);
    forall i | 0 <= i < |e| ensures e[i] != ',' {
      if i < |key| {
        assert e[i] == key[i] && key[i] in key;
      } else if i > |key| {
        assert e[i] == text[i - |key| - 1] && IsText(text[i - |key| - 1]);
      }
    }
    assert e[|key|] == ' ';
    assert e[..|key|] == key;
    if value != [] {
      assert e[|e| - 1] == text[|text| - 1] && IsText(e[|e| - 1]);
    }
  }

  /** A printed map is its entries between commas, each a key, a space and the base64 of the value; an empty one is nothing. */
  lemma PrintedSplits(order: seq<Bytes>, m: Meta)
    requires Enumerates(order, m) && GoodKeys(m)
    ensures SerializeIn(order, m) == "" <==> m == map[]
    ensures m != map[] ==>
      Split(SerializeIn(order, m), ',') == seq(|order|, i requires 0 <= i < |order| => order[i] + " " + Encode(m[order[i]]))
  {
    var elements := Elements(order, m);
    if order != [] {
      assert order[0] in m;
      forall i | 0 <= i < |elements| ensures ',' !in elements[i] {
        ElementEnds(order[i], m[order[i]]);
      }
      SplitOfJoin(elements, ',');
      assert elements[0][|order[0]|] == ' ';
    } else {
      assert forall k :: k !in m;
    }
  }

  /** The entry that a printed key and value should parse to: none if the value is empty. */
  predicate EntryFor(entry: Entry, key: Bytes, value: Bytes) {
    entry == if value == [] then None else Some((key, value))
  }

  /** Parsing a printed entry gives it back, or nothing if its value is empty. */
  lemma ElementRoundTrip(key: Bytes, value: Bytes)
    requires GoodKey(key)
    ensures EntryFor(ParseElement(Element(key, value)), key, value)
  {
    ElementEnds(key, value);
    EncodeIsText(value);
    if value != [] {
      TrimKeepsFirst(Element(key, value));
      ElementSplits(key, value);
      RoundTrip(value);
    } else {
      assert Element(key, value) == key + " ";
      KeyAloneIsNoEntry(key);
    }
  }

  /** And so does one with white space around it. */
  lemma PaddedElementRoundTrip(before: seq<Bytes>, key: Bytes, value: Bytes, behind: seq<Bytes>)
    requires AllSpaces(before) && AllSpaces(behind) && GoodKey(key) && value != []
    ensures ParseElement(Flat(before) + Element(key, value) + Flat(behind)) == Some((key, value))
  {
    var e := Element(key, value);
    ElementEnds(key, value);
    TrimOfPadded(before, e, behind);
    TrimKeepsFirst(e);
    ElementRoundTrip(key, value);
  }

  lemma ElementSplits(key: Bytes, value: Bytes)
    requires ' ' !in key
    ensures Split(Element(key, value), ' ') == [key, Encode(value)]
  {
    var text := Encode(value);
    EncodeIsText(value);
    forall c | c in text ensures c != ' ' {
      var i :| 0 <= i < |text| && text[i] == c;
      assert IsText(text[i]);
    }
    assert Element(key, value) == key + [' '] + text;
    SplitAtFirst(key, text, ' ');
    SplitWhole(text, ' ');
  }

  /** An empty value leaves the key and a space, which trimming takes away: one part is no entry. */
  lemma KeyAloneIsNoEntry(key: Bytes)
    requires GoodKey(key) && LeadingSpace(key + " ") == 0
    ensures ParseElement(key + " ") == None
  {
    var e := key + " ";
    assert TrimLeft(e) == e;
    assert e[|e| - 1] == ' ';
    assert TrailingSpace(e) == 1 && e[..|e| - 1] == key;
    assert TrimSpace(e) == TrimRight(key);
    SplitWhole(TrimRight(key), ' ');
  }

  function NonEmptyAmong(order: seq<Bytes>, m: Meta): Meta {
    map k | k in m && k in order && m[k] != [] :: m[k]
  }

  lemma {:induction false} CollectOrdered(order: seq<Bytes>, m: Meta, entries: seq<Entry>)
    requires |entries| == |order| && forall k :: k in order ==> k in m
    requires forall i :: 0 <= i < |order| ==> EntryFor(entries[i], order[i], m[order[i]])
    ensures Collect(entries) == NonEmptyAmong(order, m)
  {
    if order != [] {
      var n := |order| - 1;
      CollectOrdered(order[..n], m, entries[..n]);
      assert forall k :: k in order <==> k in order[..n] || k == order[n];
    }
  }

  /** Whatever the order, parsing what was printed from a map with good keys gives the map without its empty values. */
  lemma MapRoundTrip(order: seq<Bytes>, m: Meta)
    requires GoodKeys(m) && Enumerates(order, m)
    ensures Parse(SerializeIn(order, m)) == NonEmpty(m)
  {
    if order == [] {
      NothingToPrint(m);
    } else {
      ParsePrinted(order, m);
      AmongAll(order, m);
    }
  }

  lemma NothingToPrint(m: Meta)
    requires Enumerates([], m)
    ensures Parse(SerializeIn([], m)) == NonEmpty(m)
  {
    ParseNothing();
    assert SerializeIn([], m) == [];
    assert NonEmpty(m) == map[];
  }

  lemma AmongAll(order: seq<Bytes>, m: Meta)
    requires Enumerates(order, m)
    ensures NonEmptyAmong(order, m) == NonEmpty(m)
  {
  }

  lemma ParsePrinted(order: seq<Bytes>, m: Meta)
    requires GoodKeys(m) && order != [] && forall k :: k in order ==> k in m
    ensures Parse(SerializeIn(order, m)) == NonEmptyAmong(order, m)
  {
    PrintedEntries(order, m);
    CollectOrdered(order, m, ParseElements(Split(SerializeIn(order, m), ',')));
  }

  /** The printed header splits and parses into one entry per key, in order. */
  lemma PrintedEntries(order: seq<Bytes>, m: Meta)
    requires GoodKeys(m) && order != [] && forall k :: k in order ==> k in m
    ensures var entries := ParseElements(Split(SerializeIn(order, m), ','));
      && |entries| == |order|
      && forall i :: 0 <= i < |order| ==> EntryFor(entries[i], order[i], m[order[i]])
  {
    var elements := Elements(order, m);
    forall i | 0 <= i < |order| ensures ',' !in elements[i] {
      assert order[i] in order;
      ElementEnds(order[i], m[order[i]]);
    }
    SplitOfJoin(elements, ',');
    var entries := ParseElements(elements);
    forall i | 0 <= i < |order| ensures EntryFor(entries[i], order[i], m[order[i]]) {
      assert order[i] in order;
      assert elements[i] == Element(order[i], m[order[i]]) && entries[i] == ParseElement(elements[i]);
      ElementRoundTrip(order[i], m[order[i]]);
    }
  }

  lemma ParseNothing()
    ensures Parse([]) == map[]
  {
    SplitWhole([], ',');
    assert TrimSpace([]) == [];
    SplitWhole([], ' ');
    assert ParseElement([]) == None;
    var entries := ParseElements([[]]);
    assert entries == [None];
    assert Collect(entries) == With(Collect(entries[..0]), entries[0]);
  }

  /** Normalisation: printing a parsed header in any order and parsing it again changes nothing. */
  lemma Normalisation(header: Bytes, order: seq<Bytes>)
    requires Enumerates(order, Parse(header))
    ensures Parse(SerializeIn(order, Parse(header))) == Parse(header)
  {
    ParsedIsGood(header);
    MapRoundTrip(order, Parse(header));
  }

  /** A map survives printing and parsing exactly if it has good keys and no empty value. */
  lemma SurvivesIffGood(order: seq<Bytes>, m: Meta)
    requires Enumerates(order, m)
    ensures Parse(SerializeIn(order, m)) == m <==> GoodKeys(m) && NoEmptyValues(m)
  {
    if Parse(SerializeIn(order, m)) == m {
      ParsedIsGood(SerializeIn(order, m));
    }
    if GoodKeys(m) && NoEmptyValues(m) {
      MapRoundTrip(order, m);
      assert NonEmpty(m) == m;
    }
  }

  /** Whatever the order. */
  lemma ParseOfPrint(header: Bytes, m: Meta)
    requires Prints(header, m) && GoodKeys(m)
    ensures Parse(header) == NonEmpty(m)
  {
    var order :| Enumerates(order, m) && header == SerializeIn(order, m);
    MapRoundTrip(order, m);
  }

  /** A header of one entry. */
  lemma ParseOneEntry(key: Bytes, value: Bytes)
    requires GoodKey(key) && value != []
    ensures Parse(Element(key, value)) == map[key := value]
  {
    var e := Element(key, value);
    ElementEnds(key, value);
    SplitWhole(e, ',');
    ElementRoundTrip(key, value);
    var entries := ParseElements([e]);
    assert entries[..0] == [] && Collect(entries) == With(map[], ParseElement(e));
  }
}
