/** Where the store keeps each file below its base directory. */
module StorePaths {
  import opened Bytes
  import opened FileTree

  type Id = string

  /** A SHA-256 sum. */
  type Hash = h: Bytes | |h| == 32 witness "00000000000000000000000000000000"

  datatype Config = Config(base: Path, layers: nat)

  /** The files of the store, by what they hold. */
  datatype Loc = Info(id: Id) | Lock(id: Id) | Incomplete(id: Id) | Complete(hash: Hash)

  predicate IsHexDigit(c: char) {
    '0' <= c <= '9' || 'a' <= c <= 'f'
  }

  /** An id as the generator hands them out: 32 lower-case hex digits. */
  predicate IsUid(id: Id) {
    |id| == 32 && forall i | 0 <= i < |id| :: IsHexDigit(id[i])
  }

  /** The depths for which no id is too short. */
  predicate Admissible(c: Config) {
    c.layers <= 32
  }

  function HexDigit(n: nat): char
    requires n < 16
  {
    "0123456789abcdef"[n]
  }

  /** Lower-case hexadecimal, two digits a byte. */
  function Hex(b: Bytes): string {
    if b == [] then "" else [HexDigit(b[0] as int / 16), HexDigit(b[0] as int % 16)] + Hex(b[1..])
  }

  lemma {:induction false} HexLength(b: Bytes)
    ensures |Hex(b)| == 2 * |b|
  {
    if b != [] {
      HexLength(b[1..]);
    }
  }

  /** The digits are those of Go's %x: decimal figures and lower-case letters, the high half of each byte first. */
  lemma {:induction false} HexDigits(b: Bytes, i: nat)
    requires i < |b|
    ensures |Hex(b)| == 2 * |b|
    ensures var high, low := b[i] as int / 16, b[i] as int % 16;
      && Hex(b)[2 * i] as int == (if high < 10 then '0' as int + high else 'a' as int + high - 10)
      && Hex(b)[2 * i + 1] as int == (if low < 10 then '0' as int + low else 'a' as int + low - 10)
  {
    HexLength(b);
    if i == 0 {
      assert forall n: nat :: n < 16 ==> HexDigit(n) as int == if n < 10 then 48 + n else 87 + n;
    } else {
      HexDigits(b[1..], i - 1);
      HexLength(b[1..]);
      assert Hex(b)[2 * i] == Hex(b[1..])[2 * (i - 1)] && Hex(b)[2 * i + 1] == Hex(b[1..])[2 * (i - 1) + 1];
    }
  }

  lemma HexDigitInjective(m: nat, n: nat)
    requires m < 16 && n < 16 && HexDigit(m) == HexDigit(n)
    ensures m == n
  {
    assert forall i: nat :: i < 16 ==> HexDigit(i) as int == if i < 10 then 48 + i else 87 + i;
  }

  lemma {:induction false} HexInjective(a: Bytes, b: Bytes)
    requires Hex(a) == Hex(b)
    ensures a == b
  {
    HexLength(a);
    HexLength(b);
    if a != [] {
      assert Hex(a)[0] == Hex(b)[0] && Hex(a)[1] == Hex(b)[1];
      HexDigitInjective(a[0] as int / 16, b[0] as int / 16);
      HexDigitInjective(a[0] as int % 16, b[0] as int % 16);
      assert Hex(a)[2..] == Hex(a[1..]) && Hex(b)[2..] == Hex(b[1..]);
      HexInjective(a[1..], b[1..]);
      assert a == [a[0]] + a[1..] && b == [b[0]] + b[1..];
    }
  }

  /** One directory per leading character. */
  function ShardPath(name: string, layers: nat): Path
    requires layers <= |name|
  {
    seq(layers, i requires 0 <= i < layers => [name[i]])
  }

  /** How many bytes the UTF-8 encoding at the front of a string takes; 0 if there is no valid one. */
  function RuneWidth(s: Bytes): (w: nat)
    requires s != []
    ensures w <= |s|
  {
    var a := s[0] as int;
    if a < 0x80 then 1
    else if 0xC2 <= a <= 0xDF && ByteIn(s, 1, 0x80, 0xBF) then 2
    else if 0xE0 <= a <= 0xEF && ByteIn(s, 1, if a == 0xE0 then 0xA0 else 0x80, if a == 0xED then 0x9F else 0xBF)
         && ByteIn(s, 2, 0x80, 0xBF) then 3
    else if 0xF0 <= a <= 0xF4 && ByteIn(s, 1, if a == 0xF0 then 0x90 else 0x80, if a == 0xF4 then 0x8F else 0xBF)
         && ByteIn(s, 2, 0x80, 0xBF) && ByteIn(s, 3, 0x80, 0xBF) then 4
    else 0
  }

  predicate ByteIn(s: Bytes, i: nat, low: int, high: int) {
    i < |s| && low <= s[i] as int <= high
  }

  lemma Utf8OfTwo(x: nat, y: nat)
    requires 2 <= x < 32 && y < 64
    ensures IsScalar(x * 64 + y) && Utf8(x * 64 + y) == [(0xC0 + x) as char, (0x80 + y) as char]
  {
  }

  lemma Utf8OfThree(x: nat, y: nat, z: nat)
    requires x < 16 && y < 64 && z < 64 && (x == 0 ==> y >= 32) && (x == 13 ==> y < 32)
    ensures var point := x * 4096 + y * 64 + z;
      IsScalar(point) && Utf8(point) == [(0xE0 + x) as char, (0x80 + y) as char, (0x80 + z) as char]
  {
    var point := x * 4096 + y * 64 + z;
    assert point / 64 == x * 64 + y;
  }

  lemma Utf8OfFour(x: nat, y: nat, z: nat, u: nat)
    requires x < 5 && y < 64 && z < 64 && u < 64 && (x == 0 ==> y >= 16) && (x == 4 ==> y < 16)
    ensures var point := x * 262144 + y * 4096 + z * 64 + u;
      IsScalar(point) && Utf8(point) == [(0xF0 + x) as char, (0x80 + y) as char, (0x80 + z) as char, (0x80 + u) as char]
  {
    var point := x * 262144 + y * 4096 + z * 64 + u;
    assert point / 64 == x * 4096 + y * 64 + z;
    assert point / 4096 == x * 64 + y;
  }

  lemma WidthOfThree(x: nat, y: nat, z: nat, rest: Bytes)
    requires x < 16 && y < 64 && z < 64 && (x == 0 ==> y >= 32) && (x == 13 ==> y < 32)
    ensures RuneWidth([(0xE0 + x) as char, (0x80 + y) as char, (0x80 + z) as char] + rest) == 3
  {
  }

  lemma WidthOfFour(x: nat, y: nat, z: nat, u: nat, rest: Bytes)
    requires x < 5 && y < 64 && z < 64 && u < 64 && (x == 0 ==> y >= 16) && (x == 4 ==> y < 16)
    ensures RuneWidth([(0xF0 + x) as char, (0x80 + y) as char, (0x80 + z) as char, (0x80 + u) as char] + rest) == 4
  {
  }

  /** It is the width of the scalar value whose encoding stands there. */
  lemma RuneWidthOfUtf8(point: nat, rest: Bytes)
    requires IsScalar(point)
    ensures RuneWidth(Utf8(point) + rest) == |Utf8(point)|
  {
    if 0x800 <= point < 0x10000 {
      WidthOfThree(point / 4096, point / 64 % 64, point % 64, rest);
    } else if 0x10000 <= point {
      WidthOfFour(point / 262144, point / 4096 % 64, point / 64 % 64, point % 64, rest);
    }
  }

  /** And there is one whenever it is not 0. */
  lemma RuneWidthIsUtf8(s: Bytes) returns (point: nat)
    requires s != [] && RuneWidth(s) > 0
    ensures IsScalar(point) && s[..RuneWidth(s)] == Utf8(point)
  {
    var a := s[0] as int;
    if RuneWidth(s) == 1 {
      point := a;
    } else if RuneWidth(s) == 2 {
      Utf8OfTwo(a - 0xC0, s[1] as int - 0x80);
      point := (a - 0xC0) * 64 + (s[1] as int - 0x80);
    } else if RuneWidth(s) == 3 {
      Utf8OfThree(a - 0xE0, s[1] as int - 0x80, s[2] as int - 0x80);
      point := (a - 0xE0) * 4096 + (s[1] as int - 0x80) * 64 + (s[2] as int - 0x80);
    } else {
      Utf8OfFour(a - 0xF0, s[1] as int - 0x80, s[2] as int - 0x80, s[3] as int - 0x80);
      point := (a - 0xF0) * 262144 + (s[1] as int - 0x80) * 4096 + (s[2] as int - 0x80) * 64 + (s[3] as int - 0x80);
    }
  }

  /** The shard directories of any name: one per rune, a broken one replaced by U+FFFD; joining drops a ".". */
  function RuneShards(s: Bytes): Path {
    if s == [] then []
    else
      var w := RuneWidth(s);
      var shard := if w == 0 then "\U{EF}\U{BF}\U{BD}" else s[..w];
      (if shard == "." then [] else [shard]) + RuneShards(s[if w == 0 then 1 else w..])
  }

  /** Rune by rune, in terms of the characters; a byte that begins none counts as U+FFFD. */
  lemma RuneShardsByRune(point: nat, rest: Bytes)
    requires IsScalar(point)
    ensures RuneShards(Utf8(point) + rest) == (if point == '.' as nat then [] else [Utf8(point)]) + RuneShards(rest)
  {
    RuneWidthOfUtf8(point, rest);
    assert (Utf8(point) + rest)[..|Utf8(point)|] == Utf8(point) && (Utf8(point) + rest)[|Utf8(point)|..] == rest;
  }

  lemma RuneShardsOfOther(s: Bytes)
    requires s != [] && forall point: nat | IsScalar(point) :: !(Utf8(point) <= s)
    ensures RuneShards(s) == [Utf8(0xFFFD)] + RuneShards(s[1..])
  {
    if RuneWidth(s) > 0 {
      var _ := RuneWidthIsUtf8(s);
      assert false;
    }
  }

  lemma {:induction false} RuneShardsOfHex(s: Bytes)
    requires forall i | 0 <= i < |s| :: IsHexDigit(s[i])
    ensures RuneShards(s) == ShardPath(s, |s|)
  {
    if s != [] {
      assert IsHexDigit(s[0]);
      RuneShardsOfHex(s[1..]);
      assert ShardPath(s, |s|) == [[s[0]]] + ShardPath(s[1..], |s| - 1);
      assert s[..1] == [s[0]] && [s[0]] != ".";
    }
  }

  /** Where the record of an upload is looked for, whatever stands for the id in the URL. */
  function InfoPath(c: Config, id: Bytes): Path
    requires c.layers <= |id|
  {
    c.base + ["meta"] + RuneShards(id[..c.layers]) + [id + ".info"]
  }

  function IncompletePath(c: Config, id: Bytes): Path {
    c.base + ["incomplete", id + ".bin"]
  }

  /** A path the store may put a record or bytes at; lock files are others' business. */
  ghost predicate IsStorePath(c: Config, p: Path)
    requires Admissible(c)
  {
    exists l :: ValidLoc(l) && !l.Lock? && PathOf(c, l) == p
  }

  /** For an id as the generator makes them these are the store's own paths. */
  lemma UidPaths(c: Config, id: Bytes)
    requires Admissible(c) && IsUid(id)
    ensures InfoPath(c, id) == PathOf(c, Info(id)) && IncompletePath(c, id) == PathOf(c, Incomplete(id))
  {
    RuneShardsOfHex(id[..c.layers]);
    assert ShardPath(id[..c.layers], c.layers) == ShardPath(id, c.layers);
    assert c.base + ["incomplete", id + ".bin"] == c.base + ["incomplete"] + [id + ".bin"];
  }

  /** For any other string neither is. */
  lemma OtherIdsMissTheStore(c: Config, id: Bytes)
    requires Admissible(c) && !IsUid(id) && c.layers <= |id|
    ensures !IsStorePath(c, InfoPath(c, id)) && !IsStorePath(c, IncompletePath(c, id))
  {
    forall l | ValidLoc(l) ensures PathOf(c, l) != InfoPath(c, id) && PathOf(c, l) != IncompletePath(c, id) {
      var p, q, r := PathOf(c, l), InfoPath(c, id), IncompletePath(c, id);
      assert p[|p| - 1] == FileName(l) && q[|q| - 1] == id + ".info" && r[|r| - 1] == id + ".bin";
      NamesDiffer(l, id);
      if l.Complete? {
        assert p[|c.base|] == "complete" && r[|c.base|] == "incomplete";
      }
    }
  }

  lemma NamesDiffer(l: Loc, id: Bytes)
    requires ValidLoc(l) && !IsUid(id)
    ensures FileName(l) != id + ".info"
    ensures !l.Complete? ==> FileName(l) != id + ".bin"
  {
    var n, a, b := FileName(l), id + ".info", id + ".bin";
    assert a[|a| - 1] == 'o' && b[|b| - 1] == 'n';
    assert a[..|id|] == id && b[..|id|] == id;
    match l
    case Info(u) => assert n[|n| - 1] == 'o' && n[..|u|] == u;
    case Lock(u) => assert n[|n| - 1] == 'k';
    case Incomplete(u) => assert n[|n| - 1] == 'n' && n[..|u|] == u;
    case Complete(h) => assert n[|n| - 1] == 'n';
  }

  /** The loop that fills the shard slice; a name too short for the depth panics. */
  method Shards(name: string, layers: nat) returns (r: Option<Path>)
    ensures r.None? <==> |name| < layers
    ensures r.Some? ==> r.value == ShardPath(name, layers)
  {
    if |name| < layers {
      return None;
    }
    var shards := new string[layers](_ => "");
    for n := 0 to layers
      invariant forall i | 0 <= i < n :: shards[i] == [name[i]]
    {
      shards[n] := [name[n]];
    }
    return Some(shards[..]);
  }

  function FileName(l: Loc): string {
    match l
    case Info(id) => id + ".info"
    case Lock(id) => id + ".lock"
    case Incomplete(id) => id + ".bin"
    case Complete(h) => Hex(h) + ".bin"
  }

  predicate ValidLoc(l: Loc) {
    l.Complete? || IsUid(l.id)
  }

  /** The directory of a file: meta/<id shards>, incomplete, or complete/<hash shards>. */
  function DirOf(c: Config, l: Loc): Path
    requires Admissible(c) && ValidLoc(l)
  {
    match l
    case Info(id) => c.base + ["meta"] + ShardPath(id, c.layers)
    case Lock(id) => c.base + ["meta"] + ShardPath(id, c.layers)
    case Incomplete(id) => c.base + ["incomplete"]
    case Complete(h) => HexLength(h); c.base + ["complete"] + ShardPath(Hex(h), c.layers)
  }

  function PathOf(c: Config, l: Loc): (p: Path)
    requires Admissible(c) && ValidLoc(l)
    ensures p != [] && Parent(p) == DirOf(c, l) && c.base < p
  {
    DirOf(c, l) + [FileName(l)]
  }

  /**
   Different files have different paths, and no file's path is an ancestor of another's,
   at every admissible depth: an operation on one file leaves all others alone.
   */
  lemma PathFrame(c: Config, a: Loc, b: Loc)
    requires Admissible(c) && ValidLoc(a) && ValidLoc(b)
    requires PathOf(c, a) <= PathOf(c, b)
    ensures a == b
  {
    var p, q := PathOf(c, a), PathOf(c, b);
    assert p[|c.base|] == q[|c.base|];
    assert |p| == |q|;
    assert p[|p| - 1] == FileName(a) && q[|q| - 1] == FileName(b);
    if a.Complete? {
      HexLength(a.hash);
      HexLength(b.hash);
      assert Hex(a.hash) == FileName(a)[..64] && Hex(b.hash) == FileName(b)[..64];
      HexInjective(a.hash, b.hash);
    } else {
      assert a.id == FileName(a)[..32] && b.id == FileName(b)[..32];
      assert FileName(a)[33] == FileName(b)[33];
    }
  }

  /** The ids of the generator are the hexadecimal forms of 16 bytes. */
  lemma {:induction false} HexIsHex(b: Bytes)
    ensures forall i :: 0 <= i < |Hex(b)| ==> IsHexDigit(Hex(b)[i])
  {
    forall i | 0 <= i < |Hex(b)| ensures IsHexDigit(Hex(b)[i]) {
      HexLength(b);
      HexDigits(b, i / 2);
      assert i == 2 * (i / 2) || i == 2 * (i / 2) + 1;
    }
  }

  lemma DigitsOfByte(c: char, d: char) returns (b: Byte)
    requires IsHexDigit(c) && IsHexDigit(d)
    ensures HexDigit(b as int / 16) == c && HexDigit(b as int % 16) == d
  {
    assert forall n: nat :: n < 16 ==> HexDigit(n) as int == if n < 10 then 48 + n else 87 + n;
    var high := if c <= '9' then c as int - 48 else c as int - 87;
    var low := if d <= '9' then d as int - 48 else d as int - 87;
    b := (high * 16 + low) as char;
    assert b as int / 16 == high && b as int % 16 == low;
  }

  lemma {:induction false} HexOfDigits(s: string) returns (b: Bytes)
    requires |s| % 2 == 0 && forall i :: 0 <= i < |s| ==> IsHexDigit(s[i])
    ensures s == Hex(b)
  {
    if s == "" {
      b := [];
    } else {
      var rest := HexOfDigits(s[2..]);
      assert IsHexDigit(s[0]) && IsHexDigit(s[1]);
      var first := DigitsOfByte(s[0], s[1]);
      b := [first] + rest;
      assert b[1..] == rest && s == [s[0], s[1]] + s[2..];
    }
  }

  lemma UidIff(id: Id)
    ensures IsUid(id) <==> exists b: Bytes :: |b| == 16 && id == Hex(b)
  {
    if IsUid(id) {
      var b := HexOfDigits(id);
      HexLength(b);
    }
    if b: Bytes :| |b| == 16 && id == Hex(b) {
      HexLength(b);
      HexIsHex(b);
    }
  }

  lemma ShardExample(name: string)
    requires |name| >= 2
    ensures ShardPath(name, 2) == [[name[0]], [name[1]]]
  {
  }

  /** The paths of one store, in full. */
  lemma PathExamples(id: Id, h: Hash)
    requires IsUid(id)
    ensures |Hex(h)| == 64
    ensures var c := Config(["srv", "files"], 2);
      && PathOf(c, Info(id)) == ["srv", "files", "meta", [id[0]], [id[1]], id + ".info"]
      && PathOf(c, Lock(id)) == ["srv", "files", "meta", [id[0]], [id[1]], id + ".lock"]
      && PathOf(c, Incomplete(id)) == ["srv", "files", "incomplete", id + ".bin"]
      && PathOf(c, Complete(h)) == ["srv", "files", "complete", [Hex(h)[0]], [Hex(h)[1]], Hex(h) + ".bin"]
  {
    HexLength(h);
    ShardExample(id);
    ShardExample(Hex(h));
  }

  /** The directory of one file is never below, nor at, the path of another. */
  lemma DirFrame(c: Config, a: Loc, b: Loc, d: Path)
    requires Admissible(c) && ValidLoc(a) && ValidLoc(b) && d <= DirOf(c, b)
    ensures !(PathOf(c, a) <= d)
  {
    if PathOf(c, a) <= d {
      assert DirOf(c, b) <= PathOf(c, b);
      PathFrame(c, a, b);
    }
  }
}
