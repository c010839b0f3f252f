/** The base64 encoder of the HTTP client, against the encoding of section 4 of RFC 4648. */
module Base64 {
  import opened Bytes

  const CODE: string := "ABCDEFGHIJKLM" + "NOPQRSTUVWXYZ" + "abcdefghijklm" + "nopqrstuvwxyz" + "0123456789+/="
  // the number of '=' in the table
  const PAD: nat := 64

  /** The place of a character in the table; 65 if it has none. */
  function Value(c: char): (v: nat)
    ensures v <= 65
  {
    if 'A' <= c <= 'Z' then (c - 'A') as nat
    else if 'a' <= c <= 'z' then (c - 'a') as nat + 26
    else if '0' <= c <= '9' then (c - '0') as nat + 52
    else if c == '+' then 62 else if c == '/' then 63 else if c == '=' then PAD else 65
  }

  /** Table 1 of the standard. */
  function Letter(v: nat): (c: char)
    requires v <= PAD
    ensures Value(c) == v
  {
    if v < 26 then 'A' + v as char
    else if v < 52 then 'a' + (v - 26) as char
    else if v < 62 then '0' + (v - 52) as char
    else if v == 62 then '+' else if v == 63 then '/' else '='
  }

  lemma CodeIsTable(v: nat)
    requires v <= PAD
    ensures |CODE| == 65 && CODE[v] == Letter(v)
  {
  }

  /** The 24 bits of three bytes. */
  function Triple(a: nat, b: nat, c: nat): nat {
    65536 * a + 256 * b + c
  }

  /** The 24 bits of four six-bit numbers. */
  function Quad(p: nat, q: nat, r: nat, s: nat): nat {
    262144 * p + 4096 * q + 64 * r + s
  }

  /** 24 bits as four six-bit numbers. */
  function Sextets(v: nat): (t: seq<nat>)
    requires v < 0x100_0000
    ensures |t| == 4 && (forall i :: 0 <= i < 4 ==> t[i] < PAD) && Quad(t[0], t[1], t[2], t[3]) == v
  {
    [v / 64 / 64 / 64, v / 64 / 64 % 64, v / 64 % 64, v % 64]
  }

  /** 24 bits as three bytes. */
  function Octets(v: nat): (b: seq<byte>)
    requires v < 0x100_0000
    ensures |b| == 3 && Triple(b[0], b[1], b[2]) == v
  {
    [v / 256 / 256, v / 256 % 256, v % 256]
  }

  lemma SextetsAreUnique(p: nat, q: nat, r: nat, s: nat)
    requires p < 64 && q < 64 && r < 64 && s < 64
    ensures Sextets(Quad(p, q, r, s)) == [p, q, r, s]
  {
    DivModUnique(Quad(p, q, r, s), 64, 4096 * p + 64 * q + r, s);
    DivModUnique(4096 * p + 64 * q + r, 64, 64 * p + q, r);
    DivModUnique(64 * p + q, 64, p, q);
  }

  lemma OctetsAreUnique(a: byte, b: byte, c: byte)
    ensures Octets(Triple(a, b, c)) == [a, b, c]
  {
    DivModUnique(Triple(a, b, c), 256, 256 * a + b, c);
    DivModUnique(256 * a + b, 256, a, b);
  }

  /** Groups of three bytes, the last one possibly shorter, in order. */
  function ByThrees(f: seq<byte> -> seq<nat>, s: seq<byte>): seq<nat> {
    if s == [] then []
    else
      var n := Min(3, |s|);
      f(s[..n]) + ByThrees(f, s[n..])
  }

  /** Every group has four digits, all in the table. */
  ghost predicate FourDigits(f: seq<byte> -> seq<nat>) {
    forall g: seq<byte> :: |f(g)| == 4 && forall i :: 0 <= i < 4 ==> f(g)[i] <= PAD
  }

  lemma {:induction false} ByThreesHas(f: seq<byte> -> seq<nat>, s: seq<byte>)
    requires FourDigits(f)
    ensures |ByThrees(f, s)| == 4 * ((|s| + 2) / 3)
    ensures forall i :: 0 <= i < |ByThrees(f, s)| ==> ByThrees(f, s)[i] <= PAD
  {
    if s != [] {
      var n := Min(3, |s|);
      ByThreesHas(f, s[n..]);
    }
  }

  lemma {:induction false} ByThreesAppends(f: seq<byte> -> seq<nat>, s: seq<byte>, g: seq<byte>)
    requires |s| % 3 == 0
    ensures ByThrees(f, s + g) == ByThrees(f, s) + ByThrees(f, g)
  {
    if s == [] {
      assert s + g == g;
    } else {
      ByThreesAppends(f, s[3..], g);
      assert (s + g)[..3] == s[..3] && (s + g)[3..] == s[3..] + g;
    }
  }

  /** A group: zero bits fill it up, and padding replaces the digits that hold none of the input. */
  function Block(g: seq<byte>): (t: seq<nat>)
    ensures |t| == 4 && forall i :: 0 <= i < 4 ==> t[i] <= PAD
  {
    if |g| == 0 then [PAD, PAD, PAD, PAD]
    else if |g| == 1 then Sextets(Triple(g[0], 0, 0))[..2] + [PAD, PAD]
    else if |g| == 2 then Sextets(Triple(g[0], g[1], 0))[..3] + [PAD]
    else Sextets(Triple(g[0], g[1], g[2]))
  }

  /** The digits of the encoding: four for every three bytes begun. */
  function Encode(s: seq<byte>): (t: seq<nat>)
    ensures |t| == 4 * ((|s| + 2) / 3)
    ensures forall i :: 0 <= i < |t| ==> t[i] <= PAD
  {
    ByThreesHas(Block, s);
    ByThrees(Block, s)
  }

  lemma EncodeAppends(s: seq<byte>, g: seq<byte>)
    requires |s| % 3 == 0
    ensures Encode(s + g) == Encode(s) + Encode(g)
  {
    ByThreesAppends(Block, s, g);
  }

  /** The first group of an encoding, and the rest. */
  lemma EncodeStarts(s: seq<byte>)
    requires s != []
    ensures var n := Min(3, |s|); Encode(s) == Block(s[..n]) + Encode(s[n..])
  {
  }

  /** The strict decoder: padding only at the end, and only zero bits under it. */
  function Decode(t: seq<nat>): Option<seq<byte>> {
    if t == [] then Some([])
    else if |t| < 4 || t[0] >= PAD || t[1] >= PAD then None
    else if t[2..] == [PAD, PAD] then
      var b := Octets(Quad(t[0], t[1], 0, 0));
      if b[1] == b[2] == 0 then Some(b[..1]) else None
    else if t[2] < PAD && t[3..] == [PAD] then
      var b := Octets(Quad(t[0], t[1], t[2], 0));
      if b[2] == 0 then Some(b[..2]) else None
    else if t[2] >= PAD || t[3] >= PAD then None
    else match Decode(t[4..])
      case None => None
      case Some(r) => Some(Octets(Quad(t[0], t[1], t[2], t[3])) + r)
  }

  /** What is encoded can be decoded. */
  lemma {:induction false} DecodeEncode(s: seq<byte>)
    ensures Decode(Encode(s)) == Some(s)
  {
    var t := Encode(s);
    if |s| >= 3 {
      DecodeEncode(s[3..]);
      EncodeStarts(s);
      OctetsAreUnique(s[0], s[1], s[2]);
      assert t[..4] == Sextets(Triple(s[0], s[1], s[2])) && t[4..] == Encode(s[3..]);
      assert s == [s[0], s[1], s[2]] + s[3..];
    } else if |s| == 2 {
      DecodeTwo(s[0], s[1]);
      assert s == [s[0], s[1]];
    } else if |s| == 1 {
      DecodeOne(s[0]);
      assert s == [s[0]];
    }
  }

  lemma DecodeOne(a: byte)
    ensures Decode(Encode([a])) == Some([a])
  {
    OctetsAreUnique(a, 0, 0);
    OneByte(a, a / 4, a % 4);
    ShortBlock([a]);
    DecodePadded(a / 4, a % 4 * 16, PAD);
    assert [a, 0, 0][..1] == [a];
  }

  lemma DecodeTwo(a: byte, b: byte)
    ensures Decode(Encode([a, b])) == Some([a, b])
  {
    OctetsAreUnique(a, b, 0);
    TwoBytes(a, b, a / 4, a % 4, b / 16, b % 16);
    ShortBlock([a, b]);
    DecodePadded(a / 4, a % 4 * 16 + b / 16, b % 16 * 4);
    assert [a, b, 0][..2] == [a, b];
  }

  /** The decoder on a padded group. */
  lemma DecodePadded(p: nat, q: nat, r: nat)
    requires p < 64 && q < 64 && r <= PAD
    ensures var b := Octets(Quad(p, q, if r == PAD then 0 else r, 0));
      Decode([p, q, r, PAD]) == if r == PAD then (if b[1] == b[2] == 0 then Some(b[..1]) else None)
                                else if b[2] == 0 then Some(b[..2]) else None
  {
    var t := [p, q, r, PAD];
    assert t[2..] == [r, PAD] && t[3..] == [PAD] && ([r, PAD] == [PAD, PAD] <==> r == PAD);
  }

  /** The decoder accepts exactly the encodings, and gives back what was encoded. */
  lemma DecodeIsInverse(t: seq<nat>, s: seq<byte>)
    ensures Decode(t) == Some(s) <==> t == Encode(s)
  {
    DecodeEncode(s);
    if Decode(t) == Some(s) {
      EncodeDecode(t);
    }
  }

  /** What can be decoded is an encoding. */
  lemma {:induction false} EncodeDecode(t: seq<nat>)
    requires Decode(t).Some?
    ensures Encode(Decode(t).value) == t
  {
    if |t| >= 4 {
      if t[2..] == [PAD, PAD] {
        EncodeOne(t);
      } else if t[3..] == [PAD] {
        EncodeTwo(t);
      } else {
        var rest := DecodedRest(t);
        EncodeDecode(t[4..]);
        EncodeGroup(t[0], t[1], t[2], t[3], rest);
        Splits(t);
      }
    }
  }

  lemma Splits(t: seq<nat>)
    requires |t| >= 4
    ensures t == [t[0], t[1], t[2], t[3]] + t[4..]
  {
  }

  lemma DecodedRest(t: seq<nat>) returns (rest: seq<byte>)
    requires |t| >= 4 && t[2..] != [PAD, PAD] && t[3..] != [PAD] && Decode(t).Some?
    ensures t[0] < PAD && t[1] < PAD && t[2] < PAD && t[3] < PAD && Decode(t[4..]) == Some(rest)
    ensures Decode(t).value == Octets(Quad(t[0], t[1], t[2], t[3])) + rest
  {
    rest := Decode(t[4..]).value;
  }

  lemma EncodeOne(t: seq<nat>)
    requires |t| >= 4 && t[2..] == [PAD, PAD] && Decode(t).Some?
    ensures Encode(Decode(t).value) == t
  {
    var b := Octets(Quad(t[0], t[1], 0, 0));
    assert Decode(t).value == b[..1];
    SextetsAreUnique(t[0], t[1], 0, 0);
    ShortBlock(b[..1]);
    assert t == [t[0], t[1]] + t[2..];
  }

  lemma EncodeTwo(t: seq<nat>)
    requires |t| >= 4 && t[2..] != [PAD, PAD] && t[3..] == [PAD] && Decode(t).Some?
    ensures Encode(Decode(t).value) == t
  {
    var b := Octets(Quad(t[0], t[1], t[2], 0));
    assert Decode(t).value == b[..2];
    SextetsAreUnique(t[0], t[1], t[2], 0);
    ShortBlock(b[..2]);
    assert t == [t[0], t[1], t[2]] + t[3..];
  }

  lemma EncodeGroup(p: nat, q: nat, r: nat, s: nat, rest: seq<byte>)
    requires p < 64 && q < 64 && r < 64 && s < 64
    ensures Encode(Octets(Quad(p, q, r, s)) + rest) == [p, q, r, s] + Encode(rest)
  {
    var b := Octets(Quad(p, q, r, s));
    SextetsAreUnique(p, q, r, s);
    EncodeAppends(b, rest);
    ShortBlock(b);
  }

  /** Digits as characters. */
  function Text(t: seq<nat>): (text: string)
    requires forall i :: 0 <= i < |t| ==> t[i] <= PAD
    ensures |text| == |t|
  {
    seq(|t|, i requires 0 <= i < |t| => Letter(t[i]))
  }

  /** Characters as digits. */
  function Digits(text: string): (t: seq<nat>)
    ensures |t| == |text|
  {
    seq(|text|, i requires 0 <= i < |text| => Value(text[i]))
  }

  lemma LetterOfValue(c: char)
    requires Value(c) <= PAD
    ensures Letter(Value(c)) == c
  {
  }

  lemma DigitsOfText(t: seq<nat>)
    requires forall i :: 0 <= i < |t| ==> t[i] <= PAD
    ensures Digits(Text(t)) == t
  {
    var u := Digits(Text(t));
    forall i | 0 <= i < |t|
      ensures u[i] == t[i]
    {
      assert u[i] == Value(Letter(t[i]));
    }
  }

  lemma TextOfDigits(text: string, t: seq<nat>)
    requires Digits(text) == t && forall i :: 0 <= i < |t| ==> t[i] <= PAD
    ensures Text(t) == text
  {
    var u := Text(t);
    forall i | 0 <= i < |text|
      ensures u[i] == text[i]
    {
      assert Digits(text)[i] == Value(text[i]);
      LetterOfValue(text[i]);
    }
  }

  /** At the level of characters: the text that decodes to s is the encoding of s and no other. */
  lemma TextRoundTrip(text: string, s: seq<byte>)
    ensures Decode(Digits(text)) == Some(s) <==> text == Text(Encode(s))
  {
    DecodeIsInverse(Digits(text), s);
    DigitsOfText(Encode(s));
    if Digits(text) == Encode(s) {
      TextOfDigits(text, Encode(s));
    }
  }

  // ----- the encoder -----

  /** The digits of the bytes after the last whole group, as far as they are complete. */
  function Partial(g: seq<byte>): (t: seq<nat>)
    requires |g| < 3
    ensures |t| == |g| && forall i :: 0 <= i < |t| ==> t[i] < PAD
  {
    if |g| == 0 then [] else if |g| == 1 then [g[0] / 4] else [g[0] / 4, g[0] % 4 * 16 + g[1] / 16]
  }

  /** The accumulator holds the bits not yet written in its low end, whatever has been shifted out on top. */
  predicate Pending(x: nat, g: seq<byte>) {
    && (|g| == 1 ==> x % 4 == g[0] % 4)
    && (|g| == 2 ==> x % 16 == g[1] % 16)
  }

  /** The six-bit digit above the factor s. */
  lemma DigitIs(y: nat, s: nat)
    requires s == 4 || s == 16 || s == 64
    ensures y / s % 64 == y % (64 * s) / s
  {
    var (q, r) := (y / (64 * s), y % (64 * s));
    var (u, t) := (r / s, r % s);
    assert y == s * (64 * q + u) + t;
    DivModUnique(y, s, 64 * q + u, t);
    DivModUnique(64 * q + u, 64, q, u);
  }

  /** Shifting a byte into the 32-bit accumulator, and the digits above it. */
  lemma ShiftIn(x: nat, b: byte)
    requires x < U32
    ensures var y := (256 * x + b) % U32;
      && y % 64 == b % 64 && y % 16 == b % 16 && y % 4 == b % 4
      && y / 4 % 64 == b / 4 && y / 16 % 64 == x % 4 * 16 + b / 16 && y / 64 % 64 == x % 16 * 4 + b / 64
  {
    var v := 256 * x + b;
    var y := v % U32;
    DivModUnique(v, 256, x, b);
    DivModUnique(v, 1024, x / 4, x % 4 * 256 + b);
    DivModUnique(v, 4096, x / 16, x % 16 * 256 + b);
    ModOfProduct(v, 256, 0x100_0000);
    ModOfProduct(v, 1024, 0x40_0000);
    ModOfProduct(v, 4096, 0x10_0000);
    DigitIs(y, 4);
    DigitIs(y, 16);
    DigitIs(y, 64);
    ModOfProduct(y, 64, 4);
    ModOfProduct(y, 16, 16);
    ModOfProduct(y, 4, 64);
  }

  /** The digits that a byte completes, from the accumulator y it has just been shifted into. */
  function Due(pending: nat, y: nat): (t: seq<nat>)
    ensures |t| == (if pending < 2 then 1 else 2) && forall i :: 0 <= i < |t| ==> t[i] < PAD
  {
    if pending == 0 then [y / 4 % 64] else if pending == 1 then [y / 16 % 64] else [y / 64 % 64, y % 64]
  }

  lemma PartialGrows(g: seq<byte>, b: byte, x: nat)
    requires |g| < 2 && x < U32 && Pending(x, g)
    ensures Partial(g + [b]) == Partial(g) + Due(|g|, (256 * x + b) % U32) && Pending((256 * x + b) % U32, g + [b])
  {
    ShiftIn(x, b);
  }

  lemma GroupCompletes(g: seq<byte>, b: byte, x: nat)
    requires |g| == 2 && x < U32 && Pending(x, g)
    ensures Sextets(Triple(g[0], g[1], b)) == Partial(g) + Due(2, (256 * x + b) % U32)
  {
    ShiftIn(x, b);
    GroupIs(g[0], g[1], b);
  }

  /** The sextets of three bytes, bit field by bit field. */
  lemma GroupIs(a: byte, b: byte, c: byte)
    ensures Sextets(Triple(a, b, c)) == [a / 4, a % 4 * 16 + b / 16, b % 16 * 4 + c / 64, c % 64]
  {
    assert Quad(a / 4, a % 4 * 16 + b / 16, b % 16 * 4 + c / 64, c % 64) == Triple(a, b, c);
    SextetsAreUnique(a / 4, a % 4 * 16 + b / 16, b % 16 * 4 + c / 64, c % 64);
  }

  /** The inner loop: it writes digits while the accumulator has six bits or more. */
  method Emit(out: array<char>, at: nat, x: nat, bits: nat) returns (i: nat, l: nat)
    requires (bits == 8 || bits == 10 || bits == 12) && at + bits / 6 <= out.Length
    modifies out
    ensures l == bits % 6 && i == at + bits / 6
    ensures out[..i] == old(out[..at]) + Text(Due(bits / 2 - 4, x))
  {
    assert Pow2(0) == 1 && Pow2(2) == 4 && Pow2(4) == 16 && Pow2(6) == 64;
    i, l := at, bits;
    while l >= 6
      invariant l == bits - 6 * (i - at) && at <= i <= at + bits / 6
      invariant out[..at] == old(out[..at])
      invariant i > at ==> out[at] == Letter(x / Pow2(bits - 6) % 64)
      invariant i > at + 1 ==> out[at + 1] == Letter(x / Pow2(bits - 12) % 64)
    {
      CodeIsTable(x / Pow2(l - 6) % 64);
      out[i] := CODE[x / Pow2(l - 6) % 64];
      i, l := i + 1, l - 6;
    }
  }

  /** What the encoder has written and still holds when it has read d + g, where d is whole groups. */
  ghost predicate State(d: seq<byte>, g: seq<byte>, x: nat, written: string) {
    && |d| % 3 == 0 && |g| < 3 && x < U32 && Pending(x, g)
    && 3 * (|written| - |g|) == 4 * |d| && written == Text(Encode(d) + Partial(g))
  }

  lemma TextAppends(a: seq<nat>, b: seq<nat>)
    requires forall i :: 0 <= i < |a| ==> a[i] <= PAD
    requires forall i :: 0 <= i < |b| ==> b[i] <= PAD
    ensures forall i :: 0 <= i < |a + b| ==> (a + b)[i] <= PAD
    ensures Text(a) + Text(b) == Text(a + b)
  {
  }

  /** The digits that become complete extend what was written. */
  lemma StateGrows(d: seq<byte>, g: seq<byte>, x: nat, written: string, b: byte)
    requires State(d, g, x, written)
    ensures var (y, w) := ((256 * x + b) % U32, written + Text(Due(|g|, (256 * x + b) % U32)));
      if |g| < 2 then State(d, g + [b], y, w) else State(d + (g + [b]), [], y, w)
  {
    var y := (256 * x + b) % U32;
    DigitsGrow(d, g, x, b, y);
    TextAppends(Encode(d) + Partial(g), Due(|g|, y));
    if |g| < 2 {
      StateIs(d, g + [b], y, written + Text(Due(|g|, y)), Encode(d) + Partial(g) + Due(|g|, y));
    } else {
      WholeGroups(d, g + [b]);
      StateIs(d + (g + [b]), [], y, written + Text(Due(|g|, y)), Encode(d) + Partial(g) + Due(|g|, y));
    }
  }

  lemma WholeGroups(d: seq<byte>, group: seq<byte>)
    requires |d| % 3 == 0 && |group| == 3
    ensures |d + group| % 3 == 0
  {
  }

  lemma StateIs(d: seq<byte>, g: seq<byte>, x: nat, written: string, digits: seq<nat>)
    requires |d| % 3 == 0 && |g| < 3 && x < U32 && Pending(x, g) && 3 * (|written| - |g|) == 4 * |d|
    requires digits == Encode(d) + Partial(g) && written == Text(digits)
    ensures State(d, g, x, written)
  {
  }

  lemma Associate(a: seq<nat>, b: seq<nat>, c: seq<nat>)
    ensures a + b + c == a + (b + c) && a + [] == a
  {
  }

  lemma DigitsGrow(d: seq<byte>, g: seq<byte>, x: nat, b: byte, y: nat)
    requires |d| % 3 == 0 && |g| < 3 && x < U32 && Pending(x, g) && y == (256 * x + b) % U32
    ensures Encode(d) + Partial(g) + Due(|g|, y)
         == if |g| < 2 then Encode(d) + Partial(g + [b]) else Encode(d + (g + [b])) + Partial([])
    ensures |g| < 2 ==> Pending(y, g + [b])
  {
    Associate(Encode(d), Partial(g), Due(|g|, y));
    if |g| < 2 {
      PartialGrows(g, b, x);
    } else {
      GroupGrows(d, g, b, x);
      Associate(Encode(d + (g + [b])), [], []);
    }
  }

  lemma GroupGrows(d: seq<byte>, g: seq<byte>, b: byte, x: nat)
    requires |d| % 3 == 0 && |g| == 2 && x < U32 && Pending(x, g)
    ensures Encode(d + (g + [b])) == Encode(d) + (Partial(g) + Due(2, (256 * x + b) % U32))
  {
    var whole := [g[0], g[1], b];
    assert g + [b] == whole && whole[3..] == [];
    EncodeAppends(d, whole);
    GroupCompletes(g, b, x);
  }

  /** What is left to write after the last byte: a digit of pending bits, and padding. */
  function Tail(pending: nat, x: nat): (t: seq<nat>)
    ensures forall i :: 0 <= i < |t| ==> t[i] <= PAD
  {
    if pending == 0 then [] else if pending == 1 then [x % 4 * 16, PAD, PAD] else [x % 16 * 4, PAD]
  }

  lemma StateEnds(d: seq<byte>, g: seq<byte>, x: nat, written: string)
    requires State(d, g, x, written)
    ensures Text(Encode(d + g)) == written + Text(Tail(|g|, x))
  {
    EncodeAppends(d, g);
    LastGroup(g, x);
    TextAppends(Encode(d) + Partial(g), Tail(|g|, x));
    Associate(Encode(d), Partial(g), Tail(|g|, x));
  }

  lemma LastGroup(g: seq<byte>, x: nat)
    requires |g| < 3 && Pending(x, g)
    ensures Encode(g) == Partial(g) + Tail(|g|, x)
  {
    if |g| == 1 {
      LastOne(g[0], x);
      assert g == [g[0]];
    } else if |g| == 2 {
      LastTwo(g[0], g[1], x);
      assert g == [g[0], g[1]];
    }
  }

  lemma LastOne(a: byte, x: nat)
    requires x % 4 == a % 4
    ensures Encode([a]) == [a / 4, x % 4 * 16, PAD, PAD]
  {
    OneByte(a, a / 4, x % 4);
    ShortBlock([a]);
  }

  lemma LastTwo(a: byte, b: byte, x: nat)
    requires x % 16 == b % 16
    ensures Encode([a, b]) == [a / 4, a % 4 * 16 + b / 16, x % 16 * 4, PAD]
  {
    TwoBytes(a, b, a / 4, a % 4, b / 16, x % 16);
    ShortBlock([a, b]);
  }

  lemma OneByte(a: byte, p: nat, q: nat)
    requires a == 4 * p + q && q < 4
    ensures Sextets(Triple(a, 0, 0)) == [p, q * 16, 0, 0]
  {
    assert Quad(p, q * 16, 0, 0) == Triple(a, 0, 0);
    SextetsAreUnique(p, q * 16, 0, 0);
  }

  lemma TwoBytes(a: byte, b: byte, p: nat, q: nat, r: nat, s: nat)
    requires a == 4 * p + q && q < 4 && b == 16 * r + s && s < 16
    ensures Sextets(Triple(a, b, 0)) == [p, q * 16 + r, s * 4, 0]
  {
    assert Quad(p, q * 16 + r, s * 4, 0) == Triple(a, b, 0);
    SextetsAreUnique(p, q * 16 + r, s * 4, 0);
  }

  lemma ShortBlock(g: seq<byte>)
    requires 1 <= |g| <= 3
    ensures Encode(g) == Block(g)
  {
    EncodeStarts(g);
    assert g[..|g|] == g && g[|g|..] == [];
  }

  lemma LastDigit(x: nat, pending: nat)
    requires pending == 1 || pending == 2
    ensures x * Pow2(6 - 2 * pending) % U32 % 64 == Tail(pending, x)[0]
  {
    assert Pow2(4) == 16 && Pow2(2) == 4;
    if pending == 1 {
      ModOfProduct(16 * x, 64, 0x400_0000);
      DivModUnique(16 * x, 64, x / 4, x % 4 * 16);
    } else {
      ModOfProduct(4 * x, 64, 0x400_0000);
      DivModUnique(4 * x, 64, x / 16, x % 16 * 4);
    }
  }

  /** The digit that takes the bits still pending. */
  method PutLast(out: array<char>, at: nat, acc: nat, bits: nat)
    requires (bits == 2 || bits == 4) && at < out.Length
    modifies out
    ensures out[..at] == old(out[..at]) && out[at] == Letter(Tail(bits / 2, acc)[0])
  {
    LastDigit(acc, bits / 2);
    var x := acc * Pow2(6 - bits) % U32;
    CodeIsTable(x % 64);
    out[at] := CODE[x % 64];
  }

  /** Padding up to a multiple of four. */
  method Pad(out: array<char>, ghost at: nat, from: nat, ghost tail: seq<nat>) returns (i: nat)
    requires at <= from <= at + |tail| < out.Length && (at + |tail|) % 4 == 0 && from + 3 > at + |tail|
    requires forall j :: 0 <= j < |tail| ==> tail[j] <= PAD && (from - at <= j ==> tail[j] == PAD)
    requires forall j :: 0 <= j < from - at ==> out[at + j] == Letter(tail[j])
    modifies out
    ensures i == at + |tail| && out[..at] == old(out[..at])
    ensures forall j :: 0 <= j < |tail| ==> out[at + j] == Letter(tail[j])
  {
    i := from;
    while i % 4 != 0
      invariant from <= i <= at + |tail| && out[..at] == old(out[..at])
      invariant forall j :: 0 <= j < i - at ==> out[at + j] == Letter(tail[j])
      decreases at + |tail| - i
    {
      out[i] := '=';
      i := i + 1;
    }
  }

  /** The last digit, the padding and the terminator. */
  method Finish(out: array<char>, at: nat, acc: nat, bits: nat)
    requires bits == 0 || bits == 2 || bits == 4
    requires at % 4 == bits / 2 && at + |Tail(bits / 2, acc)| < out.Length
    modifies out
    ensures var text := old(out[..at]) + Text(Tail(bits / 2, acc)); out[..|text| + 1] == text + ['\0']
  {
    var i := at;
    ghost var tail := Tail(bits / 2, acc);
    if bits > 0 {
      PutLast(out, at, acc, bits);
      i := i + 1;
    }
    i := Pad(out, at, i, tail);
    assert out[..i] == old(out[..at]) + Text(tail);
    out[i] := '\0';
  }

  /** One byte of the input: it is shifted in, and the digits it completes are written. */
  method PutByte(out: array<char>, at: nat, acc: nat, bits: nat, b: byte, ghost d: seq<byte>, ghost g: seq<byte>)
    returns (i: nat, x: nat, l: nat, ghost d': seq<byte>, ghost g': seq<byte>)
    requires at + 1 + (if |g| == 2 then 1 else 0) < out.Length && bits == 2 * |g| && State(d, g, acc, out[..at])
    modifies out
    ensures i < out.Length && State(d', g', x, out[..i]) && l == 2 * |g'| && d' + g' == d + g + [b]
  {
    StateGrows(d, g, acc, out[..at], b);
    x := (256 * acc + b) % U32;
    i, l := Emit(out, at, x, bits + 8);
    d', g' := if |g| < 2 then d else d + (g + [b]), if |g| < 2 then g + [b] else [];
  }

  /** The loop over the bytes before the terminator. */
  method PutBytes(out: array<char>, input: seq<byte>, ghost n: nat)
    returns (i: nat, x: nat, l: nat, ghost d: seq<byte>, ghost g: seq<byte>)
    requires n < |input| && input[n] == 0 && forall k :: 0 <= k < n ==> input[k] != 0
    requires 4 * ((n + 2) / 3) < out.Length
    modifies out
    ensures i < out.Length && d + g == input[..n] && l == 2 * |g| && State(d, g, x, out[..i])
  {
    var k := 0;
    i, x, l, d, g := 0, 0, 0, [], [];
    while input[k] != 0
      invariant 0 <= k <= n && i < out.Length && d + g == input[..k] && l == 2 * |g| && State(d, g, x, out[..i])
      decreases n - k
    {
      RoomForDigits(|d|, |g|, i, n);
      assert input[..k + 1] == input[..k] + [input[k]];
      i, x, l, d, g := PutByte(out, i, x, l, input[k], d, g);
      k := k + 1;
    }
  }

  /** httpclient_base64enc on the NUL-terminated string of n bytes. */
  method Base64Enc(out: array<char>, input: seq<byte>, ghost n: nat)
    requires n < |input| && input[n] == 0 && forall k :: 0 <= k < n ==> input[k] != 0
    requires 4 * ((n + 2) / 3) < out.Length
    modifies out
    ensures var text := Text(Encode(input[..n]));
      && |text| == 4 * ((n + 2) / 3) && out[..|text| + 1] == text + ['\0']
      && Decode(Digits(text)) == Some(input[..n])
  {
    var i, x, l, d, g := PutBytes(out, input, n);
    RoomForDigits(|d|, |g|, i, n);
    StateEnds(d, g, x, out[..i]);
    Finish(out, i, x, l);
    TextRoundTrip(Text(Encode(input[..n])), input[..n]);
  }

  /** The digits of the next byte, or of the tail, fit if the whole encoding does. */
  lemma RoomForDigits(dn: nat, gn: nat, written: nat, n: nat)
    requires dn % 3 == 0 && gn < 3 && 3 * (written - gn) == 4 * dn && dn + gn <= n
    ensures dn + gn < n ==> written + 1 + (if gn == 2 then 1 else 0) <= 4 * ((n + 2) / 3)
    ensures written % 4 == gn && written <= 4 * ((n + 2) / 3)
    ensures dn + gn == n ==> written + (if gn == 0 then 0 else 4 - gn) == 4 * ((n + 2) / 3)
  {
    assert written == dn / 3 * 4 + gn;
  }
}
