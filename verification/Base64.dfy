/** Base64 as lib/ftm_base64.c computes it (section 4 of RFC 4648), over caller-supplied
    arrays, with the decoding table that the first decode fills in. */
module Base64 {
  import opened Bytes

  type Char8 = c: char | c as int < 0x100 witness 'A'
  /** A symbol is a six-bit value, or PAD for '='. */
  type Symbol = v: int | 0 <= v <= 64

  datatype Result = Ok(length: nat) | BufferTooSmall | InvalidArguments

  const PAD: Symbol := 64

  // ---- Characters ----

  const ENCODING: string :=
    "ABCDEFGH" + "IJKLMNOP" + "QRSTUVWX" + "YZabcdef" + "ghijklmn" + "opqrstuv" + "wxyz0123" + "456789+/"

  /** A-Z, a-z, 0-9, + and /, and '=' for padding. */
  function CharOf(v: Symbol): Char8 {
    if v < 26 then ('A' as int + v) as char
    else if v < 52 then ('a' as int + v - 26) as char
    else if v < 62 then ('0' as int + v - 52) as char
    else if v == 62 then '+'
    else if v == 63 then '/'
    else '='
  }

  predicate InAlphabet(c: Char8) {
    'A' <= c <= 'Z' || 'a' <= c <= 'z' || '0' <= c <= '9' || c == '+' || c == '/'
  }

  /** The decoding table once filled. Characters outside the alphabet read an untouched zero
      slot, except NUL, whose slot doubles as the "table is filled" flag. */
  function ValueOf(c: Char8): (v: Symbol)
    ensures v < 64
  {
    if 'A' <= c <= 'Z' then c as int - 'A' as int
    else if 'a' <= c <= 'z' then c as int - 'a' as int + 26
    else if '0' <= c <= '9' then c as int - '0' as int + 52
    else if c == '+' then 62
    else if c == '/' then 63
    else if c == 0 as char then 1
    else 0
  }

  function SymbolOf(c: Char8): Symbol {
    if c == '=' then PAD else ValueOf(c)
  }

  /** The character of a six-bit value is the one at that place of the encoding table. */
  lemma CharIsTabled(v: Symbol)
    requires v < 64
    ensures |ENCODING| == 64 && ENCODING[v] == CharOf(v)
  {
  }

  lemma CharSymbol(v: Symbol)
    ensures SymbolOf(CharOf(v)) == v && (v < 64 ==> InAlphabet(CharOf(v)) && ValueOf(CharOf(v)) == v)
  {
  }

  lemma SymbolChar(c: Char8)
    ensures CharOf(SymbolOf(c)) == c <==> InAlphabet(c) || c == '='
  {
  }

  ghost function Text(ss: seq<Symbol>): (s: seq<Char8>)
    ensures |s| == |ss| && forall i :: 0 <= i < |ss| ==> s[i] == CharOf(ss[i])
  {
    seq(|ss|, i requires 0 <= i < |ss| => CharOf(ss[i]))
  }

  ghost function Symbols(s: seq<Char8>): (ss: seq<Symbol>)
    ensures |ss| == |s| && forall i :: 0 <= i < |s| ==> ss[i] == SymbolOf(s[i])
  {
    seq(|s|, i requires 0 <= i < |s| => SymbolOf(s[i]))
  }

  lemma SymbolsOfText(ss: seq<Symbol>)
    ensures Symbols(Text(ss)) == ss
  {
  }

  lemma TextOfSymbols(s: seq<Char8>)
    ensures Text(Symbols(s)) == s <==> forall i :: 0 <= i < |s| ==> InAlphabet(s[i]) || s[i] == '='
  {
  }

  // ---- Reference definitions, group by group ----

  /** The symbols of one group of one to three bytes, with a filler for the missing ones. */
  ghost function Quad(g: seq<Byte>, filler: Symbol): (q: seq<Symbol>)
    requires 0 < |g| <= 3
    ensures |q| == 4
  {
    if |g| == 1 then [g[0] / 4, g[0] % 4 * 16, filler, filler]
    else if |g| == 2 then [g[0] / 4, g[0] % 4 * 16 + g[1] / 16, g[1] % 16 * 4, filler]
    else [g[0] / 4, g[0] % 4 * 16 + g[1] / 16, g[1] % 16 * 4 + g[2] / 64, g[2] % 64]
  }

  ghost function EncodeSymbols(d: seq<Byte>, filler: Symbol): (s: seq<Symbol>)
    ensures |s| == 4 * ((|d| + 2) / 3)
  {
    if |d| == 0 then []
    else if |d| <= 3 then Quad(d, filler)
    else Quad(d[..3], filler) + EncodeSymbols(d[3..], filler)
  }

  /** The encoding of section 4 of RFC 4648. */
  ghost function Encoded(d: seq<Byte>): seq<Char8> {
    Text(EncodeSymbols(d, PAD))
  }

  ghost function Bits(v: Symbol): (n: nat)
    ensures n < 64
  {
    if v == PAD then 0 else v
  }

  ghost function Triple(q: seq<Symbol>): (t: seq<Byte>)
    requires |q| == 4
    ensures |t| == 3
  {
    [Bits(q[0]) * 4 + Bits(q[1]) / 16, Bits(q[1]) % 16 * 16 + Bits(q[2]) / 4, Bits(q[2]) % 4 * 64 + Bits(q[3])]
  }

  ghost function Triples(s: seq<Symbol>): (d: seq<Byte>)
    ensures |d| == |s| / 4 * 3
  {
    if |s| < 4 then [] else Triple(s[..4]) + Triples(s[4..])
  }

  /** Two padding symbols at the end are counted, wherever they stand. */
  ghost function OutputLength(s: seq<Symbol>): (n: nat)
    requires |s| > 0 && |s| % 4 == 0
    ensures |s| / 4 * 3 - 2 <= n <= |s| / 4 * 3
  {
    |s| / 4 * 3 - (if s[|s| - 1] == PAD then 1 else 0) - (if s[|s| - 2] == PAD then 1 else 0)
  }

  ghost function DecodeSymbols(s: seq<Symbol>): (d: seq<Byte>)
    requires |s| > 0 && |s| % 4 == 0
    ensures |d| == OutputLength(s)
  {
    Triples(s)[..OutputLength(s)]
  }

  ghost function Decoded(s: seq<Char8>): (d: seq<Byte>)
    requires |s| > 0 && |s| % 4 == 0
  {
    DecodeSymbols(Symbols(s))
  }

  /** Section 3.5 of RFC 4648: padding only at the end, and the bits it discards are zero. */
  ghost predicate CanonicalSymbols(s: seq<Symbol>) {
    |s| >= 4 && s[0] != PAD && s[1] != PAD &&
    if |s| > 4 then s[2] != PAD && s[3] != PAD && CanonicalSymbols(s[4..])
    else if s[3] != PAD then s[2] != PAD
    else if s[2] != PAD then s[2] % 4 == 0
    else s[1] % 16 == 0
  }

  ghost predicate Canonical(s: seq<Char8>) {
    (forall i :: 0 <= i < |s| ==> InAlphabet(s[i]) || s[i] == '=') && CanonicalSymbols(Symbols(s))
  }

  /** The byte at a place, or zero beyond the end. */
  ghost function ByteAt(d: seq<Byte>, i: nat): int {
    if i < |d| then d[i] else 0
  }

  /** What a group of the encoding says: the places of its four characters in the encoding table are
      the digits, to the base of 64, of the 24-bit number that its three bytes make, missing bytes
      being zero. A character that has no byte of its own is '='. */
  lemma {:induction false} EncodedGroup(d: seq<Byte>, n: nat) returns (a: nat, b: nat, c: nat, e: nat)
    requires 3 * n < |d|
    ensures a < 64 && b < 64 && c < 64 && e < 64 && |ENCODING| == 64
    ensures a * 0x4_0000 + b * 0x1000 + c * 64 + e ==
            ByteAt(d, 3 * n) * 0x1_0000 + ByteAt(d, 3 * n + 1) * 0x100 + ByteAt(d, 3 * n + 2)
    ensures |Encoded(d)| == 4 * ((|d| + 2) / 3) >= 4 * n + 4
    ensures Encoded(d)[4 * n..4 * n + 4] ==
            [ENCODING[a], ENCODING[b], if 3 * n + 1 < |d| then ENCODING[c] else '=',
             if 3 * n + 2 < |d| then ENCODING[e] else '=']
  {
    if n == 0 {
      a, b, c, e := FirstGroup(d);
    } else {
      a, b, c, e := EncodedGroup(d[3..], n - 1);
      var i, j := 3 * (n - 1), 4 * (n - 1);
      LaterGroup(d, i, j);
      LaterGroup(d, i + 1, j);
      LaterGroup(d, i + 2, j);
    }
  }

  lemma LaterGroup(d: seq<Byte>, i: nat, j: nat)
    requires |d| > 3 && j + 4 <= |Encoded(d[3..])|
    ensures ByteAt(d[3..], i) == ByteAt(d, i + 3)
    ensures |Encoded(d)| == 4 + |Encoded(d[3..])| == 4 * ((|d| + 2) / 3)
    ensures Encoded(d[3..])[j..j + 4] == Encoded(d)[j + 4..j + 8]
  {
    var first, later := Quad(d[..3], PAD), EncodeSymbols(d[3..], PAD);
    assert EncodeSymbols(d, PAD) == first + later;
    assert Encoded(d) == Text(first) + Text(later);
    assert (Text(first) + Text(later))[j + 4..j + 8] == Text(later)[j..j + 4];
  }

  lemma FirstGroup(d: seq<Byte>) returns (a: nat, b: nat, c: nat, e: nat)
    requires d != []
    ensures a < 64 && b < 64 && c < 64 && e < 64 && |ENCODING| == 64
    ensures a * 0x4_0000 + b * 0x1000 + c * 64 + e ==
            ByteAt(d, 0) * 0x1_0000 + ByteAt(d, 1) * 0x100 + ByteAt(d, 2)
    ensures |Encoded(d)| == 4 * ((|d| + 2) / 3) >= 4
    ensures Encoded(d)[..4] ==
            [ENCODING[a], ENCODING[b], if 1 < |d| then ENCODING[c] else '=', if 2 < |d| then ENCODING[e] else '=']
  {
    var g := if |d| <= 3 then d else d[..3];
    var q, p := Quad(g, 0), Quad(g, PAD);
    a, b, c, e := q[0], q[1], q[2], q[3];
    assert EncodeSymbols(d, PAD)[..4] == p;
    CharIsTabled(a);
    CharIsTabled(b);
    CharIsTabled(c);
    CharIsTabled(e);
  }

  // ---- Round trips ----

  /** Decoding recovers every non-empty byte string. */
  lemma DecodeUndoesEncode(d: seq<Byte>)
    requires |d| > 0
    ensures Decoded(Encoded(d)) == d
  {
    SymbolsOfText(EncodeSymbols(d, PAD));
    BytesBack(d);
  }

  lemma {:induction false} BytesBack(d: seq<Byte>)
    requires |d| > 0
    ensures DecodeSymbols(EncodeSymbols(d, PAD)) == d
  {
    var s := EncodeSymbols(d, PAD);
    if |d| <= 3 {
      assert s[4..] == [] && s[..4] == s;
      assert Triples(s) == Triple(s);
      QuadBack(d);
      QuadLength(d);
    } else {
      BytesBack(d[3..]);
      var q, rest := Quad(d[..3], PAD), EncodeSymbols(d[3..], PAD);
      QuadBack(d[..3]);
      DecodeAppend(q, rest);
      assert d == d[..3] + d[3..];
    }
  }

  lemma DecodeAppend(q: seq<Symbol>, s: seq<Symbol>)
    requires |q| == 4 && |s| > 0 && |s| % 4 == 0
    ensures DecodeSymbols(q + s) == Triple(q) + DecodeSymbols(s)
  {
  }

  lemma QuadLength(g: seq<Byte>)
    requires 0 < |g| <= 3
    ensures OutputLength(Quad(g, PAD)) == |g|
  {
  }

  lemma QuadBack(g: seq<Byte>)
    requires 0 < |g| <= 3
    ensures Triple(Quad(g, PAD))[..|g|] == g
    ensures |g| == 3 ==> Triple(Quad(g, PAD)) == g
  {
    var x, y, z := g[0], if |g| > 1 then g[1] else 0, if |g| > 2 then g[2] else 0;
    RejoinBytes(x, y, z);
    var t := Triple(Quad(g, PAD));
    assert t[0] == x;
    assert |g| > 1 ==> t[1] == y;
    assert |g| > 2 ==> t[2] == z;
  }

  lemma RejoinBytes(x: Byte, y: Byte, z: Byte)
    ensures x / 4 * 4 + (x % 4 * 16 + y / 16) / 16 == x
    ensures (x % 4 * 16 + y / 16) % 16 * 16 + (y % 16 * 4 + z / 64) / 4 == y
    ensures (y % 16 * 4 + z / 64) % 4 * 64 + z % 64 == z
  {
  }

  /** Re-encoding gives a text back exactly when the text was canonical. */
  lemma EncodeUndoesDecodeIff(s: seq<Char8>)
    requires |s| > 0 && |s| % 4 == 0
    ensures Encoded(Decoded(s)) == s <==> Canonical(s)
  {
    var ss := Symbols(s);
    TextOfSymbols(s);
    SymbolsBackIff(ss);
    if Encoded(Decoded(s)) == s {
      SymbolsOfText(EncodeSymbols(DecodeSymbols(ss), PAD));
    }
  }

  lemma SymbolsBackIff(s: seq<Symbol>)
    requires |s| > 0 && |s| % 4 == 0
    ensures EncodeSymbols(DecodeSymbols(s), PAD) == s <==> CanonicalSymbols(s)
  {
    if CanonicalSymbols(s) {
      SymbolsBack(s);
    } else {
      EncodeIsCanonical(DecodeSymbols(s));
    }
  }

  lemma {:induction false} EncodeIsCanonical(d: seq<Byte>)
    requires |d| > 0
    ensures CanonicalSymbols(EncodeSymbols(d, PAD))
  {
    if |d| <= 3 {
    } else {
      EncodeIsCanonical(d[3..]);
      assert EncodeSymbols(d, PAD)[4..] == EncodeSymbols(d[3..], PAD);
    }
  }

  lemma {:induction false} SymbolsBack(s: seq<Symbol>)
    requires |s| % 4 == 0 && CanonicalSymbols(s)
    ensures EncodeSymbols(DecodeSymbols(s), PAD) == s
  {
    if |s| == 4 {
      assert s[..4] == s && s[4..] == [];
      assert Triples(s) == Triple(s);
      if s[3] != PAD {
        assert DecodeSymbols(s) == Triple(s);
        FullQuad(s);
      } else if s[2] != PAD {
        OnePadQuad(s);
      } else {
        TwoPadQuad(s);
      }
    } else {
      SymbolsBack(s[4..]);
      var first, rest := Triple(s[..4]), DecodeSymbols(s[4..]);
      assert s == s[..4] + s[4..];
      DecodeAppend(s[..4], s[4..]);
      assert (first + rest)[..3] == first && (first + rest)[3..] == rest;
      FullQuad(s[..4]);
    }
  }

  lemma FullQuad(q: seq<Symbol>)
    requires |q| == 4 && forall i :: 0 <= i < 4 ==> q[i] != PAD
    ensures Quad(Triple(q), PAD) == q
  {
    var t := Triple(q);
    ResplitSymbols(q[0], q[1], q[2], q[3]);
    assert t[0] / 4 == q[0] && t[0] % 4 * 16 + t[1] / 16 == q[1];
    assert t[1] % 16 * 4 + t[2] / 64 == q[2] && t[2] % 64 == q[3];
  }

  lemma OnePadQuad(q: seq<Symbol>)
    requires |q| == 4 && q[0] != PAD && q[1] != PAD && q[2] != PAD && q[2] % 4 == 0 && q[3] == PAD
    ensures Quad(Triple(q)[..2], PAD) == q
  {
    var t := Triple(q)[..2];
    ResplitSymbols(q[0], q[1], q[2], 0);
    assert t[0] / 4 == q[0] && t[0] % 4 * 16 + t[1] / 16 == q[1] && t[1] % 16 * 4 == q[2];
  }

  lemma TwoPadQuad(q: seq<Symbol>)
    requires |q| == 4 && q[0] != PAD && q[1] != PAD && q[1] % 16 == 0 && q[2] == q[3] == PAD
    ensures Quad(Triple(q)[..1], PAD) == q
  {
  }

  lemma ResplitSymbols(a: int, b: int, c: int, e: int)
    requires 0 <= a < 64 && 0 <= b < 64 && 0 <= c < 64 && 0 <= e < 64
    ensures (a * 4 + b / 16) / 4 == a
    ensures (a * 4 + b / 16) % 4 * 16 + (b % 16 * 16 + c / 4) / 16 == b
    ensures (b % 16 * 16 + c / 4) % 16 * 4 + (c % 4 * 64 + e) / 64 == c
    ensures (c % 4 * 64 + e) % 64 == e
    ensures c % 4 == 0 ==> (b % 16 * 16 + c / 4) % 16 * 4 == c
    ensures b % 16 == 0 ==> (a * 4 + b / 16) % 4 * 16 == b
  {
  }

  // ---- The code ----

  /** Each pass of the encoding loop appends one group. */
  lemma {:induction false} EncodeExtend(d: seq<Byte>, n: nat, filler: Symbol)
    requires n % 3 == 0 && n < |d| <= n + 3
    ensures EncodeSymbols(d, filler) == EncodeSymbols(d[..n], filler) + Quad(d[n..], filler)
  {
    if n == 0 {
      assert d[..0] == [] && d[0..] == d;
    } else {
      EncodeExtend(d[3..], n - 3, filler);
      assert d[3..][..n - 3] == d[..n][3..] && d[3..][n - 3..] == d[n..];
      assert d[..3] == d[..n][..3];
      EncodeFirst(d[..n], filler);
    }
  }

  lemma EncodeFirst(d: seq<Byte>, filler: Symbol)
    requires |d| >= 3
    ensures EncodeSymbols(d, filler) == Quad(d[..3], filler) + EncodeSymbols(d[3..], filler)
  {
  }

  ghost predicate PaddedTo(s: seq<Symbol>, t: seq<Symbol>, pads: nat)
    requires pads <= |s| == |t|
  {
    && (forall i :: 0 <= i < |t| - pads ==> t[i] == s[i])
    && (forall i :: |t| - pads <= i < |t| ==> t[i] == PAD)
  }

  /** The modulo table {0, 2, 1}. */
  function PadCount(n: nat): (p: nat)
    ensures p <= 2 && p <= 4 * ((n + 2) / 3)
  {
    (3 - n % 3) % 3
  }

  /** What the loop leaves behind becomes the encoding once its last characters are padded. */
  lemma {:induction false} PadsLast(d: seq<Byte>, filler: Symbol)
    ensures PaddedTo(EncodeSymbols(d, filler), EncodeSymbols(d, PAD), PadCount(|d|))
  {
    if d == [] {
    } else if |d| <= 3 {
      QuadPads(d, filler);
    } else {
      PadsLast(d[3..], filler);
      var q, s, t := Quad(d[..3], PAD), EncodeSymbols(d[3..], filler), EncodeSymbols(d[3..], PAD);
      assert PadCount(|d[3..]|) == PadCount(|d|);
      assert Quad(d[..3], filler) == q;
      PaddedAppend(q, s, t, PadCount(|d|));
    }
  }

  lemma QuadPads(g: seq<Byte>, filler: Symbol)
    requires 0 < |g| <= 3
    ensures PaddedTo(Quad(g, filler), Quad(g, PAD), 3 - |g|)
  {
  }

  lemma PaddedAppend(q: seq<Symbol>, s: seq<Symbol>, t: seq<Symbol>, pads: nat)
    requires pads <= |s| == |t| && PaddedTo(s, t, pads)
    ensures PaddedTo(q + s, q + t, pads)
  {
  }

  /** The four characters cut out of a group's 24-bit value encode the group's bytes. */
  lemma GroupOf(g: seq<Byte>, value: nat)
    requires 0 < |g| <= 3 && value == Value(g)
    ensures Quad(g, 0) == [value / 0x4_0000 % 64, value / 0x1000 % 64, value / 64 % 64, value % 64]
  {
    var x: int, y: int, z: int := g[0], if |g| > 1 then g[1] else 0, if |g| > 2 then g[2] else 0;
    var a, b, c, e := x / 4, x % 4 * 16 + y / 16, y % 16 * 4 + z / 64, z % 64;
    assert value == 0x4_0000 * a + 0x1000 * b + 64 * c + e;
    Cut(64, 0x1000 * a + 64 * b + c, e);
    Cut(64, 64 * a + b, c);
    Cut(0x1000, 64 * a + b, 64 * c + e);
    Cut(64, a, b);
    Cut(0x4_0000, a, 0x1000 * b + 64 * c + e);
  }

  ghost function Value(g: seq<Byte>): nat
    requires 0 < |g| <= 3
  {
    g[0] as int * 0x1_0000 + (if |g| > 1 then g[1] as int * 0x100 else 0) + (if |g| > 2 then g[2] else 0)
  }

  /** The three bytes cut out of a group's 24-bit value are its triple. */
  lemma GroupBytes(q: seq<Symbol>, value: nat)
    requires |q| == 4 && value == GroupSum(q, 4)
    ensures [value / 0x1_0000 % 0x100, value / 0x100 % 0x100, value % 0x100] == Triple(q)
  {
    var a, b, c, e := Bits(q[0]), Bits(q[1]), Bits(q[2]), Bits(q[3]);
    GroupValue(q);
    var x, y, z := a * 4 + b / 16, b % 16 * 16 + c / 4, c % 4 * 64 + e;
    assert value == 0x1_0000 * x + 0x100 * y + z;
    Cut(0x100, 0x100 * x + y, z);
    Cut(0x100, x, y);
    Cut(0x1_0000, x, 0x100 * y + z);
  }

  /** The shift (3 - k) * 6 of the k-th character of a group, as a factor. */
  function Weight(k: nat): nat
    requires k < 4
  {
    if k == 0 then 0x4_0000 else if k == 1 then 0x1000 else if k == 2 then 64 else 1
  }

  ghost function GroupSum(q: seq<Symbol>, k: nat): nat
    requires |q| == 4 && k <= 4
  {
    if k == 0 then 0 else GroupSum(q, k - 1) + Bits(q[k - 1]) * Weight(k - 1)
  }

  lemma GroupValue(q: seq<Symbol>)
    requires |q| == 4
    ensures GroupSum(q, 4) == Bits(q[0]) * 0x4_0000 + Bits(q[1]) * 0x1000 + Bits(q[2]) * 64 + Bits(q[3])
  {
    assert GroupSum(q, 4) == GroupSum(q, 3) + Bits(q[3]) && GroupSum(q, 3) == GroupSum(q, 2) + Bits(q[2]) * 64;
    assert GroupSum(q, 2) == GroupSum(q, 1) + Bits(q[1]) * 0x1000 && GroupSum(q, 1) == Bits(q[0]) * 0x4_0000;
  }

  lemma Cut(m: int, q: int, r: int)
    requires m in {64, 0x100, 0x1000, 0x1_0000, 0x4_0000} && 0 <= r < m
    ensures (m * q + r) / m == q && (m * q + r) % m == r
  {
  }

  lemma {:induction false} TriplesExtend(s: seq<Symbol>, n: nat)
    requires n + 4 <= |s| && n % 4 == 0
    ensures Triples(s[..n + 4]) == Triples(s[..n]) + Triple(s[n..n + 4])
    decreases n
  {
    if n == 0 {
      assert s[..4][..4] == s[0..4] && s[..4][4..] == [];
    } else {
      var rest := s[4..];
      TriplesExtend(rest, n - 4);
      assert s[..n][4..] == rest[..n - 4] && s[..n + 4][4..] == rest[..n - 4 + 4];
      assert rest[n - 4..n - 4 + 4] == s[n..n + 4];
      assert s[..n][..4] == s[..4] == s[..n + 4][..4];
      assert Triples(s[..n]) == Triple(s[..4]) + Triples(rest[..n - 4]);
    }
  }

  /** The first j characters are the unpadded encoding of the first i bytes; the rest is as before. */
  ghost predicate EncodedUpTo(b: seq<Char8>, was: seq<Char8>, d: seq<Byte>, i: nat, j: nat) {
    i <= |d| && j <= |b| == |was| && b[..j] == Text(EncodeSymbols(d[..i], 0)) && b[j..] == was[j..]
  }

  ghost predicate QuadWritten(b: seq<Char8>, next: seq<Char8>, j: nat, q: seq<Symbol>) {
    j + 4 <= |b| && next == b[..j] + Text(q) + b[j + 4..]
  }

  lemma EncodeStep(b: seq<Char8>, next: seq<Char8>, was: seq<Char8>, d: seq<Byte>, start: nat, i: nat, j: nat)
    requires start % 3 == 0 && start < i <= start + 3 && i <= |d|
    requires EncodedUpTo(b, was, d, start, j) && QuadWritten(b, next, j, Quad(d[start..i], 0))
    ensures EncodedUpTo(next, was, d, i, j + 4)
  {
    EncodeExtend(d[..i], start, 0);
    assert d[..i][..start] == d[..start] && d[..i][start..] == d[start..i];
    assert next[..j + 4] == b[..j] + Text(Quad(d[start..i], 0));
    assert next[j + 4..] == b[j..][4..] == was[j..][4..];
  }

  lemma GroupCounted(start: nat, dataLen: nat)
    requires start % 3 == 0 && start < dataLen
    ensures var i := if start + 3 <= dataLen then start + 3 else dataLen;
            (i % 3 == 0 || i == dataLen) && (i + 2) / 3 == (start + 2) / 3 + 1 <= (dataLen + 2) / 3
  {
  }

  /** The first outputLen bytes of what the groups before i decode to are in place. */
  ghost predicate DecodedUpTo(b: seq<Byte>, s: seq<Symbol>, i: nat, outputLen: nat)
    requires i <= |s| && outputLen <= |b|
  {
    forall x :: 0 <= x < i / 4 * 3 && x < outputLen ==> b[x] == Triples(s[..i])[x]
  }

  /** A group's bytes went to j, but none past outputLen; everything else stayed. */
  ghost predicate GroupWritten(b: seq<Byte>, next: seq<Byte>, j: nat, outputLen: nat, t: seq<Byte>)
    requires |t| == 3
  {
    |next| == |b| &&
    forall x :: 0 <= x < |b| ==> next[x] == if j <= x < j + 3 && x < outputLen then t[x - j] else b[x]
  }

  lemma DecodeStep(b: seq<Byte>, next: seq<Byte>, s: seq<Symbol>, i: nat, outputLen: nat)
    requires i % 4 == 0 && i + 4 <= |s| && outputLen <= |b|
    requires DecodedUpTo(b, s, i, outputLen)
    requires GroupWritten(b, next, i / 4 * 3, outputLen, Triple(s[i..i + 4]))
    ensures DecodedUpTo(next, s, i + 4, outputLen)
    ensures next[outputLen..] == b[outputLen..]
  {
    TriplesExtend(s, i);
  }

  lemma DecodeEnd(b: seq<Byte>, s: seq<Symbol>)
    requires |s| > 0 && |s| % 4 == 0 && OutputLength(s) <= |b|
    requires DecodedUpTo(b, s, |s|, OutputLength(s))
    ensures b == DecodeSymbols(s) + b[OutputLength(s)..]
  {
    assert s[..|s|] == s;
    assert b[..OutputLength(s)] == DecodeSymbols(s);
  }

  /** The module's static state: the decoding table. */
  class Codec {
    const table: array<Symbol>

    /** Slot 0 tells whether the table has been filled; until then nothing has been written. */
    ghost predicate Valid()
      reads this, table
    {
      && table.Length == 256
      && (table[0] != 0 ==> Filled())
      && (table[0] == 0 ==> forall i :: 0 <= i < 256 ==> table[i] == 0)
    }

    ghost predicate Filled()
      requires table.Length == 256
      reads this, table
    {
      forall i :: 0 <= i < 256 ==> table[i] == ValueOf(i as char)
    }

    constructor ()
      ensures Valid() && fresh(table)
    {
      table := new Symbol[256](_ => 0);
    }

    method Encode(data: array<Byte>, dataLen: nat, buff: array<Char8>, buffLen: nat) returns (r: Result)
      requires dataLen <= data.Length && buffLen <= buff.Length
      requires 4 * ((dataLen + 2) / 3) < 0x1_0000_0000
      modifies buff
      ensures r == if buffLen < 4 * ((dataLen + 2) / 3) then BufferTooSmall else Ok(4 * ((dataLen + 2) / 3))
      ensures r == BufferTooSmall ==> buff[..] == old(buff[..])
      ensures r.Ok? ==> buff[..] == Encoded(data[..dataLen]) + old(buff[..])[r.length..]
    {
      var outputLen := 4 * ((dataLen + 2) / 3);
      if buffLen < outputLen {
        return BufferTooSmall;
      }
      ghost var was := buff[..];
      EncodeGroups(data, dataLen, buff);
      Pad(buff, outputLen, dataLen, data[..dataLen], was);
      r := Ok(outputLen);
    }

    /** The encoding loop. A short last group leaves 'A' where '=' belongs. */
    method EncodeGroups(data: array<Byte>, dataLen: nat, buff: array<Char8>)
      requires dataLen <= data.Length && 4 * ((dataLen + 2) / 3) <= buff.Length
      modifies buff
      ensures EncodedUpTo(buff[..], old(buff[..]), data[..dataLen], dataLen, 4 * ((dataLen + 2) / 3))
    {
      ghost var d, was := data[..dataLen], buff[..];
      var i, j := 0, 0;
      while i < dataLen
        invariant i <= dataLen && (i % 3 == 0 || i == dataLen)
        invariant j == 4 * ((i + 2) / 3)
        invariant EncodedUpTo(buff[..], was, d, i, j)
      {
        GroupCounted(i, dataLen);
        i := EncodeGroup(data, dataLen, buff, i, j, was);
        j := j + 4;
      }
    }

    /** The body of the encoding loop. */
    method EncodeGroup(data: array<Byte>, dataLen: nat, buff: array<Char8>, start: nat, j: nat, ghost was: seq<Char8>)
        returns (i: nat)
      requires start % 3 == 0 && start < dataLen <= data.Length && j + 4 <= buff.Length
      requires EncodedUpTo(buff[..], was, data[..dataLen], start, j)
      modifies buff
      ensures i == if start + 3 <= dataLen then start + 3 else dataLen
      ensures EncodedUpTo(buff[..], was, data[..dataLen], i, j + 4)
    {
      ghost var before := buff[..];
      var value;
      value, i := ReadGroup(data, dataLen, start);
      WriteQuad(buff, j, value, data[..dataLen][start..i]);
      EncodeStep(before, buff[..], was, data[..dataLen], start, i, j);
    }

    /** The head of the encoding loop's body: up to three bytes into a 24-bit value. */
    method ReadGroup(data: array<Byte>, dataLen: nat, start: nat) returns (value: nat, i: nat)
      requires start < dataLen <= data.Length
      ensures i == if start + 3 <= dataLen then start + 3 else dataLen
      ensures value == Value(data[..dataLen][start..i])
    {
      i := start;
      value := data[i] as int * 0x1_0000;
      i := i + 1;
      if i < dataLen {
        value := value + data[i] as int * 0x100;
        i := i + 1;
        if i < dataLen {
          value := value + data[i];
          i := i + 1;
        }
      }
      ghost var g := data[..dataLen][start..i];
      assert g[0] == data[start] && (|g| > 1 ==> g[1] == data[start + 1]) && (|g| > 2 ==> g[2] == data[start + 2]);
    }

    /** The tail of the encoding loop's body: four characters out of a 24-bit value. */
    method WriteQuad(buff: array<Char8>, j: nat, value: nat, ghost g: seq<Byte>)
      requires j + 4 <= buff.Length && 0 < |g| <= 3 && value == Value(g)
      modifies buff
      ensures QuadWritten(old(buff[..]), buff[..], j, Quad(g, 0))
    {
      GroupOf(g, value);
      WriteChar(buff, j, value / 0x4_0000 % 64);
      WriteChar(buff, j + 1, value / 0x1000 % 64);
      WriteChar(buff, j + 2, value / 64 % 64);
      WriteChar(buff, j + 3, value % 64);
    }

    method WriteChar(buff: array<Char8>, j: nat, v: Symbol)
      requires j < buff.Length && v < 64
      modifies buff
      ensures buff[..] == old(buff[..])[j := CharOf(v)]
    {
      CharIsTabled(v);
      buff[j] := ENCODING[v];
    }

    /** The closing loop of the encoder. */
    method Pad(buff: array<Char8>, outputLen: nat, dataLen: nat, ghost d: seq<Byte>, ghost was: seq<Char8>)
      requires dataLen == |d| && outputLen == 4 * ((dataLen + 2) / 3) <= buff.Length
      requires EncodedUpTo(buff[..], was, d, dataLen, outputLen)
      modifies buff
      ensures buff[..] == Encoded(d) + was[outputLen..]
    {
      ghost var unpadded := EncodeSymbols(d, 0);
      assert d[..dataLen] == d;
      var pads := PadCount(dataLen);
      for k := 0 to pads
        invariant forall x :: 0 <= x < outputLen - k ==> buff[x] == CharOf(unpadded[x])
        invariant forall x :: outputLen - k <= x < outputLen ==> buff[x] == '='
        invariant buff[outputLen..] == was[outputLen..]
      {
        buff[outputLen - 1 - k] := '=';
      }
      PadsLast(d, 0);
      assert buff[..outputLen] == Encoded(d);
    }

    /** The guarded fill at the head of decode; a second call changes nothing. */
    method FillTable()
      requires Valid()
      modifies table
      ensures Valid() && Filled() && table[0] != 0
      ensures old(table[0]) != 0 ==> table[..] == old(table[..])
    {
      if table[0] == 0 {
        for i := 0 to 64
          invariant forall x :: 0 <= x < 256 ==>
            table[x] == if InAlphabet(x as char) && ValueOf(x as char) < i then ValueOf(x as char) else 0
        {
          forall c: Char8 | InAlphabet(c) ensures CharOf(ValueOf(c)) == c {
            SymbolChar(c);
          }
          CharSymbol(i);
          CharIsTabled(i);
          table[ENCODING[i] as int] := i;
        }
        table[0] := 1;
      }
    }

    method Decode(data: array<Char8>, dataLen: nat, buff: array<Byte>, buffLen: nat) returns (r: Result)
      requires Valid() && dataLen <= data.Length && buffLen <= buff.Length && buff as object != table
      requires dataLen > 0  // the code reads data[dataLen - 1] and data[dataLen - 2] unconditionally
      modifies buff, table
      ensures Valid() && table[0] != 0
      ensures r == InvalidArguments <==> dataLen % 4 != 0
      ensures dataLen % 4 == 0 ==>
        var n := OutputLength(Symbols(data[..dataLen]));
        r == if buffLen < n then BufferTooSmall else Ok(n)
      ensures !r.Ok? ==> buff[..] == old(buff[..])
      ensures r.Ok? ==> buff[..] == Decoded(data[..dataLen]) + old(buff[..])[r.length..]
    {
      FillTable();
      if dataLen % 4 != 0 {
        return InvalidArguments;
      }
      ghost var s := Symbols(data[..dataLen]);
      var outputLen := AnnouncedLength(data, dataLen);
      if buffLen < outputLen {
        return BufferTooSmall;
      }
      var i, j := 0, 0;
      while i < dataLen
        invariant i <= dataLen && i % 4 == 0 && j == i / 4 * 3
        invariant Filled() && table[0] != 0
        invariant DecodedUpTo(buff[..], s, i, outputLen)
        invariant buff[outputLen..] == old(buff[outputLen..])
      {
        ghost var before := buff[..];
        var value := DecodeGroup(data, dataLen, i);
        WriteGroup(buff, j, outputLen, value, s[i..i + 4]);
        DecodeStep(before, buff[..], s, i, outputLen);
        i, j := i + 4, j + 3;
      }
      DecodeEnd(buff[..], s);
      r := Ok(outputLen);
    }

    method AnnouncedLength(data: array<Char8>, dataLen: nat) returns (outputLen: nat)
      requires 0 < dataLen <= data.Length && dataLen % 4 == 0
      ensures outputLen == OutputLength(Symbols(data[..dataLen]))
    {
      outputLen := dataLen / 4 * 3;
      if data[dataLen - 1] == '=' {
        outputLen := outputLen - 1;
      }
      if data[dataLen - 2] == '=' {
        outputLen := outputLen - 1;
      }
    }

    /** The first inner loop of decode: four characters into a 24-bit value. */
    method DecodeGroup(data: array<Char8>, dataLen: nat, i: nat) returns (value: nat)
      requires table.Length == 256 && Filled() && i + 4 <= dataLen <= data.Length
      ensures value == GroupSum(Symbols(data[..dataLen])[i..i + 4], 4)
    {
      value := 0;
      ghost var q := Symbols(data[..dataLen])[i..i + 4];
      for k := 0 to 4
        invariant value == GroupSum(q, k)
      {
        var c := data[i + k];
        assert q[k] == SymbolOf(c) && (c as int) as char == c;
        if c != '=' {
          value := value + table[c as int] as int * Weight(k);
        }
      }
    }

    /** The second inner loop of decode: up to three bytes, but none past the announced length. */
    method WriteGroup(buff: array<Byte>, j: nat, outputLen: nat, value: nat, ghost q: seq<Symbol>)
      requires j < outputLen <= buff.Length && |q| == 4 && value == GroupSum(q, 4)
      modifies buff
      ensures GroupWritten(old(buff[..]), buff[..], j, outputLen, Triple(q))
    {
      GroupBytes(q, value);
      var bytes := [value / 0x1_0000 % 0x100, value / 0x100 % 0x100, value % 0x100];
      var k := 0;
      while k < 3 && k < outputLen - j
        invariant 0 <= k <= 3 && k <= outputLen - j
        invariant forall x :: 0 <= x < buff.Length ==>
          buff[x] == if j <= x < j + k then Triple(q)[x - j] else old(buff[x])
      {
        buff[j + k] := bytes[k];
        k := k + 1;
      }
    }
  }
}
