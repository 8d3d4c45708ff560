/** The Internet checksum of lib/ftm_ping.c: a 32-bit signed accumulator over
    16-bit words, folded twice and complemented (sections 1 and 2 of RFC 1071). */
module Checksum {
  import opened Bytes

  newtype Int32 = x: int | -0x8000_0000 <= x < 0x8000_0000
  type Word = w: int | 0 <= w < 0x1_0000

  const MAX_PACKET: nat := 65536 - 60 - 8

  function WordAt(low: Byte, high: Byte): Word {
    low as int + 0x100 * (high as int)
  }

  /** The words a little-endian host reads from memory; an odd last byte stands alone. */
  ghost function Words(bytes: seq<Byte>): (ws: seq<Word>)
    ensures |ws| == (|bytes| + 1) / 2
  {
    if |bytes| == 0 then []
    else if |bytes| == 1 then [bytes[0]]
    else [WordAt(bytes[0], bytes[1])] + Words(bytes[2..])
  }

  /** The first byte of a pair is the low one. */
  lemma {:induction false} WordsAt(bytes: seq<Byte>, k: nat)
    requires 2 * k < |bytes|
    ensures Words(bytes)[k] == bytes[2 * k] + if 2 * k + 1 < |bytes| then 256 * bytes[2 * k + 1] as int else 0
  {
    if k == 0 {
    } else {
      WordsAt(bytes[2..], k - 1);
    }
  }

  /** One's-complement addition: the carry out of bit 15 is added back at once. */
  ghost function OnesAdd(a: Word, b: Word): Word {
    if a + b > 0xFFFF then a + b - 0xFFFF else a + b
  }

  ghost function OnesSum(ws: seq<Word>): Word {
    if ws == [] then 0 else OnesAdd(ws[0], OnesSum(ws[1..]))
  }

  ghost function Complement(w: Word): Word {
    0xFFFF - w
  }

  ghost function Total(ws: seq<Word>): nat {
    if ws == [] then 0 else ws[0] + Total(ws[1..])
  }

  /** The representative of n modulo 0xFFFF that end-around carries leave behind. */
  ghost function Residue(n: nat): Word {
    if n == 0 then 0 else 1 + (n - 1) % 0xFFFF
  }

  /** It is congruent to n, and zero for nothing but zero. */
  lemma ResidueMeans(n: nat)
    ensures Residue(n) % 0xFFFF == n % 0xFFFF && (Residue(n) == 0 <==> n == 0)
  {
  }

  lemma {:induction false} OnesSumIsResidue(ws: seq<Word>)
    ensures OnesSum(ws) == Residue(Total(ws))
  {
    if ws == [] {
    } else {
      OnesSumIsResidue(ws[1..]);
    }
  }

  lemma {:induction false} TotalAppend(ws: seq<Word>, w: Word)
    ensures Total(ws + [w]) == Total(ws) + w
  {
    if ws == [] {
    } else {
      TotalAppend(ws[1..], w);
      assert (ws + [w])[1..] == ws[1..] + [w];
    }
  }

  lemma {:induction false} TotalUpdate(ws: seq<Word>, k: nat, v: Word)
    requires k < |ws|
    ensures Total(ws[k := v]) == Total(ws) - ws[k] + v
  {
    if k == 0 {
      assert ws[k := v][1..] == ws[1..];
    } else {
      TotalUpdate(ws[1..], k - 1, v);
      assert ws[k := v][1..] == ws[1..][k - 1 := v];
    }
  }

  /** Reading two more bytes appends one word to what was read before. */
  lemma {:induction false} WordsExtend(bytes: seq<Byte>, n: nat)
    requires n % 2 == 0 && n < |bytes|
    ensures n + 1 < |bytes| ==> Words(bytes[..n + 2]) == Words(bytes[..n]) + [WordAt(bytes[n], bytes[n + 1])]
    ensures n + 1 == |bytes| ==> Words(bytes) == Words(bytes[..n]) + [bytes[n]]
  {
    if n == 0 {
      if n + 1 < |bytes| {
        assert bytes[..2][2..] == [];
      }
    } else {
      WordsExtend(bytes[2..], n - 2);
      assert bytes[..n][2..] == bytes[2..][..n - 2];
      if n + 1 < |bytes| {
        assert bytes[..n + 2][2..] == bytes[2..][..n];
      }
    }
  }

  /** Two folds of any 31-bit sum reach the end-around-carry residue. */
  lemma TwoFolds(sum: nat)
    requires sum < 0x8000_0000
    ensures var once := sum / 0x1_0000 + sum % 0x1_0000;
            (once + once / 0x1_0000) % 0x1_0000 == Residue(sum)
  {
    var q, r := sum / 0x1_0000, sum % 0x1_0000;
    var once := q + r;
    assert sum == 0xFFFF * q + once;
    if once >= 0x1_0000 {
      assert once / 0x1_0000 == 1;
      var m := once - 0xFFFF;
      assert sum - 1 == 0xFFFF * (q + 1) + (m - 1);
      ModUnique(q + 1, m - 1);
    } else if once == 0 {
      assert sum == 0;
    } else {
      assert sum - 1 == 0xFFFF * q + (once - 1);
      ModUnique(q, once - 1);
    }
  }

  /** What the next one or two bytes add to the sum. */
  lemma NextWord(data: seq<Byte>, w: nat)
    requires w % 2 == 0 && w < |data|
    ensures w + 1 < |data| ==>
              Total(Words(data[..w + 2])) == Total(Words(data[..w])) + WordAt(data[w], data[w + 1])
    ensures w + 1 == |data| ==> Total(Words(data)) == Total(Words(data[..w])) + data[w]
  {
    WordsExtend(data, w);
    TotalAppend(Words(data[..w]), if w + 1 < |data| then WordAt(data[w], data[w + 1]) else data[w]);
  }

  lemma ModUnique(q: nat, r: nat)
    requires r < 0xFFFF
    ensures (0xFFFF * q + r) % 0xFFFF == r
  {
  }

  /** The loop over the packet. The accumulator is a 32-bit signed integer, so its
      additions carry the proof that no packet up to MAX_PACKET bytes overflows it. */
  method Compute(addr: array<Byte>, len: nat) returns (answer: Word)
    requires len <= addr.Length && len <= MAX_PACKET
    ensures answer == Complement(OnesSum(Words(addr[..len])))
  {
    var nleft := len;
    var w := 0;
    var sum: Int32 := 0;
    ghost var data := addr[..len];
    assert data[..0] == [];
    while nleft > 1
      invariant w + nleft == len && w % 2 == 0
      invariant sum as int == Total(Words(data[..w]))
      invariant 0 <= sum as int <= 0xFFFF * (w / 2)
    {
      NextWord(data, w);
      sum := sum + WordAt(addr[w], addr[w + 1]) as Int32;
      w := w + 2;
      nleft := nleft - 2;
    }
    if nleft == 1 {
      NextWord(data, w);
      sum := sum + addr[w] as Int32;
    } else {
      assert data[..w] == data;
    }
    OnesSumIsResidue(Words(data));
    answer := Fold(sum);
  }

  /** The two folds and the complement behind the loop. */
  method Fold(total: Int32) returns (answer: Word)
    requires 0 <= total
    ensures answer == Complement(Residue(total as int))
  {
    TwoFolds(total as int);
    var sum := total / 0x1_0000 + total % 0x1_0000;
    sum := sum + sum / 0x1_0000;
    answer := 0xFFFF - (sum as int) % 0x1_0000;
  }

  /** A receiver that recomputes over the filled-in packet gets 0 exactly for the
      sender's checksum, up to the two forms of one's-complement zero. */
  lemma VerifiesIff(ws: seq<Word>, k: nat, v: Word)
    requires k < |ws| && ws[k] == 0
    ensures var c := Complement(OnesSum(ws));
            Complement(OnesSum(ws[k := v])) == 0 <==> v == c || (v == 0xFFFF && c == 0)
  {
    OnesSumIsResidue(ws);
    OnesSumIsResidue(ws[k := v]);
    TotalUpdate(ws, k, v);
    var n := Total(ws);
    ResidueFull(n, v);
  }

  lemma ResidueFull(n: nat, v: Word)
    ensures Residue(n + v) == 0xFFFF <==> v == 0xFFFF - Residue(n) || (v == 0xFFFF && Residue(n) == 0xFFFF)
  {
  }

  ghost function Store(bytes: seq<Byte>, k: nat, v: Word): seq<Byte>
    requires 2 * k + 1 < |bytes|
  {
    var low: Byte, high: Byte := v % 0x100, v / 0x100;
    bytes[2 * k := low][2 * k + 1 := high]
  }

  /** Storing a word into the packet's bytes stores it in its word view. */
  lemma {:induction false} WordsStore(bytes: seq<Byte>, k: nat, v: Word)
    requires 2 * k + 1 < |bytes|
    ensures Words(Store(bytes, k, v)) == Words(bytes)[k := v]
  {
    if k == 0 {
      assert Store(bytes, k, v)[2..] == bytes[2..];
    } else {
      WordsStore(bytes[2..], k - 1, v);
      assert Store(bytes, k, v)[2..] == Store(bytes[2..], k - 1, v);
    }
  }

  lemma FilledVerifies(zeroed: seq<Byte>, k: nat)
    requires 2 * k + 1 < |zeroed| && zeroed[2 * k] == zeroed[2 * k + 1] == 0
    ensures var c := Complement(OnesSum(Words(zeroed)));
            Complement(OnesSum(Words(Store(zeroed, k, c)))) == 0
  {
    assert Store(zeroed, k, 0) == zeroed;
    WordsStore(zeroed, k, 0);
    assert Words(zeroed)[k] == 0;
    var c := Complement(OnesSum(Words(zeroed)));
    WordsStore(zeroed, k, c);
    VerifiesIff(Words(zeroed), k, c);
  }

  /** How the ping sender fills word k of an outgoing packet: zero it, sum the packet,
      store the sum. Whoever recomputes over the sent bytes gets 0. */
  method Seal(packet: array<Byte>, k: nat)
    requires 2 * k + 1 < packet.Length <= MAX_PACKET
    modifies packet
    ensures Complement(OnesSum(Words(packet[..]))) == 0
    ensures forall i :: 0 <= i < packet.Length && i != 2 * k && i != 2 * k + 1 ==> packet[i] == old(packet[i])
  {
    packet[2 * k] := 0;
    packet[2 * k + 1] := 0;
    ghost var zeroed := packet[..packet.Length];
    var sum := Compute(packet, packet.Length);
    packet[2 * k] := sum % 0x100;
    packet[2 * k + 1] := sum / 0x100;
    FilledVerifies(zeroed, k);
    assert packet[..] == Store(zeroed, k, sum);
  }
}
