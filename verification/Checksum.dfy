/** The Internet checksum of RFC 1071 as Chaosnet packets carry it. */
module Checksum {
  import opened Words

  /** Sum of the big-endian 16-bit words, a left-over byte added as it is. */
  function WordSum(data: seq<byte>): nat
    decreases |data|
  {
    if |data| == 0 then 0
    else if |data| == 1 then data[0]
    else 256 * data[0] + data[1] + WordSum(data[2..])
  }

  /** Folding the carries of a sum back in, until it fits 16 bits. */
  function Fold(sum: nat): (r: nat)
    ensures r < 0x1_0000
    decreases sum
  {
    if sum < 0x1_0000 then sum else Fold(sum % 0x1_0000 + sum / 0x1_0000)
  }

  function ChecksumOf(data: seq<byte>): nat { 0xFFFF - Fold(WordSum(data)) }

  /** ch_checksum: accumulate, fold, complement. */
  method ChChecksum(data: seq<byte>) returns (sum: nat)
    ensures sum == ChecksumOf(data)
  {
    sum := 0;
    var at, count := 0, |data|;
    while count > 1
      invariant at + count == |data| && at <= |data|
      invariant sum + WordSum(data[at..]) == WordSum(data)
      decreases count
    {
      assert data[at..][2..] == data[at + 2..];
      var hi: nat, lo: nat := data[at], data[at + 1];
      sum := sum + (256 * hi + lo);
      at := at + 2;
      count := count - 2;
    }
    if count > 0 {
      sum := sum + data[at];
    }
    while sum / 0x1_0000 != 0
      invariant Fold(sum) == Fold(WordSum(data))
      decreases sum
    {
      sum := sum % 0x1_0000 + sum / 0x1_0000;
    }
    sum := 0xFFFF - sum;
  }

  /** One's complement addition: the folded sum is the residue modulo 65535, with
      65535 rather than 0 for the nonzero multiples. */
  lemma {:induction false} FoldIsResidue(sum: nat)
    ensures Fold(sum) == if sum == 0 then 0 else (sum - 1) % 0xFFFF + 1
    decreases sum
  {
    if sum >= 0x1_0000 {
      var q, r := sum / 0x1_0000, sum % 0x1_0000;
      FoldIsResidue(r + q);
      SameResidue(r + q - 1, q);
    }
  }

  lemma SameResidue(x: nat, q: nat)
    ensures (x + 0xFFFF * q) % 0xFFFF == x % 0xFFFF
  {
    var k, r := x / 0xFFFF, x % 0xFFFF;
    var y := x + 0xFFFF * q;
    assert y == 0xFFFF * (k + q) + r;
  }

  /** Sums that agree modulo 65535, and in being zero, fold alike. */
  lemma FoldDepends(x: nat, y: nat, q: nat)
    requires y == x + 0xFFFF * q && (x == 0 <==> y == 0)
    ensures Fold(x) == Fold(y)
  {
    FoldIsResidue(x);
    FoldIsResidue(y);
    if x > 0 { SameResidue(x - 1, q); }
    hide Fold;
  }

  // ---------------------------------------------------------------------
  // Words of even-length data

  datatype Pair = Pair(hi: byte, lo: byte)

  function Value(w: Pair): nat { 256 * w.hi + w.lo }

  /** Data as its sequence of words. */
  function Bytes(words: seq<Pair>): seq<byte>
    decreases |words|
  {
    if words == [] then [] else [words[0].hi, words[0].lo] + Bytes(words[1..])
  }

  function Sum(words: seq<Pair>): nat
    decreases |words|
  {
    if words == [] then 0 else Value(words[0]) + Sum(words[1..])
  }

  /** Every even-length packet is a sequence of words. */
  lemma {:induction false} EvenIsWords(data: seq<byte>) returns (words: seq<Pair>)
    requires |data| % 2 == 0
    ensures Bytes(words) == data
    decreases |data|
  {
    if data == [] {
      words := [];
    } else {
      var rest := EvenIsWords(data[2..]);
      words := [Pair(data[0], data[1])] + rest;
      assert words[1..] == rest;
      assert data == [data[0], data[1]] + data[2..];
    }
  }

  lemma {:induction false} BytesSum(words: seq<Pair>)
    ensures WordSum(Bytes(words)) == Sum(words)
    decreases |words|
  {
    if words != [] {
      BytesSum(words[1..]);
      assert Bytes(words)[2..] == Bytes(words[1..]);
    }
  }

  lemma {:induction false} SumConcat(a: seq<Pair>, b: seq<Pair>)
    ensures Sum(a + b) == Sum(a) + Sum(b)
    decreases |a|
  {
    if a == [] {
      assert a + b == b;
    } else {
      assert (a + b)[1..] == a[1..] + b;
      SumConcat(a[1..], b);
    }
  }

  /** The sum is that of the words as a multiset. */
  lemma {:induction false} SumOfBag(a: seq<Pair>, b: seq<Pair>)
    requires multiset(a) == multiset(b)
    ensures Sum(a) == Sum(b)
    decreases |a|
  {
    hide Sum, Value;
    if a == [] {
      assert |b| == |multiset(b)| == 0;
    } else {
      var i := Partner(a, b);
      SumOfBag(a[1..], b[..i] + b[i + 1..]);
      SumTakeOut(a, 0);
      SumTakeOut(b, i);
      assert a[..0] + a[1..] == a[1..];
    }
  }

  /** The first word of a is somewhere in b; the others are the same again. */
  lemma Partner(a: seq<Pair>, b: seq<Pair>) returns (i: nat)
    requires a != [] && multiset(a) == multiset(b)
    ensures i < |b| && b[i] == a[0] && multiset(a[1..]) == multiset(b[..i] + b[i + 1..])
  {
    assert a[0] in multiset(a);
    i :| 0 <= i < |b| && b[i] == a[0];
    TakeOut(b, i);
    assert a == [a[0]] + a[1..];
  }

  lemma SumTakeOut(s: seq<Pair>, i: nat)
    requires i < |s|
    ensures Sum(s) == Value(s[i]) + Sum(s[..i] + s[i + 1..])
  {
    SumConcat(s[..i], s[i..]);
    SumConcat(s[..i], s[i + 1..]);
    assert s == s[..i] + s[i..] && s[i..][1..] == s[i + 1..];
  }

  lemma TakeOut(s: seq<Pair>, i: nat)
    requires i < |s|
    ensures multiset(s[..i] + s[i + 1..]) == multiset(s) - multiset{s[i]}
  {
    assert s == s[..i] + [s[i]] + s[i + 1..];
  }

  /** Section 1 of RFC 1071: the checksum does not depend on the order of words. */
  lemma OrderIndependent(a: seq<Pair>, b: seq<Pair>)
    requires multiset(a) == multiset(b)
    ensures ChecksumOf(Bytes(a)) == ChecksumOf(Bytes(b))
  {
    SumOfBag(a, b);
    BytesSum(a);
    BytesSum(b);
    hide Fold;
  }

  function Swap(w: Pair): Pair { Pair(w.lo, w.hi) }

  function SwapAll(words: seq<Pair>): seq<Pair>
    decreases |words|
  {
    if words == [] then [] else [Swap(words[0])] + SwapAll(words[1..])
  }

  /** Swapping the bytes of a 16-bit number. */
  function SwapBytes(x: nat): nat
    requires x < 0x1_0000
  {
    256 * (x % 256) + x / 256
  }

  /** Swapping multiplies by 256 modulo 65535. */
  lemma {:induction false} SwappedSum(words: seq<Pair>) returns (q: nat)
    ensures 256 * Sum(words) == Sum(SwapAll(words)) + 0xFFFF * q
    ensures Sum(words) == 0 <==> Sum(SwapAll(words)) == 0
    decreases |words|
  {
    if words == [] {
      q := 0;
    } else {
      var r := SwappedSum(words[1..]);
      q := words[0].hi + r;
      assert SwapAll(words)[1..] == SwapAll(words[1..]);
    }
  }

  /** Section 2(B) of RFC 1071: byte order only swaps the result's bytes. */
  lemma ByteOrderIndependent(words: seq<Pair>)
    ensures ChecksumOf(Bytes(SwapAll(words))) == SwapBytes(ChecksumOf(Bytes(words)))
  {
    BytesSum(words);
    BytesSum(SwapAll(words));
    var q := SwappedSum(words);
    FoldSwaps(Sum(words), Sum(SwapAll(words)), q);
    hide Fold, Sum, SwapAll, Bytes;
    SwapComplement(Fold(Sum(words)));
  }

  lemma SwapComplement(f: nat)
    requires f < 0x1_0000
    ensures SwapBytes(0xFFFF - f) == 0xFFFF - SwapBytes(f)
  {
    var hi, lo := f / 256, f % 256;
    assert 0xFFFF - f == 256 * (255 - hi) + (255 - lo);
    assert (0xFFFF - f) / 256 == 255 - hi && (0xFFFF - f) % 256 == 255 - lo;
  }

  /** Swapping is multiplying by 256 and taking out 65535 once per high-byte unit. */
  lemma SwapTimes(f: nat)
    requires f < 0x1_0000
    ensures 256 * f == SwapBytes(f) + 0xFFFF * (f / 256)
    ensures SwapBytes(f) < 0x1_0000 && (f == 0 <==> SwapBytes(f) == 0)
  {
  }

  lemma FoldSwaps(x: nat, y: nat, q: nat)
    requires 256 * x == y + 0xFFFF * q && (x == 0 <==> y == 0)
    ensures Fold(y) == SwapBytes(Fold(x))
  {
    var f := Fold(x);
    var k := FoldQuotient(x);
    SwapTimes(f);
    var s, h := SwapBytes(f), f / 256;
    hide Fold, SwapBytes;
    FoldIsResidue(s);
    FoldIsResidue(x);
    FoldIsResidue(y);
    if x > 0 {
      var d := 256 * k + h - q;
      assert y == s + 0xFFFF * d;
      assert d >= 0;
      SameResidue(s - 1, d);
    }
  }

  /** A sum exceeds its folding by a multiple of 65535. */
  lemma FoldQuotient(x: nat) returns (k: nat)
    ensures x == Fold(x) + 0xFFFF * k
    ensures x == 0 <==> Fold(x) == 0
  {
    FoldIsResidue(x);
    hide Fold;
    if x == 0 {
      k := 0;
    } else {
      k := (x - 1) / 0xFFFF;
    }
  }

  /** Section 2(A): one's complement addition is associative, so a packet's sum can
      be formed from its parts' folded sums. */
  lemma PartsFold(a: seq<Pair>, b: seq<Pair>)
    ensures Fold(Sum(a + b)) == Fold(Fold(Sum(a)) + Fold(Sum(b)))
  {
    SumConcat(a, b);
    var j := FoldQuotient(Sum(a));
    var k := FoldQuotient(Sum(b));
    FoldDepends(Fold(Sum(a)) + Fold(Sum(b)), Sum(a + b), j + k);
  }

  function WordOf(x: nat): Pair
    requires x < 0x1_0000
  {
    Pair(x / 256, x % 256)
  }

  /** Section 4.1: data followed by its own checksum checks to zero. */
  lemma OwnChecksumIsZero(words: seq<Pair>)
    ensures ChecksumOf(Bytes(words + [WordOf(ChecksumOf(Bytes(words)))])) == 0
  {
    var c := ChecksumOf(Bytes(words));
    BytesSum(words);
    BytesSum(words + [WordOf(c)]);
    SumConcat(words, [WordOf(c)]);
    assert Sum([WordOf(c)]) == c;
    var k := FoldQuotient(Sum(words));
    FoldDepends(0xFFFF, Sum(words) + c, k);
  }
}
