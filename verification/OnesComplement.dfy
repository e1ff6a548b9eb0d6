/**
 Ones' complement arithmetic on 16-bit words (sections 1 and 2 of RFC 1071), in which section 3.1 of RFC 791
 defines the IPv4 header checksum.
*/
module OnesComplement {

  type Octet = x: int | 0 <= x < 256

  type Word = x: int | 0 <= x < 65536

  /** Addition with end-around carry. */
  function OnesAdd(a: Word, b: Word): Word {
    if a + b < 65536 then a + b else a + b - 65535
  }

  function OnesSum(words: seq<Word>): Word {
    if words == [] then 0 else OnesAdd(OnesSum(words[..|words| - 1]), words[|words| - 1])
  }

  /** The checksum of the definition: the complement of the ones' complement sum. */
  function Checksum(words: seq<Word>): Word {
    65535 - OnesSum(words)
  }

  function Sum(words: seq<Word>): (n: nat)
    ensures n <= 65535 * |words|
  {
    if words == [] then 0 else Sum(words[..|words| - 1]) + words[|words| - 1]
  }

  /** The ones' complement representative of a sum: zero only for zero, otherwise in 1..65535. */
  function Fold(n: nat): Word {
    if n == 0 then 0 else 1 + (n - 1) % 65535
  }

  lemma {:induction false} OnesSumIsFold(words: seq<Word>)
    ensures OnesSum(words) == Fold(Sum(words))
  {
    if words != [] {
      var n := |words| - 1;
      OnesSumIsFold(words[..n]);
      FoldAdd(Sum(words[..n]), words[n]);
    }
  }

  lemma FoldAdd(n: nat, w: Word)
    ensures Fold(n + w) == OnesAdd(Fold(n), w)
  {
    if n > 0 && w > 0 {
      var q, r := (n - 1) / 65535, (n - 1) % 65535;
      assert n + w - 1 == 65535 * q + (r + w);
      if r + w < 65535 {
        ModIs(n + w - 1, q, r + w);
      } else if r + w < 131070 {
        ModIs(n + w - 1, q + 1, r + w - 65535);
      }
    }
  }

  lemma ModIs(n: int, q: int, r: int)
    requires n == 65535 * q + r && 0 <= r < 65535
    ensures n % 65535 == r
  {
  }

  lemma {:induction false} SumUpdate(words: seq<Word>, i: nat, x: Word)
    requires i < |words|
    ensures Sum(words[i := x]) == Sum(words) - words[i] + x
    ensures Sum(words) >= words[i]
  {
    var n := |words| - 1;
    if i == n {
      assert words[i := x][..n] == words[..n];
    } else {
      assert words[i := x][..n] == words[..n][i := x];
      SumUpdate(words[..n], i, x);
    }
  }

  lemma FoldEqual(m: nat, n: nat)
    ensures Fold(m) == Fold(n) <==> m % 65535 == n % 65535 && (m == 0 <==> n == 0)
  {
    FoldModulo(m);
    FoldModulo(n);
  }

  lemma FoldModulo(n: nat)
    ensures n % 65535 == if Fold(n) == 65535 then 0 else Fold(n)
  {
    if n > 0 {
      var q, r := (n - 1) / 65535, (n - 1) % 65535;
      if r == 65534 { ModIs(n, q + 1, 0); } else { ModIs(n, q, r + 1); }
    }
  }

  // ----- what the checksum detects -----

  /**
   A receiver that sums the whole header, stored checksum included, gets zero exactly for the computed checksum,
   or for its other representation when the checksum is zero.
  */
  lemma VerifiesIff(words: seq<Word>, i: nat, x: Word)
    requires i < |words| && words[i] == 0
    ensures Checksum(words[i := x]) == 0 <==> x == Checksum(words) || (Checksum(words) == 0 && x == 65535)
  {
    SumUpdate(words, i, x);
    OnesSumIsFold(words);
    OnesSumIsFold(words[i := x]);
    FoldAdd(Sum(words), x);
  }

  /** Replacing one word goes unnoticed exactly when it swaps the two zeros in an otherwise non-zero header. */
  lemma ReplacedWord(words: seq<Word>, i: nat, x: Word, y: Word)
    requires i < |words|
    ensures Checksum(words[i := x]) == Checksum(words[i := y])
       <==> x == y || (x % 65535 == y % 65535 && Sum(words) > words[i])
  {
    hide Fold, Sum, OnesSum;
    SumUpdate(words, i, x);
    SumUpdate(words, i, y);
    OnesSumIsFold(words[i := x]);
    OnesSumIsFold(words[i := y]);
    var rest := Sum(words) - words[i];
    FoldEqual(rest + x, rest + y);
    Congruent(rest, x, y);
    Representatives(x, y);
  }

  /** Two words are congruent only if they are equal or the two zeros. */
  lemma Representatives(x: Word, y: Word)
    ensures x % 65535 == y % 65535 <==> x == y || (x == 0 && y == 65535) || (x == 65535 && y == 0)
  {
  }

  lemma Congruent(n: nat, x: Word, y: Word)
    ensures (n + x) % 65535 == (n + y) % 65535 <==> x % 65535 == y % 65535
  {
    var r := n % 65535;
    assert n == 65535 * (n / 65535) + r;
    Reduced(n, x);
    Reduced(n, y);
  }

  lemma Reduced(n: nat, x: Word)
    ensures (n + x) % 65535 == (n % 65535 + x % 65535) % 65535
  {
    var q, r := n / 65535, n % 65535;
    var p, s := x / 65535, x % 65535;
    if r + s < 65535 {
      ModIs(n + x, q + p, r + s);
    } else {
      ModIs(n + x, q + p + 1, r + s - 65535);
      ModIs(r + s, 1, r + s - 65535);
    }
  }

  // ----- byte order -----

  function Swap(w: Word): Word {
    (w % 256) * 256 + w / 256
  }

  function SwapAll(words: seq<Word>): (s: seq<Word>)
    ensures |s| == |words|
  {
    seq(|words|, i requires 0 <= i < |words| => Swap(words[i]))
  }

  lemma SwapAdd(a: Word, b: Word)
    ensures OnesAdd(Swap(a), Swap(b)) == Swap(OnesAdd(a, b))
  {
    var ah, al, bh, bl := a / 256, a % 256, b / 256, b % 256;
    var c := OnesAdd(a, b);
    var h, l := ah + bh, al + bl;
    var l1, carry := if l < 256 then l else l - 256, if l < 256 then 0 else 1;
    var h1 := h + carry;
    if h1 < 256 {
      HalvesOf(c, h1, l1);
    } else if l1 + 1 < 256 {
      HalvesOf(c, h1 - 256, l1 + 1);
    } else {
      HalvesOf(c, h1 - 255, 0);
    }
  }

  lemma HalvesOf(c: Word, h: int, l: int)
    requires 0 <= h < 256 && 0 <= l < 256 && c == 256 * h + l
    ensures Swap(c) == 256 * l + h
  {
  }

  /** Summing byte-swapped words gives the byte-swapped sum. */
  lemma {:induction false} SwapSum(words: seq<Word>)
    ensures OnesSum(SwapAll(words)) == Swap(OnesSum(words))
  {
    if words != [] {
      var n := |words| - 1;
      assert SwapAll(words)[..n] == SwapAll(words[..n]);
      SwapSum(words[..n]);
      SwapAdd(OnesSum(words[..n]), words[n]);
    }
  }

  lemma SwapChecksum(words: seq<Word>)
    ensures Checksum(SwapAll(words)) == Swap(Checksum(words))
  {
    hide OnesSum, SwapAll, Swap;
    SwapSum(words);
    SwapComplement(OnesSum(words));
  }

  lemma SwapComplement(w: Word)
    ensures Swap(65535 - w) == 65535 - Swap(w)
  {
    HalvesOf(w, w / 256, w % 256);
    HalvesOf(65535 - w, 255 - w / 256, 255 - w % 256);
  }

  /** The two bytes of a word in the order of a little-endian host. */
  function HostBytes(w: Word): (s: seq<Octet>)
    ensures |s| == 2
  {
    [w % 256, w / 256]
  }

  /** The two bytes of a word in network order. */
  function NetworkBytes(w: Word): (s: seq<Octet>)
    ensures |s| == 2
  {
    [w / 256, w % 256]
  }

  /** A word from its low and its high byte. */
  function WordOf(low: Octet, high: Octet): Word {
    low + 256 * high
  }

  /** The words of a buffer as a little-endian host reads them. */
  function LeWords(bytes: seq<Octet>): (s: seq<Word>)
    requires |bytes| % 2 == 0
    ensures |s| == |bytes| / 2
  {
    seq(|bytes| / 2, i requires 0 <= i < |bytes| / 2 => WordOf(bytes[2 * i], bytes[2 * i + 1]))
  }

  /** The words of a buffer in network order. */
  function BeWords(bytes: seq<Octet>): (s: seq<Word>)
    requires |bytes| % 2 == 0
    ensures |s| == |bytes| / 2
  {
    seq(|bytes| / 2, i requires 0 <= i < |bytes| / 2 => WordOf(bytes[2 * i + 1], bytes[2 * i]))
  }

  lemma BeWordsAreSwapped(bytes: seq<Octet>)
    requires |bytes| % 2 == 0
    ensures BeWords(bytes) == SwapAll(LeWords(bytes))
  {
    forall i | 0 <= i < |bytes| / 2 ensures BeWords(bytes)[i] == Swap(LeWords(bytes)[i]) {
      HalvesOf(LeWords(bytes)[i], bytes[2 * i + 1], bytes[2 * i]);
    }
  }

  lemma SwappedBytes(w: Word)
    ensures NetworkBytes(Swap(w)) == HostBytes(w)
  {
    HalvesOf(w, w / 256, w % 256);
  }

  /** The host's checksum stored in host order and the network-order checksum stored in network order are one. */
  lemma ByteOrderIndependent(bytes: seq<Octet>)
    requires |bytes| % 2 == 0
    ensures HostBytes(Checksum(LeWords(bytes))) == NetworkBytes(Checksum(BeWords(bytes)))
  {
    hide Checksum, Swap, SwapAll, LeWords, BeWords, HostBytes, NetworkBytes;
    BeWordsAreSwapped(bytes);
    SwapChecksum(LeWords(bytes));
    SwappedBytes(Checksum(LeWords(bytes)));
  }
}
