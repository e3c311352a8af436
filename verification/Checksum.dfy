/** The header checksum of the transmit path (pfm_worker_loop.c:269-292), with the bytes it really reads and its
    32-bit accumulator. Folding as in section 4.1 of RFC 1071. */
module Checksum {
  type Byte = n: nat | n < 0x100

  const WORD: nat := 0x1_0000

  const ONES: nat := 0xFFFF

  const ACCUMULATOR: nat := 0x1_0000_0000

  /** A byte in the high half of a word. */
  function High(x: Byte): nat {
    x as int * 0x100
  }

  function WordAt(b: seq<Byte>, i: nat): (w: nat)
    requires i + 1 < |b|
    ensures w < WORD
  {
    High(b[i]) + b[i + 1] as int
  }

  /** The sum of the first n words. */
  function Words(b: seq<Byte>, n: nat): nat
    requires 2 * n <= |b|
  {
    if n == 0 then 0 else Words(b, n - 1) + WordAt(b, 2 * (n - 1))
  }

  /** How many bytes are read for a given length: the loop also takes the word that starts at the length, and
      for an even length the tail step takes the high byte of one word more. */
  function BytesRead(len: nat): nat {
    2 * (len / 2 + 1) + if len % 2 == 0 then 1 else 0
  }

  /** The sum of all that is read. */
  function Total(b: seq<Byte>, len: nat): nat
    requires BytesRead(len) <= |b|
  {
    Words(b, len / 2 + 1) + if len % 2 == 0 then High(b[2 * (len / 2 + 1)]) else 0
  }

  /** The sum that a receiver checks: the words of the first len bytes, an odd last byte padded with zero. */
  function HeaderSum(b: seq<Byte>, len: nat): nat
    requires len <= |b|
  {
    Words(b, len / 2) + if len % 2 == 1 then High(b[len - 1]) else 0
  }

  lemma {:induction false} AddMultiple(x: int, k: nat)
    ensures (x + ONES * k) % ONES == x % ONES
  {
    if k > 0 {
      AddMultiple(x, k - 1);
      assert x + ONES * k == (x + ONES * (k - 1)) + ONES;
    }
  }

  lemma FoldStep(sum: nat)
    ensures (sum % WORD + sum / WORD) % ONES == sum % ONES
  {
    var high, low := sum / WORD, sum % WORD;
    assert sum == (low + high) + ONES * high;
    AddMultiple(low + high, high);
  }

  function Fold(sum: nat): (r: nat)
    ensures r < WORD
    ensures r % ONES == sum % ONES
    ensures r == 0 <==> sum == 0
  {
    if sum < WORD then sum
    else
      FoldStep(sum);
      Fold(sum % WORD + sum / WORD)
  }

  lemma AddModulo(x: nat, y: nat)
    ensures (x % ACCUMULATOR + y) % ACCUMULATOR == (x + y) % ACCUMULATOR
  {}

  lemma NoWords(b: seq<Byte>)
    ensures Words(b, 0) % ACCUMULATOR == 0
  {}

  lemma WordAdded(b: seq<Byte>, n: nat)
    requires 2 * n + 1 < |b|
    ensures Words(b, n + 1) % ACCUMULATOR ==
            (Words(b, n) % ACCUMULATOR + High(b[2 * n]) + b[2 * n + 1] as int) % ACCUMULATOR
  {
    AddModulo(Words(b, n), WordAt(b, 2 * n));
  }

  lemma FoldOnce(sum: nat)
    ensures sum / WORD == 0 ==> Fold(sum) == sum
    ensures sum / WORD != 0 ==> Fold(sum) == Fold(sum % WORD + sum / WORD) && sum % WORD + sum / WORD < sum
  {}

  /** check_sum: the 16-bit pattern returned. */
  method CheckSum(addr: array<Byte>, len: nat) returns (ret: nat)
    requires BytesRead(len) <= addr.Length
    ensures ret == ONES - Fold(Total(addr[..], len) % ACCUMULATOR)
  {
    hide Words, Fold;
    NoWords(addr[..]);
    var csum: nat := 0;
    var i := 0;
    ghost var n := 0;
    while i <= len
      invariant i == 2 * n && n <= len / 2 + 1
      invariant csum == Words(addr[..], n) % ACCUMULATOR
    {
      WordAdded(addr[..], n);
      csum := (csum + High(addr[i]) + addr[i + 1] as int) % ACCUMULATOR;
      i, n := i + 2, n + 1;
    }
    if len % 2 == 0 {
      AddModulo(Words(addr[..], n), High(addr[i]));
      csum := (csum + High(addr[i])) % ACCUMULATOR;
    }
    ghost var sum := csum;
    while csum / WORD != 0
      invariant Fold(csum) == Fold(sum)
      decreases csum
    {
      FoldOnce(csum);
      csum := csum % WORD + csum / WORD;
    }
    FoldOnce(csum);
    ret := ONES - csum;
  }

  lemma {:induction false} WordsBound(b: seq<Byte>, n: nat)
    requires 2 * n <= |b|
    ensures Words(b, n) <= n * ONES
  {
    if n > 0 {
      WordsBound(b, n - 1);
    }
  }

  /** Congruent numbers differ by a multiple. */
  lemma CongruentDifference(x: nat, y: nat)
    requires x % ONES == y % ONES && y <= x
    ensures x - y == ONES * ((x - y) / ONES)
  {}

  /** For every length a C int can hold, the result complements everything read - result plus all words is 0
      modulo 65535 - if and only if the sum stayed within the 32-bit accumulator. */
  lemma ComplementsAllReadIff(b: seq<Byte>, len: nat)
    requires BytesRead(len) <= |b| && len < 0x8000_0000
    ensures var ret := ONES - Fold(Total(b, len) % ACCUMULATOR);
            (ret + Total(b, len)) % ONES == 0 <==> Total(b, len) < ACCUMULATOR
  {
    hide Words;
    var sum := Total(b, len);
    var lost := sum / ACCUMULATOR;
    var f := Fold(sum % ACCUMULATOR);
    WordsBound(b, len / 2 + 1);
    assert lost < ONES;
    assert sum == sum % ACCUMULATOR + ACCUMULATOR * lost;
    assert ACCUMULATOR == ONES * (ONES + 2) + 1;
    CongruentDifference(sum % ACCUMULATOR, f);
    var k := (sum % ACCUMULATOR - f) / ONES;
    assert ONES - f + sum == lost + ONES * (1 + k + (ONES + 2) * lost);
    AddMultiple(lost, 1 + k + (ONES + 2) * lost);
  }

  /** What is read beyond the first len bytes (and their padding). */
  function Extra(b: seq<Byte>, len: nat): nat
    requires BytesRead(len) <= |b|
  {
    if len % 2 == 0 then WordAt(b, len) + High(b[len + 2]) else b[len] as int
  }

  lemma TotalIsHeaderAndExtra(b: seq<Byte>, len: nat)
    requires BytesRead(len) <= |b|
    ensures Total(b, len) == HeaderSum(b, len) + Extra(b, len)
  {
    assert Words(b, len / 2 + 1) == Words(b, len / 2) + WordAt(b, 2 * (len / 2));
  }

  /** The sum of the first n bytes, every other one weighted as a high byte. */
  function Weighted(b: seq<Byte>, n: nat): nat
    requires n <= |b|
  {
    if n == 0 then 0 else Weighted(b, n - 1) + (if n % 2 == 1 then 256 * b[n - 1] as int else b[n - 1] as int)
  }

  lemma {:induction false} WordsAreWeighted(b: seq<Byte>, n: nat)
    requires 2 * n <= |b|
    ensures Words(b, n) == Weighted(b, 2 * n)
  {
    if n > 0 {
      WordsAreWeighted(b, n - 1);
    }
  }

  /** Every byte up to the length and one more is read, and yet another for an even length; a receiver reads the bytes
      of the length. */
  lemma BytesSummed(b: seq<Byte>, len: nat)
    requires (if len % 2 == 0 then len + 3 else len + 1) <= |b|
    ensures Total(b, len) == Weighted(b, if len % 2 == 0 then len + 3 else len + 1)
    ensures HeaderSum(b, len) == Weighted(b, len)
  {
    WordsAreWeighted(b, len / 2 + 1);
    WordsAreWeighted(b, len / 2);
  }

  /** The two ways a host keeps a 16-bit number in memory. */
  datatype Order = BigEndian | LittleEndian

  /** A 16-bit number with its two bytes exchanged. */
  function Swapped(w: nat): (r: nat)
    requires w < WORD
    ensures r < WORD
  {
    (w % 0x100) * 0x100 + w / 0x100
  }

  /** What the two bytes of a stored number read as, high byte first: nothing converts the checksum to network
      order before it is stored. */
  function Stored(ret: nat, order: Order): (w: nat)
    requires ret < WORD
    ensures w < WORD
  {
    if order.BigEndian? then ret else Swapped(ret)
  }

  /** The offset of hdr_checksum in an IPv4 header, in words. */
  const CHECKSUM_WORD: nat := 5

  function PutWord(b: seq<Byte>, k: nat, w: nat): (b': seq<Byte>)
    requires 2 * k + 1 < |b| && w < WORD
    ensures |b'| == |b|
  {
    b[2 * k := w / 0x100][2 * k + 1 := w % 0x100]
  }

  /** The bytes after the call: the checksum field, 0 while the sum is taken, receives the number returned. */
  function Sealed(b: seq<Byte>, len: nat, order: Order): (b': seq<Byte>)
    requires BytesRead(len) <= |b| && 2 * CHECKSUM_WORD + 1 < len
    ensures |b'| == |b|
  {
    PutWord(b, CHECKSUM_WORD, Stored(ONES - Fold(Total(b, len) % ACCUMULATOR), order))
  }

  lemma {:induction false} WordsPut(b: seq<Byte>, k: nat, w: nat, n: nat)
    requires 2 * k + 1 < |b| && w < WORD && 2 * n <= |b|
    ensures Words(PutWord(b, k, w), n) == Words(b, n) + if k < n then w - WordAt(b, 2 * k) else 0
  {
    if n > 0 {
      WordsPut(b, k, w, n - 1);
    }
  }

  lemma SealedSum(b: seq<Byte>, len: nat, order: Order)
    requires BytesRead(len) <= |b| && 2 * CHECKSUM_WORD + 1 < len && WordAt(b, 2 * CHECKSUM_WORD) == 0
    ensures HeaderSum(Sealed(b, len, order), len) ==
            HeaderSum(b, len) + Stored(ONES - Fold(Total(b, len) % ACCUMULATOR), order)
  {
    hide Words, Fold, Stored;
    WordsPut(b, CHECKSUM_WORD, Stored(ONES - Fold(Total(b, len) % ACCUMULATOR), order), len / 2);
  }

  lemma SumMultipleIff(x: nat, y: nat)
    requires (x + y) % ONES == 0 && y < 2 * ONES
    ensures x % ONES == 0 <==> y in {0, ONES}
  {
    var k := (x + y) / ONES;
    assert x + y == ONES * k;
    if y in {0, ONES} {
      var j := if y == 0 then k else k - 1;
      assert x == 0 + ONES * j;
      AddMultiple(0, j);
    }
  }

  /** Two numbers that add up to a multiple are multiples together. */
  lemma MultiplesTogether(x: nat, y: nat)
    requires (x + y) % ONES == 0
    ensures x % ONES == 0 <==> y % ONES == 0
  {
    var k := (x + y) / ONES;
    assert x + y == ONES * k;
    if y % ONES == 0 {
      var j := y / ONES;
      assert x == 0 + ONES * (k - j);
      AddMultiple(0, k - j);
    }
    if x % ONES == 0 {
      var j := x / ONES;
      assert y == 0 + ONES * (k - j);
      AddMultiple(0, k - j);
    }
  }

  /** Exchanging the bytes multiplies by 256 modulo 65535. */
  lemma SwappedSum(ret: nat, h: nat, e: nat)
    requires ret < WORD && (ret + h + e) % ONES == 0
    ensures (Swapped(ret) + h) % ONES == 0 <==> (255 * h + 256 * e) % ONES == 0
  {
    var k := (ret + h + e) / ONES;
    assert ret + h + e == ONES * k;
    assert 256 * ret == Swapped(ret) + ONES * (ret / 0x100);
    var j := 256 * k - ret / 0x100;
    assert (Swapped(ret) + h) + (255 * h + 256 * e) == 0 + ONES * j;
    AddMultiple(0, j);
    MultiplesTogether(Swapped(ret) + h, 255 * h + 256 * e);
  }

  /** What the sums before the call must be for the stored bytes to verify. */
  predicate Verifies(b: seq<Byte>, len: nat, order: Order)
    requires BytesRead(len) <= |b|
  {
    if order.BigEndian? then Extra(b, len) in {0, ONES}
    else (255 * HeaderSum(b, len) + 256 * Extra(b, len)) % ONES == 0
  }

  lemma ExtraBound(b: seq<Byte>, len: nat)
    requires BytesRead(len) <= |b|
    ensures Extra(b, len) < 2 * ONES
  {}

  /** A receiver that sums the header, with the checksum as it lies in memory, gets 0 modulo 65535 if and only if:
      on a big-endian host, the bytes read past the header add up to 0 or 65535; on a little-endian one, 255 times
      the header's own sum and 256 times that of those bytes make a multiple of 65535. */
  lemma HeaderVerifiesIff(b: seq<Byte>, len: nat, order: Order)
    requires BytesRead(len) <= |b| && len < 0x8000_0000 && Total(b, len) < ACCUMULATOR
    requires 2 * CHECKSUM_WORD + 1 < len && WordAt(b, 2 * CHECKSUM_WORD) == 0
    ensures HeaderSum(Sealed(b, len, order), len) % ONES == 0 <==> Verifies(b, len, order)
  {
    hide Words, Fold, Swapped, Total, HeaderSum, Extra, Sealed;
    ComplementsAllReadIff(b, len);
    TotalIsHeaderAndExtra(b, len);
    SealedSum(b, len, order);
    var ret, h, e := ONES - Fold(Total(b, len) % ACCUMULATOR), HeaderSum(b, len), Extra(b, len);
    if order.BigEndian? {
      ExtraBound(b, len);
      SumMultipleIff(ret + h, e);
    } else {
      SwappedSum(ret, h, e);
    }
  }

  lemma MultipleOfFactors(h: nat)
    ensures (255 * h) % ONES == 0 <==> h % 257 == 0
  {
    var q, r := h / 257, h % 257;
    assert 255 * h == 255 * r + ONES * q;
    AddMultiple(255 * r, q);
  }

  /** Even where nothing disturbing is read past the header, the bytes stored by a little-endian host verify only
      for a header sum that 257 divides. */
  lemma LittleEndianVerifiesIff(b: seq<Byte>, len: nat)
    requires BytesRead(len) <= |b| && len < 0x8000_0000 && Total(b, len) < ACCUMULATOR
    requires 2 * CHECKSUM_WORD + 1 < len && WordAt(b, 2 * CHECKSUM_WORD) == 0
    requires Extra(b, len) in {0, ONES}
    ensures HeaderSum(Sealed(b, len, LittleEndian), len) % ONES == 0 <==> HeaderSum(b, len) % 257 == 0
  {
    hide Words, Fold, Total, HeaderSum, Extra, Sealed;
    HeaderVerifiesIff(b, len, LittleEndian);
    var h, e := HeaderSum(b, len), Extra(b, len);
    AddMultiple(255 * h, if e == 0 then 0 else 256);
    MultipleOfFactors(h);
  }

  /** An IPv4 header as pfm_data_req fills it in before the checksum: one byte of UDP payload, worker core 4, from
      192.168.0.1 to 192.168.0.2. */
  const SAMPLE_HEADER: seq<Byte> :=
    [0x45, 0x00, 0x00, 0x1D, 0x40, 0x00, 0x00, 0x00, 0x00, 0x11, 0x00, 0x00,
     0xC0, 0xA8, 0x00, 0x01, 0xC0, 0xA8, 0x00, 0x02]

  /** The first bytes of a UDP header to port 2152 that an earlier packet left behind it: pfm_data_req writes its own
      UDP header only later. */
  const OLD_PORTS: seq<Byte> := [0x08, 0x68, 0x08]

  const NO_PORTS: seq<Byte> := [0x00, 0x00, 0x00]

  lemma SampleSum(past: seq<Byte>)
    requires |past| == 3
    ensures HeaderSum(SAMPLE_HEADER + past, 20) == 0x2_0681
  {
    var b := SAMPLE_HEADER + past;
    assert Words(b, 1) == 0x4500;
    assert Words(b, 2) == 0x451D;
    assert Words(b, 4) == 0x851D;
    assert Words(b, 6) == 0x852E;
    assert Words(b, 8) == 0x1_45D7;
    assert Words(b, 10) == 0x2_0681;
  }

  /** Before those bytes the stored checksum of that header verifies on no host. Before zeros it verifies if stored
      big-endian and does not if stored little-endian. */
  lemma HeaderChecksumCounterexample(order: Order)
    ensures HeaderSum(Sealed(SAMPLE_HEADER + OLD_PORTS, 20, order), 20) % ONES != 0
    ensures HeaderSum(Sealed(SAMPLE_HEADER + NO_PORTS, 20, order), 20) % ONES == 0 <==> order.BigEndian?
  {
    hide Words, Fold, HeaderSum, Total, Sealed;
    forall past: seq<Byte> | past in {OLD_PORTS, NO_PORTS}
      ensures HeaderSum(Sealed(SAMPLE_HEADER + past, 20, order), 20) % ONES == 0 <==>
              past == NO_PORTS && order.BigEndian?
    {
      var b := SAMPLE_HEADER + past;
      SampleSum(past);
      TotalIsHeaderAndExtra(b, 20);
      assert Extra(b, 20) == if past == NO_PORTS then 0 else 0x1068;
      HeaderVerifiesIff(b, 20, order);
    }
  }
}
