/**
 * Little-endian address bits: the value an address denotes, the bits
 * std::bitset reports for a cell index, and the power-of-two arithmetic
 * that the select tree's strides rely on.
 */
module Bits {

  /** 2^e: the number of cells an e-bit address reaches. */
  function Pow2(e: nat): (p: nat)
    ensures p >= 1
  {
    if e == 0 then 1 else 2 * Pow2(e - 1)
  }

  /** Value of a little-endian bit string: bit i weighs 2^i. */
  function Decode(bits: seq<bool>): (n: nat)
    ensures n < Pow2(|bits|)
  {
    if |bits| == 0 then 0 else (if bits[0] then 1 else 0) + 2 * Decode(bits[1..])
  }

  /** Bit j of n, as `std::bitset` numbers them (bit 0 least significant). */
  function Bit(n: nat, j: nat): bool
  {
    if j == 0 then n % 2 == 1 else Bit(n / 2, j - 1)
  }

  /** The k low bits of n, least significant first. */
  function Encode(n: nat, k: nat): (bits: seq<bool>)
    ensures |bits| == k
    ensures forall j :: 0 <= j < k ==> bits[j] == Bit(n, j)
  {
    if k == 0 then [] else [n % 2 == 1] + Encode(n / 2, k - 1)
  }

  /** Every bit negated: the row of selectors that encodes "address bit j is 0". */
  function Flip(bits: seq<bool>): (r: seq<bool>)
    ensures |r| == |bits|
  {
    seq(|bits|, j requires 0 <= j < |bits| => !bits[j])
  }

  /** `x >> s` on an unsigned integer: s halvings, each rounding down. */
  function ShiftRight(x: nat, s: nat): nat
  {
    if s == 0 then x else ShiftRight(x / 2, s - 1)
  }

  /** Shifting 2^n right by s <= n bits leaves 2^(n-s). */
  lemma {:induction false} ShiftRightPow2(n: nat, s: nat)
    requires s <= n
    ensures ShiftRight(Pow2(n), s) == Pow2(n - s)
  {
    if s > 0 {
      assert Pow2(n) / 2 == Pow2(n - 1);
      ShiftRightPow2(n - 1, s - 1);
    }
  }

  lemma {:induction false} Pow2Add(a: nat, b: nat)
    ensures Pow2(a + b) == Pow2(a) * Pow2(b)
  {
    if a > 0 {
      Pow2Add(a - 1, b);
      assert Pow2(a + b) == 2 * Pow2(a - 1 + b);
    }
  }

  lemma {:induction false} Pow2Monotone(a: nat, b: nat)
    requires a <= b
    ensures Pow2(a) <= Pow2(b)
  {
    if a < b {
      Pow2Monotone(a, b - 1);
    }
  }

  /** The width of the source's `uint32_t` arithmetic. */
  const Word: nat := 0x1_0000_0000

  lemma Pow2Word()
    ensures Pow2(32) == Word
  {
    assert Pow2(2) == 4;
    Pow2Add(2, 2);
    Pow2Add(4, 4);
    Pow2Add(8, 8);
    Pow2Add(16, 16);
  }

  /** A value below 2^32 survives reduction modulo 2^32. */
  lemma NoWrap(x: nat)
    requires x < Word
    ensures x % Word == x
  {
  }

  /** Decoding inverts encoding for every value that fits in k bits. */
  lemma {:induction false} DecodeEncode(n: nat, k: nat)
    requires n < Pow2(k)
    ensures Decode(Encode(n, k)) == n
  {
    if k > 0 {
      DecodeEncode(n / 2, k - 1);
      assert Encode(n, k)[1..] == Encode(n / 2, k - 1);
    }
  }

  /** Encoding inverts decoding: the bits of Decode(bits) are the bits themselves. */
  lemma {:induction false} EncodeDecode(bits: seq<bool>)
    ensures Encode(Decode(bits), |bits|) == bits
  {
    if |bits| > 0 {
      EncodeDecode(bits[1..]);
      var n := Decode(bits);
      assert n / 2 == Decode(bits[1..]);
      assert (n % 2 == 1) == bits[0];
    }
  }

  /** Equal-length addresses with the same value are the same address. */
  lemma {:induction false} DecodeInjective(a: seq<bool>, b: seq<bool>)
    requires |a| == |b|
    requires Decode(a) == Decode(b)
    ensures a == b
  {
    EncodeDecode(a);
    EncodeDecode(b);
  }

  /**
   * Appending a most significant bit adds its weight: the sum the source
   * accumulates from bit 0 upwards, and the split the select tree makes on
   * its last selector.
   */
  lemma {:induction false} DecodeSnoc(bits: seq<bool>, b: bool)
    ensures Decode(bits + [b]) == Decode(bits) + (if b then Pow2(|bits|) else 0)
  {
    if |bits| > 0 {
      DecodeSnoc(bits[1..], b);
      assert (bits + [b])[1..] == bits[1..] + [b];
    }
  }

  /** Negating twice restores the address. */
  lemma FlipFlip(bits: seq<bool>)
    ensures Flip(Flip(bits)) == bits
  {
  }

  /** i and the address agree on their j low bits. */
  ghost predicate AgreeBelow(i: nat, address: seq<bool>, j: nat)
    requires j <= |address|
  {
    forall j' :: 0 <= j' < j ==> Bit(i, j') == address[j']
  }

  /**
   * A cell index below 2^k is the decoded address exactly when every one of
   * its k bits matches the corresponding address bit.
   */
  lemma {:induction false} BitsDetermineIndex(i: nat, address: seq<bool>)
    requires i < Pow2(|address|)
    ensures AgreeBelow(i, address, |address|) <==> i == Decode(address)
  {
    var k := |address|;
    if AgreeBelow(i, address, k) {
      assert Encode(i, k) == address;
      DecodeEncode(i, k);
    }
    if i == Decode(address) {
      EncodeDecode(address);
      assert forall j :: 0 <= j < k ==> Encode(i, k)[j] == address[j];
    }
  }

  /**
   * `addressint += static_cast<uint32_t>(address[i]) << i` for i below k:
   * every shift and sum is taken modulo 2^32, and none of them wraps.
   */
  method AddressToInt(address: seq<bool>) returns (addressint: nat)
    requires |address| <= 32
    ensures addressint == Decode(address)
    ensures addressint < Pow2(|address|)
  {
    Pow2Word();
    addressint := 0;
    for i := 0 to |address|
      invariant addressint == Decode(address[..i])
    {
      Pow2Monotone(i + 1, 32);
      DecodeSnoc(address[..i], address[i]);
      assert address[..i + 1] == address[..i] + [address[i]];
      var digit: nat := if address[i] then 1 else 0;
      var weight := digit * Pow2(i);
      assert weight == (if address[i] then Pow2(i) else 0);
      var shifted := weight % Word;
      assert shifted == weight by { NoWrap(weight); }
      var sum := addressint + shifted;
      assert sum == Decode(address[..i + 1]);
      assert sum < Word;
      addressint := sum % Word;
      NoWrap(sum);
    }
    assert address[..|address|] == address;
  }
}
