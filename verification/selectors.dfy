/**
 * The homomorphic multiplexer and the selector rows, taken on plaintexts.
 * A selector ciphertext is replaced by the bit it encrypts and a cell by
 * the value it holds.
 */
module Selectors {
  import opened Bits

  /**
   * `CMUXFFTlvl1(res, sel, a, b)`: a set selector passes `a`, a clear one
   * passes `b`. The same convention serves the select tree and the write chain.
   */
  function Cmux<T>(sel: bool, a: T, b: T): T
  {
    if sel then a else b
  }

  /**
   * The two selector rows circuit bootstrapping derives from the address,
   * `bootedTGSW[0]` and `bootedTGSW[1]`, indexed by address bit.
   */
  datatype SelectorPair = SelectorPair(zero: seq<bool>, one: seq<bool>)
  {
    /** Row `b` of the pair: `bootedTGSW[b]`. */
    function Row(b: bool): seq<bool>
    {
      if b then one else zero
    }
  }

  /** The pair carries, at column j, address bit j in row 1 and its inverse in row 0. */
  predicate Encodes(boot: SelectorPair, address: seq<bool>)
  {
    && |boot.zero| == |address| && |boot.one| == |address|
    && forall j :: 0 <= j < |address| ==> boot.one[j] == address[j] && boot.zero[j] == !address[j]
  }

  /**
   * `CircuitBootstrappingFFTwithInv` applied to every address bit: row 1
   * carries bit j, row 0 its inverse. Entry j of row b is set exactly when
   * address bit j equals b.
   */
  function CircuitBootstrap(address: seq<bool>): (boot: SelectorPair)
    ensures Encodes(boot, address)
    ensures forall b: bool, j :: 0 <= j < |address| ==> (boot.Row(b)[j] <==> b == address[j])
    ensures Flip(boot.zero) == address
  {
    FlipFlip(address);
    SelectorPair(Flip(address), address)
  }
}
