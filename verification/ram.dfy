/**
 * The oblivious RAM on plaintexts: one read through the select tree
 * followed by one blind write, both driven by the circuit-bootstrapped
 * selectors of an address the evaluator never sees in the clear.
 */
module Ram {
  import opened Bits
  import opened Selectors
  import opened SelectTree
  import opened BlindWrite

  /** Reference read: the cell the little-endian address denotes. */
  function Read<T>(memory: seq<T>, address: seq<bool>): T
    requires |memory| == Pow2(|address|)
  {
    memory[Decode(address)]
  }

  /** Reference write: the addressed cell takes the value when the flag is set. */
  function Write<T>(memory: seq<T>, address: seq<bool>, wrflag: bool, value: T): seq<T>
    requires |memory| == Pow2(|address|)
  {
    memory[Decode(address) := if wrflag then value else memory[Decode(address)]]
  }

  /** A write never disturbs what any other address of the same width reads. */
  lemma ReadOtherWrite<T>(memory: seq<T>, address: seq<bool>, other: seq<bool>, wrflag: bool, value: T)
    requires |memory| == Pow2(|address|)
    requires |other| == |address|
    requires other != address
    ensures Read(Write(memory, address, wrflag, value), other) == Read(memory, other)
  {
    if Decode(other) == Decode(address) {
      DecodeInjective(other, address);
    }
  }

  /**
   * One access as the test performs it: circuit-bootstrap the address bits,
   * read through `RAMUX` with the inverted row, form the write candidate
   * and rewrite every cell.
   */
  method Access<T>(encmemory: seq<T>, address: seq<bool>, wrflag: bool, writep: T)
    returns (readValue: T, memory': seq<T>)
    requires |address| >= 2
    requires |encmemory| == Pow2(|address|)
    ensures readValue == Read(encmemory, address)
    ensures memory' == Write(encmemory, address, wrflag, writep)
    ensures |memory'| == |encmemory|
    ensures memory'[Decode(address)] == (if wrflag then writep else encmemory[Decode(address)])
    ensures forall c :: 0 <= c < |encmemory| && c != Decode(address) ==> memory'[c] == encmemory[c]
    ensures !wrflag ==> memory' == encmemory
  {
    var boot := CircuitBootstrap(address);
    var evals;
    readValue, evals := Ramux(boot.zero, encmemory);
    var writed := Candidate(wrflag, writep, readValue);
    var refreshed;
    memory', refreshed := RewriteAll(encmemory, boot, writed, address);
  }

  /**
   * The test program on plaintext bits: decode the address, take as the new
   * value the negation of the addressed bit, access, and return what the
   * two assertions compare, the bit read and the bit left at the address.
   */
  method RamTest(pmemory: seq<bool>, address: seq<bool>, wrflag: bool)
    returns (pres: bool, pwriteres: bool)
    requires 2 <= |address| <= 32
    requires |pmemory| == Pow2(|address|)
    ensures pres == pmemory[Decode(address)]
    ensures pwriteres == (if wrflag then !pmemory[Decode(address)] else pmemory[Decode(address)])
  {
    var addressint := AddressToInt(address);
    var writep := !pmemory[addressint];
    var memory';
    pres, memory' := Access(pmemory, address, wrflag, writep);
    pwriteres := memory'[addressint];
  }
}
