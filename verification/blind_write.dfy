/**
 * The write path's full-array blind rewrite: every cell runs its own
 * address-bit-wide CMUX chain from the write candidate, and the chain
 * lets the candidate through only for the addressed cell.
 */
module BlindWrite {
  import opened Bits
  import opened Selectors

  /**
   * `HomMUXwoSE(writed, cs, c1, encreadres)`: the write flag passes the new
   * value, a clear flag passes the value just read back.
   */
  function Candidate<T>(wrflag: bool, writep: T, readValue: T): T
  {
    Cmux(wrflag, writep, readValue)
  }

  /**
   * The selector of step j in cell i's chain, `bootedTGSW[addressbitset[j]][j]`:
   * the row named by bit j of i, column j.
   */
  function StepSelector(boot: SelectorPair, i: nat, j: nat): bool
    requires j < |boot.zero| && j < |boot.one|
  {
    boot.Row(Bit(i, j))[j]
  }

  /**
   * Step j of the chain keeps its running value exactly when bit j of the
   * cell index equals address bit j, and otherwise resets it to the cell's
   * own content.
   */
  lemma StepKeepsIffBitAgrees<T>(boot: SelectorPair, address: seq<bool>, i: nat, j: nat, temp: T, cell: T)
    requires Encodes(boot, address)
    requires j < |address|
    ensures StepSelector(boot, i, j) <==> Bit(i, j) == address[j]
    ensures Cmux(StepSelector(boot, i, j), temp, cell)
         == (if Bit(i, j) == address[j] then temp else cell)
  {
  }

  /**
   * The chain of cell i (`temp = writed`, then one CMUX per address bit
   * against `encmemory[i]`). `address` appears only in the contract: the
   * body reads the selectors alone.
   */
  method RewriteCell<T>(boot: SelectorPair, i: nat, writed: T, cell: T, address: seq<bool>)
    returns (temp: T)
    requires Encodes(boot, address)
    requires i < Pow2(|address|)
    ensures temp == (if i == Decode(address) then writed else cell)
  {
    temp := writed;
    for j := 0 to |boot.one|
      invariant temp == (if AgreeBelow(i, address, j) then writed else cell)
    {
      StepKeepsIffBitAgrees(boot, address, i, j, temp, cell);
      temp := Cmux(StepSelector(boot, i, j), temp, cell);
    }
    BitsDetermineIndex(i, address);
  }

  /**
   * The rewrite loop over all `memsize` cells. Each cell is overwritten in
   * place with its chain's result after extraction, key switching and gate
   * bootstrapping, which on plaintexts return the value unchanged.
   * `refreshed` lists the cells rewritten, in order: every cell, whatever
   * the address. As in the chain, `address` appears only in the contract.
   */
  method RewriteAll<T>(encmemory: seq<T>, boot: SelectorPair, writed: T, address: seq<bool>)
    returns (memory': seq<T>, refreshed: seq<nat>)
    requires Encodes(boot, address)
    requires |encmemory| == Pow2(|address|)
    ensures memory' == encmemory[Decode(address) := writed]
    ensures |refreshed| == |encmemory|
    ensures forall c :: 0 <= c < |encmemory| ==> refreshed[c] == c
  {
    memory' := encmemory;
    refreshed := [];
    for i := 0 to |encmemory|
      invariant |memory'| == |encmemory|
      invariant forall c :: 0 <= c < i ==> memory'[c] == (if c == Decode(address) then writed else encmemory[c])
      invariant forall c :: i <= c < |encmemory| ==> memory'[c] == encmemory[c]
      invariant |refreshed| == i
      invariant forall c :: 0 <= c < i ==> refreshed[c] == c
    {
      var temp := RewriteCell(boot, i, writed, memory'[i], address);
      memory' := memory'[i := temp];
      refreshed := refreshed + [i];
    }
  }
}
