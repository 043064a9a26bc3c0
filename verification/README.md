# Plaintext model of the TFHEpp oblivious RAM test

This project models the oblivious-RAM logic of `test/ram.cpp` in TFHEpp, taken on plaintexts. The memory is `2^k` cells and the address is `k` little-endian bits. A read runs `RAMUX`, a balanced select tree of CMUX gates. It works in place on a half-size scratch array and uses power-of-two strides, consuming address bit `j` in round `j`. A write first forms the candidate `wrflag ? writep : readValue`. It then rewrites every cell through a `k`-step CMUX chain. The chain lets the candidate through only for the addressed cell.

Each ciphertext is replaced by the value it encrypts:
- a selector is a `bool`;
- a memory cell is a generic value `T`, or a `bool` in the test program.

`CMUXFFTlvl1(res, sel, a, b)` becomes `Cmux(sel, a, b) = if sel then a else b`. Row 0 is the inverted row: it is passed as `invaddress` (test/ram.cpp:12, 92). Given that, the assertions at `test/ram.cpp:118` and `:122-123` fix the convention. Swapping both the convention and the rows would pass them as well. Circuit bootstrapping gives row 1 = the address bits and row 0 = their negations, and the read uses row 0. Sample extraction, key switching and gate bootstrapping return their input unchanged on plaintexts. The select tree takes only the inverted selector row. The rewrite loop also receives the address, but no statement computes with it: it only reaches `RewriteCell`'s contract. The body reads the selectors alone and never indexes the memory by the address.

Modules:
- `Bits` (`bits.dfy`): `Pow2`, little-endian `Decode`/`Encode`, the `std::bitset` bit `Bit`, the `>>` shift, and the source's `uint32_t` address accumulation.
- `Selectors` (`selectors.dfy`): `Cmux` and the selector pair from circuit bootstrapping.
- `SelectTree` (`select_tree.dfy`): the top-down reference tree `SelectTop` and the block-summary invariant. It also holds `RAMUX`, split into its first round, its middle rounds and its last CMUX.
- `BlindWrite` (`blind_write.dfy`): the write candidate, the per-cell chain and the loop that rewrites every cell.
- `Ram` (`ram.dfy`): the reference `Read`/`Write` and one full access. It also holds the test program's two assertions.

A set selector passes the first operand, so the read is correct only because it is driven by the inverted row `bootedTGSW[0]`. The sizes are template parameters, so there is no run-time size check; the model takes `|memory| == Pow2(|address|)` as a precondition.

## Model

| member | source | states |
|---|---|---|
| Bits.Decode | test/ram.cpp:59-61 | the little-endian value of any `k`-bit address is below `2^k` |
| Bits.AddressToInt | test/ram.cpp:59-61 | the shift-and-add loop is computed modulo 2^32 and never wraps for `k <= 32`. It yields the little-endian value of the address bits, which is below `2^k` |
| Bits.DecodeSnoc | test/ram.cpp:60-61 | adding bit `i` at weight `2^i` extends the value of the first `i` bits to the first `i+1` |
| Bits.DecodeEncode | test/ram.cpp:99 | a cell index below `2^k` is recovered from its `k` bitset bits |
| Bits.EncodeDecode | test/ram.cpp:59-61 | the bits of the decoded address are the address bits themselves |
| Bits.DecodeInjective | test/ram.cpp:59-61 | two addresses of the same width with the same value are equal |
| Bits.BitsDetermineIndex | test/ram.cpp:99-103 | a cell index `i < 2^k` agrees with the address on all `k` bits if and only if `i` is the decoded address |
| Bits.ShiftRightPow2 | test/ram.cpp:25 | `num_trlwe >> (bit + 2)` is `2^(k-bit-2)`, the number of merges in middle round `bit` |
| Selectors.CircuitBootstrap | test/ram.cpp:86-89 | entry `j` of row `b` is set exactly when address bit `j` equals `b`. Negating row 0 gives the address back |
| SelectTree.SelectTopPicksAddress | test/ram.cpp:11-33 | the select tree driven by the inverted address row returns the cell at the decoded address |
| SelectTree.SummaryStep | test/ram.cpp:26-28 | the block of size `2^(c+1)` is selected by CMUX under selector `c` from the selections of its lower and upper halves |
| SelectTree.FirstRound | test/ram.cpp:18-21 | after round 0, slot `m` holds the selection of cells `2m` and `2m+1` under selector 0, for all `num_trlwe/2` slots, with `num_trlwe/2` CMUX evaluations counted |
| SelectTree.MiddleRound | test/ram.cpp:23-30 | first ensures: if slot `m·2^bit` holds the selection of block `m` (size `2^(bit+1)`), then afterwards slot `m·2^(bit+1)` holds that of block `m` (size `2^(bit+2)`), for every block. All slot indices stay below `num_trlwe/2`. Second ensures: the round performs `num_trlwe >> (bit+2)` CMUXes |
| SelectTree.Ramux | test/ram.cpp:11-33 | returns `data[addressint]` for the address whose inverted row drives it, and agrees with the top-down reference tree. `data` is never written. The tree performs exactly `2^k - 1` CMUX evaluations |
| BlindWrite.StepKeepsIffBitAgrees | test/ram.cpp:101-103 | chain step `j` of cell `i` keeps the running value iff bit `j` of `i` equals address bit `j`, and otherwise resets it to the cell's content |
| BlindWrite.RewriteCell | test/ram.cpp:99-103 | the `k`-step chain of cell `i` ends with the candidate if `i` is the address, and with the cell's old content otherwise |
| BlindWrite.RewriteAll | test/ram.cpp:98-109 | the rewritten memory is the old memory with only the addressed cell replaced by the candidate. All `2^k` cells are rewritten, in order, whatever the address |
| Ram.ReadOtherWrite | test/ram.cpp:98-109 | a write never changes what any other address of the same width reads |
| Ram.Access | test/ram.cpp:86-109 | one access reads `memory[address]`. It leaves `memory[address := wrflag ? writep : memory[address]]`: every other cell is unchanged, and with the flag clear the whole memory is unchanged |
| Ram.RamTest | test/ram.cpp:59-64 | the bit read back is the plaintext bit at the address. The new value is the negation of that bit. Afterwards the addressed cell holds the negation if the flag is set and the old bit if not. These are the two assertions at lines 118 and 122-123 |

## Left out

- The FHE primitives (`CMUXFFTlvl1`, `CircuitBootstrappingFFTwithInv`, `SampleExtractIndexlvl1`, `IdentityKeySwitchlvl10`, `GateBootstrappingTLWE2TRLWEFFTlvl01`, `HomMUXwoSE`, and encryption and decryption) are not part of this model. They are replaced by their plaintext behaviour: a CMUX, a negated row, and the identity. The in-place calls that pass the output as the first data operand (test/ram.cpp:26-28, 102-103) are modelled as reading both operands before writing, which assumes the primitive tolerates that aliasing. FFT, noise and floating point are not modelled.
- The torus encoding `±DEF_μ` and the noise `DEF_α` are encryption parameters. Plaintexts are `bool`, and a cell is a single value: the polynomial's other coefficients are not modelled.
- Random generation, `chrono` timing, console output and the heap allocation of keys are left out. The random inputs become parameters of `RamTest`, and `main`'s fixed `address_bit = 9` becomes a parameter `k`. Allowing any `k` from 2 to 32 is the model's own generalisation: `1 << address_bit` (test/ram.cpp:13,15) is a signed `int` shift, which gives a negative array bound at `k = 31` and is undefined at `k = 32`, so the source cannot be built for those widths.
- Key serialization through `cereal` (`test/cereal.cpp`) is I/O over a library that is not part of this model.
- Obliviousness as an information-flow or security property is not stated. The model keeps only two structural facts: the evaluator's method bodies read the selectors and never the address, and every cell is rewritten. The per-cell loop is modelled sequentially; its parallel execution is not.
- SelectTree.Ramux: `RAMUX` for `address_bit < 2` is excluded by the precondition `|invaddress| >= 2`. There `address_bit - 2` wraps as an unsigned value, so `constexpr uint32_t stride = 1 << (address_bit - 2)` (test/ram.cpp:31) shifts by 2^32 - 2 (k = 0) or 2^32 - 1 (k = 1). That is not a constant expression, so such an instantiation does not compile.
- SelectTree.Ramux: the `uint32_t` index arithmetic is modelled with unbounded integers. The model proves every index below `num_trlwe`, so no wrap occurs whenever `num_trlwe` fits in 32 bits.
- The C++ scratch array starts uninitialised. The model fills it with a placeholder, and round 0 overwrites every slot before any slot is read.
