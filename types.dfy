/**
 * Machine-level types shared by the model, and the macros of
 * kern/includes/types.h: byte swapping, the branch hints and ASSERT.
 */
module Types {

  /** One byte as the kernel stores it in a `char` or `uint8_t` buffer. */
  type Byte = x: int | 0 <= x < 256

  /** 2^32: the modulus of `unsigned int`, `uintptr_t` and `size_t` on i386. */
  const WORD_MOD: int := 0x1_0000_0000

  /** An unsigned 32-bit quantity held as an integer. */
  type U32 = x: int | 0 <= x < WORD_MOD

  /** A pointer that may be NULL, or a value that may be absent. */
  datatype Option<+T> = None | Some(value: T)

  /** Byte lane k (0 = least significant) of a 32-bit value. */
  function Lane(x: bv32, k: bv32): bv32
    requires k < 4
  {
    (x >> (8 * k)) & 0xFF
  }

  /** `ENDIAN_DWORD_SWAP`: the four byte lanes of x in the opposite order. */
  function DwordSwap(x: bv32): (r: bv32)
    ensures Lane(r, 0) == Lane(x, 3) && Lane(r, 1) == Lane(x, 2)
    ensures Lane(r, 2) == Lane(x, 1) && Lane(r, 3) == Lane(x, 0)
  {
    ((x >> 24) & 0xFF) | ((x << 8) & 0xFF0000) | ((x >> 8) & 0xFF00) | ((x << 24) & 0xFF000000)
  }

  /** Two swaps restore the original value. */
  lemma DwordSwapInvolution(x: bv32)
    ensures DwordSwap(DwordSwap(x)) == x
  {
  }

  /** A value is determined by its four byte lanes. */
  lemma LanesDetermine(x: bv32, y: bv32)
    requires forall k: bv32 :: k < 4 ==> Lane(x, k) == Lane(y, k)
    ensures x == y
  {
    assert Lane(x, 0) == Lane(y, 0) && Lane(x, 1) == Lane(y, 1);
    assert Lane(x, 2) == Lane(y, 2) && Lane(x, 3) == Lane(y, 3);
  }

  /** `ENDIAN_WORD_SWAP` on a 16-bit value: its two bytes exchanged. */
  function WordSwap(x: bv16): (r: bv16)
    ensures r & 0xFF == x >> 8 && r >> 8 == x & 0xFF
  {
    ((x & 0xFF) << 8) | ((x & 0xFF00) >> 8)
  }

  /** Two 16-bit swaps restore the original value. */
  lemma WordSwapInvolution(x: bv16)
    ensures WordSwap(WordSwap(x)) == x
  {
  }

  /**
   * `likely(x)` and `unlikely(x)`: `__builtin_expect(!!(x), …)` yields its
   * first argument, the truth value of x normalised to 0 or 1; the expected
   * value is only a hint to the compiler.
   */
  function Expect(x: int, hint: int): (r: int)
    ensures r == 0 || r == 1
    ensures (r == 1) <==> (x != 0)
  {
    if x != 0 then 1 else 0
  }

  /** The hint never changes the outcome of a branch. */
  lemma ExpectIgnoresHint(x: int, h1: int, h2: int)
    ensures Expect(x, h1) == Expect(x, h2)
  {
  }

  /** What `pexpert_panic` receives from a failing ASSERT. */
  datatype Panic = Panic(file: string, line: int, text: string)

  /** `ASSERT(b)`: nothing when b holds, otherwise a panic with file, line and the text of b. */
  function Assert(b: bool, file: string, line: int, text: string): (r: Option<Panic>)
    ensures r == None <==> b
    ensures r != None ==> r.value.file == file && r.value.line == line && r.value.text == text
  {
    if b then None else Some(Panic(file, line, text))
  }
}
