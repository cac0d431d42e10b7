/** Machine constants and word arithmetic used by the memory manager. */
module Machine {
  const U32_MAX := 0xFFFF_FFFF
  const U64_MAX := 0xFFFF_FFFF_FFFF_FFFF

  const FRAME_SIZE := 4096
  /** KERNEL_IDENTITY_LIMIT: 256 page tables of 1024 pages of 4096 bytes. */
  const PHYSICAL_LIMIT := 0x4000_0000
  const LIMIT_FRAMES := 0x4_0000

  function AlignDown(value: int, alignment: int): int
    requires alignment > 0
  {
    value - value % alignment
  }

  function AlignUp(value: int, alignment: int): int
    requires alignment > 0
  {
    AlignDown(value + (alignment - 1), alignment)
  }

  /**
   * ALIGN_DOWN to 16 of a 64-bit value. The complement of `16U - 1U` is taken in
   * 32 bits and then widened with zeros, so the mask also clears the upper half.
   */
  function NarrowAlignDown(value: int): int {
    AlignDown(value % 0x1_0000_0000, 16)
  }

  const SIXTEEN: bv32 := 16

  /** The mask on the word itself, and when it is the wide mask that the name promises. */
  lemma NarrowMask(v: bv64)
    ensures v & !(SIXTEEN - 1) as bv64 == (v & 0xFFFF_FFFF) - (v & 0xF)
    ensures v & !(SIXTEEN - 1) as bv64 == v & !(SIXTEEN as bv64 - 1) <==> v <= 0xFFFF_FFFF
  {
  }

  /** The narrow mask aligns a value exactly when the value fits in 32 bits. */
  lemma NarrowAligns(value: int)
    requires 0 <= value <= U64_MAX
    ensures NarrowAlignDown(value) == AlignDown(value, 16) <==> value <= U32_MAX
  {
    if value > U32_MAX {
      assert value % 0x1_0000_0000 <= U32_MAX && value / 16 >= 0x1000_0000;
      assert AlignDown(value, 16) == 16 * (value / 16);
    }
  }

  lemma AlignDown16(value: int)
    ensures AlignDown(value, 16) % 16 == 0 && value - 16 < AlignDown(value, 16) <= value
  {
    assert value == 16 * (value / 16) + value % 16;
  }

  lemma AlignUp16(value: int)
    ensures AlignUp(value, 16) % 16 == 0 && value <= AlignUp(value, 16) < value + 16
    ensures value % 16 == 0 ==> AlignUp(value, 16) == value
  {
    AlignDown16(value + 15);
  }
}
