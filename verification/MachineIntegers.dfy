/**
 The unsigned machine integers of the source. Arithmetic on them is checked not to overflow, except
 where the source's addition is meant to wrap or wraps in a release build.
 */
module MachineIntegers {
  const TWO_TO_THE_32: int := 0x1_0000_0000
  const TWO_TO_THE_64: int := 0x1_0000_0000_0000_0000

  newtype u8 = x: int | 0 <= x < 0x100
  newtype u16 = x: int | 0 <= x < 0x1_0000
  newtype u32 = x: int | 0 <= x < 0x1_0000_0000
  newtype u64 = x: int | 0 <= x < 0x1_0000_0000_0000_0000

  function WrappingAdd32(a: u32, b: u32): u32 {
    ((a as int + b as int) % TWO_TO_THE_32) as u32
  }

  function WrappingAdd64(a: u64, b: u64): u64 {
    var sum := a as int + b as int;
    (if sum < TWO_TO_THE_64 then sum else sum - TWO_TO_THE_64) as u64
  }
}
