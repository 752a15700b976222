/** Result and option types, guest errno values and machine integer bounds shared by the models. */
module Common {
  datatype Option<+T> = None | Some(value: T)

  /** A call either yields a value or an errno of the guest ABI. */
  datatype Result<+T> = Ok(value: T) | Err(errno: int)

  const EAGAIN := 6
  const EBADF := 8
  const EEXIST := 20
  const EFAULT := 21
  const EINVAL := 28
  const ENOENT := 44
  const ENOTSUP := 58
  const ENOTCAPABLE := 76

  const I32_MAX := 0x7fff_ffff
  const I32_MIN := -0x8000_0000
  const I64_MAX := 0x7fff_ffff_ffff_ffff
  const I64_MIN := -0x8000_0000_0000_0000
  const U32_MAX := 0xffff_ffff

  type I32 = x: int | I32_MIN <= x <= I32_MAX
  type I64 = x: int | I64_MIN <= x <= I64_MAX

  /** `i32::saturating_add(1)`, used by both guest descriptor counters. */
  function SaturatingNext(fd: I32): (next: I32)
    ensures next >= fd
    ensures next == fd <==> fd == I32_MAX
  {
    if fd == I32_MAX then fd else fd + 1
  }
}
