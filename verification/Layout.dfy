/**
 The kernel's virtual address map (include/core/mem/vmm.h).
 */
module Layout {

  const USER_END := 0x7FFF_FFFF_F000
  const HHDM_START := 0xFFFF_8000_0000_0000
  const MMIO_START := 0xFFFF_8800_0000_0000
  const HEAP_START := 0xFFFF_9000_0000_0000
  const HEAP_END := 0xFFFF_B000_0000_0000
  const KERN_START := 0xFFFF_FFFF_8000_0000
}
