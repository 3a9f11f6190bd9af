/** What the bootloader hands over, as the Multiboot2 parser extracts it. */
module BootData {
  import opened Bits
  import opened Wrappers

  type byte = x: int | 0 <= x < 0x100
  type u32 = x: nat | x < 0x1_0000_0000

  /** One entry of the firmware memory map. */
  datatype MmapEntry = MmapEntry(base: u64, length: u64, memType: u32)

  datatype FramebufferInfo = FramebufferInfo(address: u64, pitch: u32, width: u32, height: u32,
                                             bpp: byte, fbType: byte, size: u64)

  datatype BootInfo = BootInfo(
    totalSize: nat,
    cmdline: Option<seq<byte>>,
    loaderName: Option<seq<byte>>,
    mmap: seq<MmapEntry>,
    framebuffer: Option<FramebufferInfo>,
    acpiRsdp: Option<nat>,
    acpiVersion: nat,
    loadBaseAddr: Option<u32>,
    tagCount: nat,
    physAddr: nat)

  const AVAILABLE: u32 := 1
  const BAD_RAM: u32 := 4
  const EGA_TEXT: byte := 2
}
