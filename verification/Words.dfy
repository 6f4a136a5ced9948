/** 32-bit words, page arithmetic and the address-space constants of the kernel. */
module Words {
  const PAGE_SIZE := 0x1000
  const PAGE_COUNT := 0x10_0000          // pages in the 32-bit address space
  const PAGE_TABLES_BASE := 0x10_0000
  const PAGE_TABLE_COUNT := 1024
  const BITMAP_BASE := 0x50_0000
  const KERNEL_VMA := 0xC000_0000
  const HIGHEST_USABLE_ADDR := 0xFFFF_FFFF
  const PRESENT_WRITE := 3               // PG_PRESENT | PG_WRITE

  type u8 = x: int | 0 <= x < 0x100
  type u32 = x: int | 0 <= x < 0x1_0000_0000
  type u64 = x: int | 0 <= x < 0x1_0000_0000_0000_0000

  /** 32-bit unsigned addition. */
  function Add32(x: u32, y: u32): u32 {
    if x + y < 0x1_0000_0000 then x + y else x + y - 0x1_0000_0000
  }

  function Add64(x: u64, y: u64): u64 {
    if x + y < 0x1_0000_0000_0000_0000 then x + y else x + y - 0x1_0000_0000_0000_0000
  }

  lemma AdditionWraps(x: u32, y: u32, p: u64, q: u64)
    ensures Add32(x, y) == (x + y) % 0x1_0000_0000
    ensures Add64(p, q) == (p + q) % 0x1_0000_0000_0000_0000
  {
  }

  /** The page (or frame) number of an address. */
  function PageOf(addr: u32): (page: nat)
    ensures page < PAGE_COUNT && page * PAGE_SIZE <= addr < page * PAGE_SIZE + PAGE_SIZE
  {
    addr / PAGE_SIZE
  }

  lemma PageStart(addr: u32, page: nat)
    requires addr == page * PAGE_SIZE
    ensures PageOf(addr) == page
  {
  }

  /** `x & ~0xFFF` */
  function AlignDown(x: u32): u32 {
    PageOf(x) * PAGE_SIZE
  }

  /** `(x + 0xFFF) & ~0xFFF`; the sum wraps when `x` exceeds 0xFFFFF000. */
  function AlignUp(x: u32): (r: u32)
    ensures x <= 0xFFFF_F000 ==> x <= r < x + PAGE_SIZE
    ensures x > 0xFFFF_F000 ==> r == 0
    ensures r % PAGE_SIZE == 0
  {
    AlignDown(Add32(x, 0xFFF))
  }

  function Clamp(x: u64): (r: u32)
    ensures x <= HIGHEST_USABLE_ADDR ==> r as int == x
    ensures x > HIGHEST_USABLE_ADDR ==> r == 0xFFFF_FFFF
  {
    if x > HIGHEST_USABLE_ADDR then HIGHEST_USABLE_ADDR else x
  }

  /** The page-table entry `addr | PG_PRESENT | PG_WRITE` for the address of a frame. */
  function Entry(frame: nat): (e: u32)
    requires frame < PAGE_COUNT
    ensures Present(e) && FrameOf(e) == frame && e != 0
  {
    frame * PAGE_SIZE + PRESENT_WRITE
  }

  /** `entry & PG_PRESENT` */
  predicate Present(entry: u32) {
    entry % 2 == 1
  }

  /** The number of the frame a page-table entry points to. */
  function FrameOf(entry: u32): (frame: nat)
    ensures frame < PAGE_COUNT
  {
    PageOf(entry)
  }

  /** How many pages a loop over `[start, end)`, both rounded out to pages, walks through. */
  function PageSpan(start: u32, end: u32): (n: nat)
    ensures PageOf(start) + n <= PAGE_COUNT
  {
    if AlignDown(start) < AlignUp(end) then PageOf(AlignUp(end)) - PageOf(start) else 0
  }

  predicate Covers(start: u32, end: u32, page: nat) {
    PageOf(start) <= page < PageOf(start) + PageSpan(start, end)
  }

  /** The pages walked are those that meet `[start, end)`, unless rounding `end` up wraps: then there are none. */
  lemma CoversMeaning(start: u32, end: u32, page: nat)
    ensures Covers(start, end, page) <==>
      end <= 0xFFFF_F000 && start - PAGE_SIZE < page * PAGE_SIZE < end && AlignDown(start) < end
  {
  }
}
