/**
 Address translation as the processor performs it: 4-level paging, section 4.5 of
 volume 3A of the Intel 64 and IA-32 Architectures Software Developer's Manual.
 A virtual page number has 36 bits; the walk starts at the PML4 (level 4).
 */
module Translation {
  import opened Options
  import opened PhysicalMemory
  import opened Radix

  /** Pages of KERNEL_MAPPING and PAGE_OFFSET in the 48-bit address space. */
  const KERNEL_PAGE: nat := 0x8_0000_0000
  const DIRECT_PAGE: nat := 0x8_0600_0000

  /** Where a page is mapped and what the conjunction of the path's R/W and U/S bits allows. */
  datatype Mapping = Mapping(frame: nat, rw: bool, us: bool)

  /** Entries of levels 2 and 3 with PS set map a 2 MB or 1 GB page. */
  predicate Large(level: nat, e: Word)
  {
    (level == 2 || level == 3) && e.ps
  }

  function Restrict(m: Option<Mapping>, e: Word): Option<Mapping>
  {
    match m
    case None => None
    case Some(x) => Some(Mapping(x.frame, x.rw && e.rw, x.us && e.us))
  }

  /** Translation of page v by the table in frame t at the given level. */
  function Walk(mem: Memory, t: nat, level: nat, v: nat): Option<Mapping>
    requires 1 <= level
    decreases level
  {
    var e := Load(mem, t, Part(v, level));
    if !e.p then None
    else if level == 1 then Some(Mapping(e.frame, e.rw, e.us))
    else if Large(level, e) then
      Galois(v, Prefix(v, level - 1), level - 1);
      Some(Mapping(e.frame + (v - First(Prefix(v, level - 1), level - 1)), e.rw, e.us))
    else Restrict(Walk(mem, e.frame, level - 1, v), e)
  }
}
