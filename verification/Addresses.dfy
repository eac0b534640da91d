// Virtual addresses and page-table words: the four indices of an address, and the
// shift-and-mask form of an entry.
module Addresses {
  import PageTables

  const PAGE := 0x1000
  const PAGES := 0x10_0000_0000           // pages of the 48-bit space a walk can tell apart

  // PML4, PDPT, PD and PT index: nine bits each, from bit 39 down.
  function PathOf(va: nat): (p: seq<nat>)
    ensures PageTables.IsPath(p)
  {
    [va / 0x80_0000_0000 % 512, va / 0x4000_0000 % 512, va / 0x20_0000 % 512, va / 0x1000 % 512]
  }

  lemma ShiftNine(va: nat)
    ensures va / 0x1000 / 512 == va / 0x20_0000
    ensures va / 0x20_0000 / 512 == va / 0x4000_0000
    ensures va / 0x4000_0000 / 512 == va / 0x80_0000_0000
  {
  }

  // The page number of an address in base 512 is its path.
  lemma PathDigits(va: nat)
    ensures var p := PathOf(va); va / PAGE % PAGES == ((p[0] * 512 + p[1]) * 512 + p[2]) * 512 + p[3]
  {
    var x := va / PAGE;
    ShiftNine(va);
    Digits(x, x / 512, x / 512 / 512, x / 512 / 512 / 512);
  }

  lemma Digits(x: nat, x1: nat, x2: nat, x3: nat)
    requires x1 == x / 512 && x2 == x1 / 512 && x3 == x2 / 512
    ensures x % PAGES == ((x3 % 512 * 512 + x2 % 512) * 512 + x1 % 512) * 512 + x % 512
  {
    var r := ((x3 % 512 * 512 + x2 % 512) * 512 + x1 % 512) * 512 + x % 512;
    assert x == PAGES * (x3 / 512) + r;
  }

  // Two addresses take the same path exactly when they lie in the same page of the
  // 48 bits that translation looks at.
  lemma SamePathSamePage(a: nat, b: nat)
    ensures PathOf(a) == PathOf(b) <==> a / PAGE % PAGES == b / PAGE % PAGES
  {
    PathDigits(a);
    PathDigits(b);
    if a / PAGE % PAGES == b / PAGE % PAGES {
      DigitsUnique(PathOf(a), PathOf(b));
    }
  }

  lemma DigitsUnique(p: seq<nat>, q: seq<nat>)
    requires PageTables.IsPath(p) && PageTables.IsPath(q)
    requires ((p[0] * 512 + p[1]) * 512 + p[2]) * 512 + p[3] == ((q[0] * 512 + q[1]) * 512 + q[2]) * 512 + q[3]
    ensures p == q
  {
    assert p[3] == q[3];
    assert p[2] == q[2];
    assert p[1] == q[1];
  }

  // The words of a table: for an aligned frame address below 2^52 and eight bits of
  // flags, masking gives the frame address back and bit 0 is that of the flags.
  lemma EntryWord(address: bv64, flags: bv64)
    requires address & 0xFFF0_0000_0000_0FFF == 0 && flags < 0x100
    ensures (address | flags) & 0x000F_FFFF_FFFF_F000 == address
    ensures (address | flags) & 1 == flags & 1
  {
  }

  // The four masked shifts of an address say exactly what bits 47 to 12 are.
  lemma IndexWords(va: bv64, va': bv64)
    ensures (va >> 39) & 0x1FF == (va' >> 39) & 0x1FF && (va >> 30) & 0x1FF == (va' >> 30) & 0x1FF
            && (va >> 21) & 0x1FF == (va' >> 21) & 0x1FF && (va >> 12) & 0x1FF == (va' >> 12) & 0x1FF
            <==> va & 0x0000_FFFF_FFFF_F000 == va' & 0x0000_FFFF_FFFF_F000
  {
  }
}
