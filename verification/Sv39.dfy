/** Sv39 address translation, as the RISC-V Privileged Architecture v1.12 defines it.

This is the reference the page-table code is proved against.  It follows
sections 4.3.2 and 4.4 and shares nothing with the kernel's own helpers: every
field is written as a quotient and a remainder, none as a mask and a shift.  The
accessed and dirty bits of a leaf do not influence the result here.
*/
module Sv39 {
  import opened Bits64

  /** Physical memory seen as page tables: page address to its 512 entries. */
  type Ram = m: map<u64, seq<u64>> | forall p :: p in m ==> |m[p]| == 512

  /** Sv39 addresses repeat bit 38 in every higher bit. */
  predicate Canonical(va: u64) {
    va < 0x40_0000_0000 || va >= 0xffff_ffc0_0000_0000
  }

  /** Number of bytes translated by a leaf found at level i. */
  function Span(i: nat): (r: nat)
    requires i <= 2
    ensures r > 0
  {
    if i == 0 then 0x1000 else if i == 1 then 0x20_0000 else 0x4000_0000
  }

  /** va.vpn[i] */
  function Vpn(va: u64, i: nat): (r: nat)
    requires i <= 2
    ensures r < 512
  {
    if i == 0 then va / 0x1000 % 512
    else if i == 1 then va / 0x20_0000 % 512
    else va / 0x4000_0000 % 512
  }

  predicate BitV(pte: u64) { pte % 2 == 1 }
  predicate BitR(pte: u64) { pte / 2 % 2 == 1 }
  predicate BitW(pte: u64) { pte / 4 % 2 == 1 }
  predicate BitX(pte: u64) { pte / 8 % 2 == 1 }
  predicate BitU(pte: u64) { pte / 16 % 2 == 1 }
  predicate BitA(pte: u64) { pte / 64 % 2 == 1 }
  predicate BitD(pte: u64) { pte / 128 % 2 == 1 }

  /** pte.ppn: bits 10 to 53. */
  function Ppn(pte: u64): (r: nat)
    ensures r < 0x1000_0000_0000
  {
    pte / 1024 % 0x1000_0000_0000
  }

  /** Bits 54 to 63 of every entry are reserved. */
  predicate ReservedHigh(pte: u64) {
    pte / 0x40_0000_0000_0000 != 0
  }

  datatype Access = Access(read: bool, write: bool, execute: bool, user: bool)

  datatype Translation = PageFault | Physical(pa: u64, access: Access)

  function AccessOf(pte: u64): Access {
    Access(BitR(pte), BitW(pte), BitX(pte), BitU(pte))
  }

  /** Steps 5 to 8 of the algorithm: what a leaf entry found at level i means. */
  function LeafTranslation(pte: u64, va: u64, i: nat): Translation
    requires i <= 2
  {
    if Ppn(pte) * 4096 % Span(i) != 0 then PageFault
    else Physical(Ppn(pte) * 4096 + va % Span(i), AccessOf(pte))
  }

  /** Steps 2 to 4, at the table with address a, on level i. */
  function Walk(ram: Ram, a: u64, va: u64, i: nat): Translation
    requires i <= 2
    decreases i
  {
    if a !in ram then PageFault
    else
      var pte := ram[a][Vpn(va, i)];
      if !BitV(pte) || (!BitR(pte) && BitW(pte)) || ReservedHigh(pte) then PageFault
      else if BitR(pte) || BitX(pte) then LeafTranslation(pte, va, i)
      else if i == 0 || BitD(pte) || BitA(pte) || BitU(pte) then PageFault
      else Walk(ram, Ppn(pte) * 4096, va, i - 1)
  }

  /** The translation of va by the page tables rooted at the physical page root. */
  function Translate(ram: Ram, root: u64, va: u64): Translation {
    if Canonical(va) then Walk(ram, root, va, 2) else PageFault
  }

  /** The bytes of one 4 KiB page. */
  predicate SamePage(v: u64, w: u64) {
    v / 4096 == w / 4096
  }

  /** The three indices of v and w agree. */
  predicate SameVpns(v: u64, w: u64) {
    Vpn(v, 2) == Vpn(w, 2) && Vpn(v, 1) == Vpn(w, 1) && Vpn(v, 0) == Vpn(w, 0)
  }

  /** On canonical addresses the three indices determine the page. */
  lemma VpnsDeterminePage(v: u64, w: u64)
    requires Canonical(v) && Canonical(w)
    ensures SamePage(v, w) <==> SameVpns(v, w)
  {
    PageOfVpns(v);
    PageOfVpns(w);
    VpnsOfPage(v);
    VpnsOfPage(w);
  }

  lemma VpnsOfPage(v: u64)
    ensures Vpn(v, 0) == v / 4096 % 512
    ensures Vpn(v, 1) == v / 4096 / 512 % 512
    ensures Vpn(v, 2) == v / 4096 / 0x4_0000 % 512
  {
    assert v / 0x20_0000 == v / 4096 / 512;
    assert v / 0x4000_0000 == v / 4096 / 0x4_0000;
  }

  /** A canonical address is its 27-bit page number, sign-extended. */
  lemma PageOfVpns(v: u64)
    requires Canonical(v)
    ensures v / 4096 == Vpn(v, 2) * 0x4_0000 + Vpn(v, 1) * 512 + Vpn(v, 0)
                        + (if Vpn(v, 2) >= 256 then 0xf_ffff_f800_0000 else 0)
  {
    VpnsOfPage(v);
    PageDigits(v / 4096);
  }

  /** Three base-512 digits and the sign extension give the page number back. */
  lemma PageDigits(p: int)
    requires 0 <= p < 0x400_0000 || 0xf_ffff_fc00_0000 <= p < 0x10_0000_0000_0000
    ensures p == p / 0x4_0000 % 512 * 0x4_0000 + p / 512 % 512 * 512 + p % 512
                 + (if p / 0x4_0000 % 512 >= 256 then 0xf_ffff_f800_0000 else 0)
  {
    var a := p / 512;
    var b := a / 512;
    DivModUnique(p, 0x4_0000, b, a % 512 * 512 + p % 512);
    if p < 0x400_0000 {
      DivModUnique(b, 512, 0, b);
    } else {
      DivModUnique(b, 512, 0x1ff_ffff, b - 0x3_ffff_fe00);
    }
  }
}
