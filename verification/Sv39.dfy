/** The address translation that the hardware carries out (sections 4.3.2 and
    4.4 of the RISC-V Privileged Architecture, version 20211203), and that the
    tables the kernel keeps translate under it as its own walk says. */
module Sv39 {
  import opened PageTable

  /** A page fault, or a physical page with the low byte of its leaf entry. */
  datatype Translation = PageFault | Found(ppn: nat, perm: nat)

  /** VPN[level] of a virtual address. */
  function VpnField(va: nat, level: nat): nat {
    if level == 0 then va / 0x1000 % 512
    else if level == 1 then va / 0x20_0000 % 512
    else va / 0x4000_0000 % 512
  }

  /** Pages that a leaf at this level maps. */
  function Span(level: nat): (n: nat)
    ensures n > 0
  {
    if level == 0 then 1 else if level == 1 then 512 else 0x4_0000
  }

  /** Bits 53 to 10 */
  function PpnField(pte: nat): nat { pte / 1024 % 0x1000_0000_0000 }

  /** Steps 2 to 8 of the process, at the table in frame `table`. */
  function Walk(t: Tables, table: nat, va: nat, level: nat): Translation
    decreases level
  {
    var pte := WordAt(t, table, VpnField(va, level));
    var v, r, w, x := pte % 2, pte / 2 % 2, pte / 4 % 2, pte / 8 % 2;
    if v == 0 || (r == 0 && w == 1) || pte >= 0x40_0000_0000_0000 then PageFault  // invalid, or reserved bits set
    else if r == 1 || x == 1 then
      if PpnField(pte) % Span(level) != 0 then PageFault  // a misaligned superpage
      else Found(PpnField(pte) + va / 4096 % Span(level), pte % 256)
    else if level == 0 then PageFault
    else Walk(t, PpnField(pte), va, level - 1)
  }

  /** Bits 63 to 39 of an address equal bit 38. */
  predicate CanonicalAddress(va: nat) { va < 0x40_0000_0000 || 0xffff_ffc0_0000_0000 <= va < 0x1_0000_0000_0000_0000 }

  function Translate(t: Tables, root: nat, va: nat): Translation {
    if CanonicalAddress(va) then Walk(t, root, va, 2) else PageFault
  }

  /** Entries that the hardware takes for a page: readable, or for fetching only. */
  predicate IsPage(e: nat) { e / 2 % 2 == 1 || (e / 8 % 2 == 1 && e / 4 % 2 == 0) }

  lemma IsPagePerm(e: nat)
    ensures IsPage(e) <==> IsPage(Perm(e))
  {
    LowBits(e / 256, e % 256);
  }

  lemma LowBits(q: nat, p: nat)
    ensures var e := 256 * q + p;
            e / 2 % 2 == p / 2 % 2 && e / 4 % 2 == p / 4 % 2 && e / 8 % 2 == p / 8 % 2
  {
    SameParity(64 * q, p / 2);
    SameParity(32 * q, p / 4);
    SameParity(16 * q, p / 8);
  }

  lemma SameParity(k: nat, x: nat)
    ensures (2 * k + x) % 2 == x % 2
  {
  }

  /** A word that holds a page number and V alone leads to the next table. */
  lemma PointerStep(t: Tables, table: nat, va: nat, level: nat, c: nat)
    requires 1 <= level <= 2 && c < PPN_LIMIT && WordAt(t, table, VpnField(va, level)) == MakePte(c, PTE_V)
    ensures Walk(t, table, va, level) == Walk(t, c, va, level - 1)
  {
    PointerBits(c);
  }

  lemma PointerBits(c: nat)
    requires c < PPN_LIMIT
    ensures var pte := MakePte(c, PTE_V);
            && pte % 2 == 1 && pte / 2 % 2 == 0 && pte / 4 % 2 == 0 && pte / 8 % 2 == 0
            && pte < PTE_LIMIT && PpnField(pte) == c
  {
  }

  lemma InvalidStep(t: Tables, table: nat, va: nat, level: nat)
    requires !IsValid(WordAt(t, table, VpnField(va, level)))
    ensures Walk(t, table, va, level) == PageFault
  {
  }

  lemma LeafStep(t: Tables, table: nat, va: nat)
    requires WordAt(t, table, VpnField(va, 0)) < 0x40_0000_0000_0000
    ensures var e := WordAt(t, table, VpnField(va, 0));
            Walk(t, table, va, 0) == if IsValid(e) && IsPage(e) then Found(Ppn(e), Perm(e)) else PageFault
  {
    var e := WordAt(t, table, VpnField(va, 0));
    assert e / 1024 < 0x1000_0000_0000;
  }

  /** In well-formed tables the hardware finds exactly the page of the kernel's
      entry, with its permissions, and faults exactly where there is no valid
      entry or one that is no page. */
  lemma WalkIsEntry(t: Tables, owner: map<nat, Label>, kernel: nat, r: nat, va: nat)
    requires Wf(t, owner, kernel) && IsRoot(owner, r) && forall f :: f in owner ==> f < PPN_LIMIT
    ensures var e := Entry(t, r, Vpn(va));
            Walk(t, r, va, 2) == if IsValid(e) && IsPage(e) then Found(Ppn(e), Perm(e)) else PageFault
  {
    var v := Vpn(va);
    VpnParts(va);
    WalkLabels(t, owner, kernel, r, v);
    var e2 := WordAt(t, r, Index2(v));
    if !IsValid(e2) {
      InvalidStep(t, r, va, 2);
    } else {
      WalkWords(t, owner, kernel, r, v);
      PointerStep(t, r, va, 2, Ppn(e2));
      var e1 := WordAt(t, Ppn(e2), Index1(v));
      if !IsValid(e1) {
        InvalidStep(t, Ppn(e2), va, 1);
      } else {
        PointerStep(t, Ppn(e2), va, 1, Ppn(e1));
        if IsValid(WordAt(t, Ppn(e1), Index0(v))) {
          LeafStep(t, Ppn(e1), va);
        } else {
          InvalidStep(t, Ppn(e1), va, 0);
        }
      }
    }
  }
}
