/** Sv39 page tables (section 4.4 of the RISC-V Privileged Architecture,
    version 20211203) held in physical frames, as the kernel walks them, and
    the flat map they implement. Frames are named by physical page number. */
module PageTable {
  import opened Bits

  const PTE_V: nat := 1
  const PTE_R: nat := 2
  const PTE_W: nat := 4
  const PTE_X: nat := 8
  const PTE_U: nat := 16

  const VPNS: nat := 0x800_0000       // 2^27 virtual pages
  const USER_VPNS: nat := 0x400_0000  // those below USER_END = 2^38
  const PPN_LIMIT: nat := 0x1000_0000_0000  // 2^44: physical addresses stay below 2^56
  const PTE_LIMIT: nat := 0x40_0000_0000_0000  // 2^54: the bits above are reserved

  // ----------------------------------------------------------- entries

  predicate IsValid(e: nat) { e % 2 == 1 }

  predicate Writable(e: nat) { e / 4 % 2 == 1 }

  /** The permission byte, entry & 0xff */
  function Perm(e: nat): nat { e % 256 }

  /** Page number of (entry >> 10) << 12, the shift dropping bits above 63 */
  function Ppn(e: nat): nat { e / 1024 % 0x10_0000_0000_0000 }

  /** ((pa >> 12) << 10) | perm, for the page number pa >> 12 */
  function MakePte(ppn: nat, perm: nat): nat { ppn * 1024 + perm }

  /** entry & ~(1 << 2) */
  function ClearW(e: nat): nat { if Writable(e) then e - 4 else e }

  /** entry | (1 << 2) */
  function SetW(e: nat): nat { if Writable(e) then e else e + 4 }

  // The arithmetic above is the kernel's bit arithmetic.

  lemma EncodeBits(ppn: nat, perm: nat)
    requires perm < 256
    ensures Or(ppn * Pow2(10), perm) == MakePte(ppn, perm) && 1024 == Pow2(10)
  {
    assert Pow2(10) == 1024;
    OrDisjoint(ppn, 10, perm);
  }

  lemma PermBits(e: nat)
    ensures And(e, 0xff) == Perm(e)
  {
    assert Pow2(8) == 256;
    AndMask(e, 8);
  }

  lemma FlagBits(e: nat)
    ensures And(e, PTE_V) == if IsValid(e) then PTE_V else 0
    ensures And(e, PTE_W) == if Writable(e) then PTE_W else 0
    ensures AndNot(e, PTE_W) == ClearW(e) && Or(e, PTE_W) == SetW(e)
  {
    AndMask(e, 1);
    BitTwo(e);
  }

  /** The page that (entry >> 10) << 12 is the address of. */
  function Decoded(e: nat): nat { Shr(e, 10) * Pow2(12) % TWO64 / 4096 }

  lemma DecodeBits(e: nat)
    ensures Decoded(e) == Ppn(e) && Shr(e, 10) * Pow2(12) % TWO64 % 4096 == 0
  {
    ShiftTen(e);
    assert Pow2(12) == 4096;
    var q, r := e / 1024 / 0x10_0000_0000_0000, Ppn(e);
    DivModUnique(Shr(e, 10) * 4096, TWO64, q, r * 4096);
  }

  lemma ShiftTen(e: nat)
    ensures Shr(e, 10) == e / 1024
  {
    assert Pow2(10) == 1024;
    ShrQuotient(e, 10, e / 1024);
    ShrQuotient(e, 10, e / 1024 + 1);
  }

  /** Decoding an encoded entry gives back the page and the permission byte. */
  lemma PteRoundTrip(ppn: nat, perm: nat)
    requires ppn < PPN_LIMIT && perm < 256
    ensures Ppn(MakePte(ppn, perm)) == ppn && Perm(MakePte(ppn, perm)) == perm
    ensures IsValid(MakePte(ppn, perm)) <==> perm % 2 == 1
    ensures Writable(MakePte(ppn, perm)) <==> perm / 4 % 2 == 1
    ensures ClearW(MakePte(ppn, perm)) == MakePte(ppn, ClearW(perm)) && ClearW(perm) < 256
    ensures SetW(MakePte(ppn, perm)) == MakePte(ppn, SetW(perm)) && SetW(perm) < 256
  {
    PermByte(ppn, perm);
    PpnField(ppn, perm);
    ClearSet(perm);
  }

  lemma PpnField(ppn: nat, perm: nat)
    requires ppn < PPN_LIMIT && perm < 256
    ensures Ppn(MakePte(ppn, perm)) == ppn
  {
    DivModUnique(MakePte(ppn, perm), 1024, ppn, perm);
  }

  lemma PermByte(ppn: nat, perm: nat)
    requires perm < 256
    ensures Perm(MakePte(ppn, perm)) == perm
    ensures IsValid(MakePte(ppn, perm)) <==> IsValid(perm)
    ensures Writable(MakePte(ppn, perm)) <==> Writable(perm)
  {
    DivModUnique(MakePte(ppn, perm), 256, ppn * 4, perm);
    DivModUnique(MakePte(ppn, perm), 2, ppn * 512 + perm / 2, perm % 2);
    DivModUnique(MakePte(ppn, perm), 4, ppn * 256 + perm / 4, perm % 4);
  }

  /** Clearing and setting the write bit keeps a byte a byte and leaves its
      lowest bit alone. */
  lemma ClearSet(perm: nat)
    requires perm < 256
    ensures ClearW(perm) < 256 && SetW(perm) < 256
    ensures ClearW(perm) % 2 == perm % 2 == SetW(perm) % 2
  {
    var q := perm / 4;
    assert q < 64;
    assert q % 2 == 0 ==> q <= 62;
  }

  // ----------------------------------------------------------- virtual addresses

  function Vpn(va: nat): nat { va / 4096 % VPNS }

  function Index2(v: nat): (i: nat)
    requires v < VPNS
    ensures i < 512
  {
    v / 0x4_0000
  }

  function Index1(v: nat): (i: nat)
    ensures i < 512
  {
    v / 512 % 512
  }

  function Index0(v: nat): (i: nat)
    ensures i < 512
  {
    v % 512
  }

  lemma VpnParts(va: nat)
    ensures va / 0x4000_0000 % 512 == Index2(Vpn(va))
    ensures va / 0x20_0000 % 512 == Index1(Vpn(va))
    ensures va / 0x1000 % 512 == Index0(Vpn(va))
  {
    var p := va / 4096;
    assert va / 0x4000_0000 == p / 0x4_0000;
    assert va / 0x20_0000 == p / 512;
    PageParts(p);
  }

  lemma PageParts(p: nat)
    ensures p / 0x4_0000 % 512 == Index2(p % VPNS)
    ensures p / 512 % 512 == Index1(p % VPNS)
    ensures p % 512 == Index0(p % VPNS)
  {
    var q, v := p / VPNS, p % VPNS;
    assert p == q * 512 * 0x4_0000 + v;
    DivModUnique(p, 0x4_0000, q * 512 + v / 0x4_0000, v % 0x4_0000);
    DivModUnique(p, 512, q * 0x4_0000 + v / 512, v % 512);
    DivModUnique(q * 512 + v / 0x4_0000, 512, q, v / 0x4_0000);
    DivModUnique(q * 0x4_0000 + v / 512, 512, q * 512 + v / 512 / 512, v / 512 % 512);
  }

  lemma MaskNine(x: nat)
    ensures And(x, 0x1ff) == x % 512
  {
    assert Pow2(9) == 512;
    AndMask(x, 9);
  }

  /** The three shifted and masked indices of the walkers, and the page number
      that puts them together. */
  lemma VaIndices(va: nat)
    ensures And(va / 0x4000_0000, 0x1ff) == Index2(Vpn(va))
    ensures And(va / 0x20_0000, 0x1ff) == Index1(Vpn(va))
    ensures And(va / 0x1000, 0x1ff) == Index0(Vpn(va))
    ensures 0x4000_0000 == Pow2(30) && 0x20_0000 == Pow2(21) && 0x1000 == Pow2(12)
  {
    VpnParts(va);
    MaskNine(va / 0x4000_0000);
    MaskNine(va / 0x20_0000);
    MaskNine(va / 0x1000);
    assert Pow2(9) == 512 && Pow2(12) == 0x1000;
    Pow2Add(12, 9);
    Pow2Add(21, 9);
  }

  lemma IndicesDetermine(v: nat, w: nat)
    requires v < VPNS && w < VPNS
    requires Index2(v) == Index2(w) && Index1(v) == Index1(w) && Index0(v) == Index0(w)
    ensures v == w
  {
  }

  // ----------------------------------------------------------- tables in frames

  /** Written table frames. A frame never written since boot reads as zero. */
  type Tables = map<nat, seq<nat>>

  function WordAt(t: Tables, f: nat, i: nat): nat {
    if f in t && i < |t[f]| then t[f][i] else 0
  }

  function SetWord(t: Tables, f: nat, i: nat, e: nat): Tables
    requires i < 512
  {
    t[f := (if f in t && |t[f]| == 512 then t[f] else seq(512, _ => 0))[i := e]]
  }

  lemma SetWordAt(t: Tables, f: nat, i: nat, e: nat, g: nat, j: nat)
    requires i < 512 && j < 512 && (f in t ==> |t[f]| == 512)
    ensures WordAt(SetWord(t, f, i, e), g, j) == if g == f && j == i then e else WordAt(t, g, j)
  {
  }

  /** The leaf entry of page v under root r; 0 when an upper level is missing. */
  function Entry(t: Tables, r: nat, v: nat): nat
    requires v < VPNS
  {
    var e2 := WordAt(t, r, Index2(v));
    if !IsValid(e2) then 0 else
    var e1 := WordAt(t, Ppn(e2), Index1(v));
    if !IsValid(e1) then 0 else WordAt(t, Ppn(e1), Index0(v))
  }

  /** Both upper levels of the walk to page v exist. */
  predicate HasLeaf(t: Tables, r: nat, v: nat)
    requires v < VPNS
  {
    var e2 := WordAt(t, r, Index2(v));
    IsValid(e2) && IsValid(WordAt(t, Ppn(e2), Index1(v)))
  }

  lemma EntryLeaf(t: Tables, r: nat, v: nat)
    requires v < VPNS && IsValid(Entry(t, r, v))
    ensures HasLeaf(t, r, v)
  {
  }

  /** Pages under one leaf table have the same upper indices. */
  lemma SameLeaf(v: nat, k: nat)
    requires v < VPNS
    ensures Index0((v + k + 1) % VPNS) == 0 <==> (Index0(v) + k + 1) % 512 == 0
    ensures Index0((v + k + 1) % VPNS) != 0 ==>
              && Index2((v + k + 1) % VPNS) == Index2((v + k) % VPNS)
              && Index1((v + k + 1) % VPNS) == Index1((v + k) % VPNS)
  {
    LowIndex(v, k + 1);
    NextPage((v + k) % VPNS, (v + k + 1) % VPNS);
  }

  lemma NextPage(u: nat, w: nat)
    requires u < VPNS && w == if u + 1 == VPNS then 0 else u + 1
    ensures Index0(w) != 0 ==> Index2(w) == Index2(u) && Index1(w) == Index1(u)
  {
    if Index0(w) != 0 {
      DivModUnique(w, 512, u / 512, u % 512 + 1);
      DivModUnique(w, 0x4_0000, u / 0x4_0000, u % 0x4_0000 + 1);
    }
  }

  lemma LowIndex(v: nat, k: nat)
    ensures Index0((v + k) % VPNS) == (Index0(v) + k) % 512
  {
    var q, u := (v + k) / VPNS, (v + k) % VPNS;
    assert v + k == q * VPNS + u;
    DivModUnique(v + k, 512, q * 0x4_0000 + u / 512, u % 512);
    DivModUnique(v + k, 512, v / 512 + (Index0(v) + k) / 512, (Index0(v) + k) % 512);
  }

  /** What check_load returns. */
  function Loaded(t: Tables, r: nat, va: nat): nat {
    var e := Entry(t, r, Vpn(va));
    if IsValid(e) then Perm(e) else 0
  }

  // ----------------------------------------------------------- separation

  /** The one slot a table frame hangs from: the whole kernel half belongs to
      the kernel's root, whichever task's root it is reached through. */
  datatype Label = Root | Mid(space: nat, i2: nat) | Leaf(space: nat, i2: nat, i1: nat)

  function Space(kernel: nat, r: nat, i2: nat): nat {
    if i2 < 256 then r else kernel
  }

  /** Valid word e in slot i of frame f: on the upper levels the page number of
      the next table and V, no other bit; in a leaf table no reserved bit. */
  ghost predicate ChildOk(owner: map<nat, Label>, kernel: nat, f: nat, i: nat, e: nat)
    requires f in owner
  {
    var c := Ppn(e);
    match owner[f]
    case Root => e == MakePte(c, PTE_V) && c in owner && owner[c] == Mid(Space(kernel, f, i), i)
    case Mid(s, j) => e == MakePte(c, PTE_V) && c in owner && owner[c] == Leaf(s, j, i)
    case Leaf(_, _, _) => e < PTE_LIMIT
  }

  /** Every valid upper-level entry leads to the frame labelled with its own
      slot, so no two slots share a table; kernel halves of all roots agree. */
  ghost predicate Wf(t: Tables, owner: map<nat, Label>, kernel: nat) {
    && (forall f :: f in t ==> f in owner && |t[f]| == 512)
    && kernel in owner && owner[kernel] == Root
    && (forall f, i: nat :: f in owner && i < 512 && IsValid(WordAt(t, f, i))
          ==> ChildOk(owner, kernel, f, i, WordAt(t, f, i)))
    && (forall r, i: nat :: r in owner && owner[r] == Root && 256 <= i < 512
          ==> WordAt(t, r, i) == WordAt(t, kernel, i))
  }

  predicate IsRoot(owner: map<nat, Label>, r: nat) {
    r in owner && owner[r] == Root
  }

  /** Page v of root r and of root q is one and the same slot. */
  predicate SamePage(r: nat, q: nat, v: nat) {
    r == q || v >= USER_VPNS
  }

  /** The table frames a walk passes carry the labels of the path. */
  lemma WalkLabels(t: Tables, owner: map<nat, Label>, kernel: nat, r: nat, v: nat)
    requires Wf(t, owner, kernel) && IsRoot(owner, r) && v < VPNS
    ensures var e2 := WordAt(t, r, Index2(v));
            IsValid(e2) ==>
              var s := Space(kernel, r, Index2(v));
              && Ppn(e2) in owner && owner[Ppn(e2)] == Mid(s, Index2(v))
              && var e1 := WordAt(t, Ppn(e2), Index1(v));
              (IsValid(e1) ==> Ppn(e1) in owner && owner[Ppn(e1)] == Leaf(s, Index2(v), Index1(v)))
  {
    var e2 := WordAt(t, r, Index2(v));
    if IsValid(e2) {
      assert ChildOk(owner, kernel, r, Index2(v), e2);
      var e1 := WordAt(t, Ppn(e2), Index1(v));
      if IsValid(e1) {
        assert ChildOk(owner, kernel, Ppn(e2), Index1(v), e1);
      }
    }
  }

  /** Of the low ten bits of a valid upper-level word V alone is set. */
  lemma UpperWord(t: Tables, owner: map<nat, Label>, kernel: nat, f: nat, i: nat)
    requires Wf(t, owner, kernel) && f in owner && !owner[f].Leaf? && i < 512 && IsValid(WordAt(t, f, i))
    ensures WordAt(t, f, i) % 1024 == 1
  {
    var e := WordAt(t, f, i);
    assert ChildOk(owner, kernel, f, i, e);
    assert e == MakePte(Ppn(e), PTE_V);
    LowBitsOf(Ppn(e));
  }

  lemma LowBitsOf(ppn: nat)
    ensures MakePte(ppn, PTE_V) % 1024 == 1
  {
  }

  /** The words on the way hold a page number and V alone. */
  lemma WalkWords(t: Tables, owner: map<nat, Label>, kernel: nat, r: nat, v: nat)
    requires Wf(t, owner, kernel) && IsRoot(owner, r) && v < VPNS && IsValid(WordAt(t, r, Index2(v)))
    ensures var e2 := WordAt(t, r, Index2(v));
            && e2 == MakePte(Ppn(e2), PTE_V)
            && var e1 := WordAt(t, Ppn(e2), Index1(v));
            (IsValid(e1) ==>
              && e1 == MakePte(Ppn(e1), PTE_V)
              && var e := WordAt(t, Ppn(e1), Index0(v));
              (IsValid(e) ==> e < PTE_LIMIT))
  {
    WalkLabels(t, owner, kernel, r, v);
    var e2 := WordAt(t, r, Index2(v));
    var e1 := WordAt(t, Ppn(e2), Index1(v));
    assert ChildOk(owner, kernel, r, Index2(v), e2);
    if IsValid(e1) {
      assert ChildOk(owner, kernel, Ppn(e2), Index1(v), e1);
      var e := WordAt(t, Ppn(e1), Index0(v));
      if IsValid(e) { assert ChildOk(owner, kernel, Ppn(e1), Index0(v), e); }
    }
  }

  /** A leaf entry has no reserved bit, nor has it with its write bit changed. */
  lemma EntryLimit(t: Tables, owner: map<nat, Label>, kernel: nat, r: nat, v: nat)
    requires Wf(t, owner, kernel) && IsRoot(owner, r) && v < VPNS && IsValid(Entry(t, r, v))
    ensures ClearW(Entry(t, r, v)) < PTE_LIMIT && SetW(Entry(t, r, v)) < PTE_LIMIT
  {
    WalkWords(t, owner, kernel, r, v);
    SetWLimit(Entry(t, r, v));
  }

  lemma SetWLimit(e: nat)
    requires e < PTE_LIMIT
    ensures SetW(e) < PTE_LIMIT
  {
    var q := e / 4;
    assert q < 0x10_0000_0000_0000;
    assert q % 2 == 0 ==> q <= 0xf_ffff_ffff_fffe;
  }

  /** The table frames that the walk to page v under root r passes. */
  function Walked(t: Tables, r: nat, v: nat): set<nat>
    requires v < VPNS
  {
    var e2 := WordAt(t, r, Index2(v));
    if !IsValid(e2) then {} else
    var e1 := WordAt(t, Ppn(e2), Index1(v));
    if !IsValid(e1) then {Ppn(e2)} else {Ppn(e2), Ppn(e1)}
  }

  /** The user-half tables of two roots are disjoint, from each other and from
      all roots and kernel-half tables. */
  lemma UserTablesDisjoint(t: Tables, owner: map<nat, Label>, kernel: nat, r: nat, q: nat, v: nat, w: nat)
    requires Wf(t, owner, kernel) && IsRoot(owner, r) && IsRoot(owner, q) && r != q
    requires v < USER_VPNS && w < VPNS && (w >= USER_VPNS ==> r != kernel)
    ensures Walked(t, r, v) !! Walked(t, q, w)
    ensures forall f :: f in Walked(t, r, v) ==> !IsRoot(owner, f)
  {
    WalkLabels(t, owner, kernel, r, v);
    WalkLabels(t, owner, kernel, q, w);
  }

  /** Writing a leaf entry changes the translation of that page, in every root
      that owns or shares it, and nothing else. */
  lemma WriteLeaf(t: Tables, owner: map<nat, Label>, kernel: nat, r: nat, v: nat, e: nat)
    requires Wf(t, owner, kernel) && IsRoot(owner, r) && v < VPNS && e < PTE_LIMIT
    requires IsValid(WordAt(t, r, Index2(v)))
    requires IsValid(WordAt(t, Ppn(WordAt(t, r, Index2(v))), Index1(v)))
    ensures var leaf := Ppn(WordAt(t, Ppn(WordAt(t, r, Index2(v))), Index1(v)));
            var t' := SetWord(t, leaf, Index0(v), e);
            && Wf(t', owner, kernel)
            && forall q: nat, w: nat :: IsRoot(owner, q) && w < VPNS ==>
                 Entry(t', q, w) == if w == v && SamePage(q, r, v) then e else Entry(t, q, w)
  {
    WalkLabels(t, owner, kernel, r, v);
    var leaf := Ppn(WordAt(t, Ppn(WordAt(t, r, Index2(v))), Index1(v)));
    var t' := SetWord(t, leaf, Index0(v), e);
    assert owner[leaf] == Leaf(Space(kernel, r, Index2(v)), Index2(v), Index1(v));
    forall g, j: nat | j < 512
      ensures WordAt(t', g, j) == if g == leaf && j == Index0(v) then e else WordAt(t, g, j)
    {
      SetWordAt(t, leaf, Index0(v), e, g, j);
    }
    forall g, j: nat | g in owner && j < 512 && IsValid(WordAt(t', g, j))
      ensures ChildOk(owner, kernel, g, j, WordAt(t', g, j))
    {
      if g != leaf || j != Index0(v) { assert ChildOk(owner, kernel, g, j, WordAt(t, g, j)); }
    }
    forall q: nat, w: nat | IsRoot(owner, q) && w < VPNS
      ensures Entry(t', q, w) == if w == v && SamePage(q, r, v) then e else Entry(t, q, w)
    {
      WalkLabels(t, owner, kernel, q, w);
      if w == v && SamePage(q, r, v) {
        SharedWalk(t, owner, kernel, q, r, v);
      } else if Entry(t', q, w) != Entry(t, q, w) {
        IndicesDetermine(v, w);
      }
    }
  }

  /** Roots that share a page walk to it through the same leaf table. */
  lemma SharedWalk(t: Tables, owner: map<nat, Label>, kernel: nat, q: nat, r: nat, v: nat)
    requires Wf(t, owner, kernel) && IsRoot(owner, q) && IsRoot(owner, r) && v < VPNS && SamePage(q, r, v)
    ensures WordAt(t, q, Index2(v)) == WordAt(t, r, Index2(v))
  {
    if q != r {
      assert WordAt(t, q, Index2(v)) == WordAt(t, kernel, Index2(v)) == WordAt(t, r, Index2(v));
    }
  }

  ghost predicate SameEntries(t: Tables, t': Tables, owner: map<nat, Label>) {
    forall q: nat, w: nat :: IsRoot(owner, q) && w < VPNS ==> Entry(t', q, w) == Entry(t, q, w)
  }

  ghost predicate RootsKept(owner: map<nat, Label>, owner': map<nat, Label>) {
    forall q :: IsRoot(owner, q) ==> IsRoot(owner', q)
  }

  ghost predicate OneWord(t: Tables, t': Tables, f: nat, i: nat, e: nat) {
    forall g, j: nat :: j < 512 ==> WordAt(t', g, j) == if g == f && j == i then e else WordAt(t, g, j)
  }

  /** Hanging a fresh, zero middle table into an empty root slot translates nothing. */
  lemma AddMid(t: Tables, owner: map<nat, Label>, kernel: nat, r: nat, i: nat, f: nat)
    requires Wf(t, owner, kernel) && IsRoot(owner, r) && i < 512 && f !in owner && f < PPN_LIMIT
    requires !IsValid(WordAt(t, r, i))
    requires i < 256 || forall q :: IsRoot(owner, q) ==> q == r
    ensures var t' := SetWord(t, r, i, MakePte(f, PTE_V));
            var owner' := owner[f := Mid(Space(kernel, r, i), i)];
            && Wf(t', owner', kernel)
            && RootsKept(owner, owner') && SameEntries(t, t', owner)
            && OneWord(t, t', r, i, MakePte(f, PTE_V))
  {
    var e := MakePte(f, PTE_V);
    var t' := SetWord(t, r, i, e);
    var owner' := owner[f := Mid(Space(kernel, r, i), i)];
    PteRoundTrip(f, PTE_V);
    forall g, j: nat | j < 512
      ensures WordAt(t', g, j) == if g == r && j == i then e else WordAt(t, g, j)
    {
      SetWordAt(t, r, i, e, g, j);
    }
    forall q, j: nat | IsRoot(owner', q) && 256 <= j < 512
      ensures WordAt(t', q, j) == WordAt(t', kernel, j)
    {
      assert IsRoot(owner, q) && IsRoot(owner, kernel);
      assert WordAt(t, q, j) == WordAt(t, kernel, j);
    }
    forall g, j: nat | g in owner' && j < 512 && IsValid(WordAt(t', g, j))
      ensures ChildOk(owner', kernel, g, j, WordAt(t', g, j))
    {
      if g == r && j == i {
      } else {
        assert ChildOk(owner, kernel, g, j, WordAt(t, g, j));
      }
    }
    forall q: nat, w: nat | IsRoot(owner, q) && w < VPNS
      ensures Entry(t', q, w) == Entry(t, q, w)
    {
      WalkLabels(t, owner, kernel, q, w);
    }
  }

  /** So does hanging a fresh leaf table into an empty middle slot. */
  lemma AddLeaf(t: Tables, owner: map<nat, Label>, kernel: nat, m: nat, i: nat, f: nat)
    requires Wf(t, owner, kernel) && m in owner && owner[m].Mid? && i < 512 && f !in owner && f < PPN_LIMIT
    requires !IsValid(WordAt(t, m, i))
    ensures var t' := SetWord(t, m, i, MakePte(f, PTE_V));
            var owner' := owner[f := Leaf(owner[m].space, owner[m].i2, i)];
            && Wf(t', owner', kernel)
            && RootsKept(owner, owner') && SameEntries(t, t', owner)
            && OneWord(t, t', m, i, MakePte(f, PTE_V))
  {
    var e := MakePte(f, PTE_V);
    var t' := SetWord(t, m, i, e);
    var owner' := owner[f := Leaf(owner[m].space, owner[m].i2, i)];
    PteRoundTrip(f, PTE_V);
    forall g, j: nat | j < 512
      ensures WordAt(t', g, j) == if g == m && j == i then e else WordAt(t, g, j)
    {
      SetWordAt(t, m, i, e, g, j);
    }
    forall g, j: nat | g in owner' && j < 512 && IsValid(WordAt(t', g, j))
      ensures ChildOk(owner', kernel, g, j, WordAt(t', g, j))
    {
      if g == m && j == i {
      } else {
        assert ChildOk(owner, kernel, g, j, WordAt(t, g, j));
      }
    }
    forall q: nat, w: nat | IsRoot(owner, q) && w < VPNS
      ensures Entry(t', q, w) == Entry(t, q, w)
    {
      WalkLabels(t, owner, kernel, q, w);
    }
  }

  /** A fresh root that copies the kernel's root: its user half, which the
      kernel's root leaves empty, translates nothing, its kernel half the same. */
  lemma AddRoot(t: Tables, owner: map<nat, Label>, kernel: nat, f: nat)
    requires Wf(t, owner, kernel) && f !in owner
    requires forall i: nat :: i < 256 ==> !IsValid(WordAt(t, kernel, i))
    ensures var t' := t[f := seq(512, (i: nat) => WordAt(t, kernel, i))];
            var owner' := owner[f := Root];
            && Wf(t', owner', kernel)
            && RootsKept(owner, owner') && SameEntries(t, t', owner)
            && (forall w: nat :: w < USER_VPNS ==> Entry(t', f, w) == 0)
            && (forall w: nat :: USER_VPNS <= w < VPNS ==> Entry(t', f, w) == Entry(t, kernel, w))
  {
    var t' := t[f := seq(512, (i: nat) => WordAt(t, kernel, i))];
    var owner' := owner[f := Root];
    forall g, j: nat | j < 512
      ensures WordAt(t', g, j) == WordAt(t, if g == f then kernel else g, j)
    {
    }
    forall g, j: nat | g in owner' && j < 512 && IsValid(WordAt(t', g, j))
      ensures ChildOk(owner', kernel, g, j, WordAt(t', g, j))
    {
      assert ChildOk(owner, kernel, if g == f then kernel else g, j, WordAt(t', g, j));
    }
    forall q: nat, w: nat | IsRoot(owner, q) && w < VPNS
      ensures Entry(t', q, w) == Entry(t, q, w)
    {
      WalkLabels(t, owner, kernel, q, w);
    }
    forall w: nat | w < VPNS
      ensures Entry(t', f, w) == if w < USER_VPNS then 0 else Entry(t, kernel, w)
    {
      WalkLabels(t, owner, kernel, kernel, w);
    }
  }
}
