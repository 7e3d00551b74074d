/** The task's list of memory areas as it lies in memory: doubly linked nodes,
    new ones put in front. */
module VmaList {
  import opened Bits
  import opened Options
  import opened Areas

  class VmArea {
    var mm: Mm?
    var start: nat
    var end: nat
    var next: VmArea?
    var prev: VmArea?
    var flags: nat
    var pgoff: nat
    var filesz: nat

    constructor ()
      ensures fresh(this)
    {
    }

    function Value(): Area
      reads this
    {
      Area(start, end, flags, pgoff, filesz)
    }
  }

  class Mm {
    var mmap: VmArea?
    ghost var nodes: seq<VmArea>
    ghost var areas: seq<Area>  // the nodes' values, in list order

    /** A well-formed doubly linked list over distinct nodes of this mm. */
    ghost predicate Valid()
      reads this, nodes
    {
      && |areas| == |nodes|
      && (forall i {:trigger areas[i]} :: 0 <= i < |nodes| ==> areas[i] == nodes[i].Value())
      && (mmap == if nodes == [] then null else nodes[0])
      && (forall i :: 0 <= i < |nodes| ==> nodes[i].mm == this)
      && (forall i {:trigger nodes[i].next} :: 0 <= i < |nodes| ==> nodes[i].next == if i + 1 < |nodes| then nodes[i + 1] else null)
      && (forall i {:trigger nodes[i].prev} :: 0 <= i < |nodes| ==> nodes[i].prev == if i > 0 then nodes[i - 1] else null)
      && (forall i, j :: 0 <= i < j < |nodes| ==> nodes[i] != nodes[j])
    }

    constructor ()
      ensures Valid() && nodes == [] && areas == []
    {
      mmap := null;
      nodes := [];
      areas := [];
    }

    /** find_vma answers what the value-level search answers. */
    method Find(addr: nat) returns (vma: VmArea?)
      requires Valid()
      ensures vma == null <==> FindVma(areas, addr).None?
      ensures vma != null ==> vma in nodes && FindVma(areas, addr) == Some(vma.Value())
      ensures vma == null ==> forall j :: 0 <= j < |nodes| ==> !(nodes[j].start <= addr < nodes[j].end)
      ensures vma != null ==> vma.start <= addr < vma.end
                              && exists i :: 0 <= i < |nodes| && nodes[i] == vma
                                             && forall j :: 0 <= j < i ==> !(nodes[j].start <= addr < nodes[j].end)
    {
      vma := mmap;
      ghost var i := 0;
      assert areas[0..] == areas;
      while vma != null
        invariant 0 <= i <= |nodes| && vma == (if i < |nodes| then nodes[i] else null)
        invariant FindVma(areas, addr) == FindVma(areas[i..], addr)
        invariant forall j :: 0 <= j < i ==> !(nodes[j].start <= addr < nodes[j].end)
        decreases |nodes| - i
      {
        FindVmaSkip(areas, i, addr);
        if vma.start <= addr && addr < vma.end {
          return;
        }
        assert vma.next == nodes[i].next;
        vma := vma.next;
        i := i + 1;
      }
    }

    /** add_mmap: the new node goes in front. */
    method AddMmap(node: VmArea)
      requires Valid() && node !in nodes
      modifies this, node, nodes
      ensures Valid() && nodes == [node] + old(nodes)
      ensures node.Value() == old(node.Value()) && areas == [node.Value()] + old(areas)
      ensures mmap == node && node.mm == this && node.next == old(mmap) && node.prev == null
      ensures old(mmap) != null ==> old(mmap).prev == node
    {
      node.mm := this;
      var first := mmap;
      if first == null {
        mmap := node;
        node.next := null;
        node.prev := null;
      } else {
        mmap := node;
        node.next := first;
        node.prev := null;
        first.prev := node;
      }
      ghost var rest := nodes;
      nodes := [node] + nodes;
      areas := [node.Value()] + areas;
      assert forall i :: 1 <= i < |nodes| ==> nodes[i] == rest[i - 1];
    }

    /** do_mmap: a fresh node in front, then its fields. */
    method DoMmap(addr: nat, len: nat, pgoff: nat, filesz: nat, flags: nat) returns (r: nat)
      requires Valid()
      modifies this, nodes
      ensures Valid() && nodes != [] && fresh(nodes[0]) && nodes == [nodes[0]] + old(nodes)
      ensures areas == [Area(addr, addr + len, flags, pgoff, filesz)] + old(areas)
      ensures r == addr
    {
      var node := new VmArea();
      AddMmap(node);
      node.start := addr;
      node.end := addr + len;
      node.flags := flags;
      node.pgoff := pgoff;
      node.filesz := filesz;
      areas := [Area(addr, addr + len, flags, pgoff, filesz)] + areas[1..];
      r := addr;
    }

    /** One round of fork's list loop: a fresh copy of a node of another list,
        put in front of this one. */
    method AddCopy(vma: VmArea)
      requires Valid() && vma !in nodes
      modifies this, nodes
      ensures Valid() && nodes != [] && fresh(nodes[0]) && nodes == [nodes[0]] + old(nodes)
      ensures areas == [vma.Value()] + old(areas)
    {
      var node := new VmArea();
      node.mm := vma.mm;
      node.start := vma.start;
      node.end := vma.end;
      node.next := vma.next;
      node.prev := vma.prev;
      node.flags := vma.flags;
      node.pgoff := vma.pgoff;
      node.filesz := vma.filesz;
      AddMmap(node);
    }
  }

  // ----------------------------------------------------------- load_program

  datatype Phdr = Phdr(isLoad: bool, flags: nat, offset: nat, paddr: nat, filesz: nat, memsz: nat)

  /** A segment's permissions: bits 0, 1 and 2 of p_flags allow to execute, to
      write and to read. */
  function SegmentFlags(p: Phdr): nat {
    (if p.flags % 2 == 1 then VM_EXEC else 0) + (if p.flags / 4 % 2 == 1 then VM_READ else 0)
    + (if p.flags / 2 % 2 == 1 then VM_WRITE else 0)
  }

  /** (p_flags & PF_X) << 3 | (p_flags & PF_R) >> 1 | (p_flags & PF_W) << 1 */
  lemma SegmentFlagBits(p: Phdr)
    ensures Or(Or(And(p.flags, 1) * 8, Shr(And(p.flags, 4), 1)), And(p.flags, 2) * 2) == SegmentFlags(p)
  {
    AndMask(p.flags, 1);
    BitTwo(p.flags);
    FlagBit(p.flags);
    assert Shr(4, 1) == Shr(2, 0) && Shr(0, 1) == Shr(0, 0);
    ThreeBits(And(p.flags, 1) * 8, Shr(And(p.flags, 4), 1), And(p.flags, 2) * 2);
  }

  lemma ThreeBits(x: nat, r: nat, w: nat)
    requires (x == 0 || x == 8) && (r == 0 || r == 2) && (w == 0 || w == 4)
    ensures Or(Or(x, r), w) == x + r + w
  {
    assert And(8, 2) == 0;
    OrSum(x, r);
    BitTwo(x + r);
    OrSum(x + r, w);
  }

  function Segment(p: Phdr): Area {
    Area(p.paddr, p.paddr + p.memsz, SegmentFlags(p), p.offset, p.filesz)
  }

  const STACK: Area := Area(USER_END - PGSIZE, USER_END, VM_READ + VM_ANON + VM_WRITE, 0, PGSIZE)

  /** The loadable segments, last one first. */
  function Segments(phdrs: seq<Phdr>): seq<Area> {
    if phdrs == [] then []
    else
      var last := phdrs[|phdrs| - 1];
      (if last.isLoad then [Segment(last)] else []) + Segments(phdrs[..|phdrs| - 1])
  }

  /** The area has the header's extent, offset, file size and permissions. */
  ghost predicate IsAreaOf(a: Area, p: Phdr) {
    var ok :=
      && a.start == p.paddr && a.end == p.paddr + p.memsz && a.pgoff == p.offset && a.filesz == p.filesz
      && a.flags < 16 && a.flags % 2 == 0 && a.flags / 2 % 2 == p.flags / 4 % 2
      && a.flags / 4 % 2 == p.flags / 2 % 2 && a.flags / 8 % 2 == p.flags % 2;
    ok
  }

  lemma SegmentIs(p: Phdr)
    ensures IsAreaOf(Segment(p), p)
  {
  }

  /** One area for each loadable header, last header first: js lists them. */
  ghost predicate Listed(areas: seq<Area>, phdrs: seq<Phdr>, js: seq<nat>) {
    && |areas| == |js| && (forall k :: 0 <= k < |js| ==> js[k] < |phdrs| && IsAreaOf(areas[k], phdrs[js[k]]))
    && (forall j :: 0 <= j < |phdrs| ==> (phdrs[j].isLoad <==> j in js))
    && (forall k, m :: 0 <= k < m < |js| ==> js[k] > js[m])
  }

  lemma ListedMore(areas: seq<Area>, phdrs: seq<Phdr>, js: seq<nat>, p: Phdr)
    requires Listed(areas, phdrs, js)
    ensures if p.isLoad then Listed([Segment(p)] + areas, phdrs + [p], [|phdrs|] + js) else Listed(areas, phdrs + [p], js)
  {
    SegmentIs(p);
    var all, more, mjs := phdrs + [p], [Segment(p)] + areas, [|phdrs|] + js;
    forall j | 0 <= j < |all|
      ensures j in mjs <==> j == |phdrs| || j in js
      ensures j == |phdrs| ==> j !in js
    {
    }
    forall k | 0 <= k < |mjs|
      ensures mjs[k] < |all| && IsAreaOf(more[k], all[mjs[k]])
    {
      if k > 0 { assert mjs[k] == js[k - 1] && more[k] == areas[k - 1]; }
    }
  }

  /** The areas are the stack, the last page of user space, readable, writable and
      anonymous, and then those of the loadable headers. */
  lemma LoadedAreas(phdrs: seq<Phdr>) returns (js: seq<nat>)
    ensures STACK == Area(0x3f_ffff_f000, 0x40_0000_0000, 0x7, 0, 0x1000)
    ensures Listed(Segments(phdrs), phdrs, js)
    decreases |phdrs|
  {
    js := [];
    if phdrs != [] {
      var n := |phdrs| - 1;
      var less := LoadedAreas(phdrs[..n]);
      assert phdrs == phdrs[..n] + [phdrs[n]];
      ListedMore(Segments(phdrs[..n]), phdrs[..n], less, phdrs[n]);
      assert [] + Segments(phdrs[..n]) == Segments(phdrs[..n]);
      js := if phdrs[n].isLoad then [n] + less else less;
    }
  }

  /** load_program turns the program headers into areas and adds the stack. */
  method LoadProgram(mm: Mm, phdrs: seq<Phdr>)
    requires mm.Valid() && mm.nodes == []
    modifies mm, mm.nodes
    ensures mm.Valid() && fresh(mm.nodes)
    ensures mm.areas == [STACK] + Segments(phdrs)
  {
    for i := 0 to |phdrs|
      invariant mm.Valid() && fresh(mm.nodes)
      invariant mm.areas == Segments(phdrs[..i])
    {
      var phdr := phdrs[i];
      assert phdrs[..i + 1][..i] == phdrs[..i];
      if phdr.isLoad {
        var perm := Or(Or(And(phdr.flags, 1) * 8, Shr(And(phdr.flags, 4), 1)), And(phdr.flags, 2) * 2);
        SegmentFlagBits(phdr);
        var _ := mm.DoMmap(phdr.paddr, phdr.memsz, phdr.offset, phdr.filesz, perm);
      }
    }
    assert phdrs[..|phdrs|] == phdrs;
    var _ := mm.DoMmap(USER_END - PGSIZE, PGSIZE, 0, PGSIZE, VM_READ + VM_ANON + VM_WRITE);
  }
}
