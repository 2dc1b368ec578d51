/** The kernel half that all address spaces share, as a system call's walk meets it. */
module KernelHalves {
  import opened Basics
  import opened PageTree
  import opened AddressSpace
  import opened Walker

  /** The tables from t on are among these frames, and no 4096-byte page behind them is open to user code.
    * An entry above the last level can also map a larger page. */
  ghost predicate ShutTable(m: Mem, frames: set<nat>, t: nat, h: nat)
    decreases h
  {
    && t in frames && IsTable(m, t)
    && (forall i: nat | i < ENTRIES && EntryAt(m, t, i).flags.present ::
          if h <= 1 then !EntryAt(m, t, i).flags.user
          else Large(m, t, h, i) || ShutTable(m, frames, EntryAt(m, t, i).frame, h - 1))
  }

  /** A page of 2^21 or 2^30 bytes. */
  predicate Large(m: Mem, t: nat, h: nat, i: nat) {
    2 <= h <= 3 && EntryAt(m, t, i).flags.huge
  }

  /** The walk for va meets no larger page, which walk_pagetable would take for a table. */
  ghost predicate NoLargePage(m: Mem, root: nat, va: nat) {
    forall t | Down(m, root, Pml4Index(va)) == Some(t) ::
      && !Large(m, t, 3, PdptIndex(va))
      && forall u | Down(m, t, PdptIndex(va)) == Some(u) :: !Large(m, u, 2, PdIndex(va))
  }

  ghost predicate Shut(m: Mem, frames: set<nat>, half: seq<Entry>) {
    forall i | 0 <= i < |half| && half[i].flags.present :: ShutTable(m, frames, half[i].frame, 3)
  }

  lemma {:induction false} ShutTableKept(m: Mem, m': Mem, frames: set<nat>, t: nat, h: nat)
    requires ShutTable(m, frames, t, h) && Agree(m, m', frames)
    ensures ShutTable(m', frames, t, h)
    decreases h
  {
    assert m'[t] == m[t];
    forall i: nat | i < ENTRIES && EntryAt(m', t, i).flags.present && h > 1 && !Large(m', t, h, i)
      ensures ShutTable(m', frames, EntryAt(m', t, i).frame, h - 1)
    {
      assert EntryAt(m', t, i) == EntryAt(m, t, i);
      ShutTableKept(m, m', frames, EntryAt(m, t, i).frame, h - 1);
    }
    assert forall i: nat {:trigger EntryAt(m', t, i)} :: EntryAt(m', t, i) == EntryAt(m, t, i);
  }

  /** What leaves the kernel's frames alone leaves the kernel half shut. */
  lemma ShutKept(m: Mem, m': Mem, frames: set<nat>, half: seq<Entry>)
    requires Shut(m, frames, half) && Agree(m, m', frames)
    ensures Shut(m', frames, half)
  {
    hide ShutTable, Agree;
    forall i | 0 <= i < |half| && half[i].flags.present ensures ShutTable(m', frames, half[i].frame, 3) {
      ShutTableKept(m, m', frames, half[i].frame, 3);
    }
  }

  lemma KernelIndex(va: nat)
    requires KernelAddress(va)
    ensures USER_ENTRIES <= Pml4Index(va) < ENTRIES
  {
    var i := va / 0x80_0000_0000;
    assert if va < EXTENDED_TOP then 256 <= i < 512 else 0x1FF_FF00 <= i < 0x200_0000;
    assert i % 512 == if va < EXTENDED_TOP then i else i - 0x1FF_FE00;
  }

  /** In an address space with a shut kernel half no kernel address is open to user code, as far as the walk
    * tells tables from larger pages. */
  lemma ShutAddress(m: Mem, frames: set<nat>, root: nat, va: nat)
    requires IsTable(m, root) && Shut(m, frames, KernelHalf(m, root)) && KernelAddress(va) && NoLargePage(m, root, va)
    ensures KernelShut(m, root, va)
  {
    hide ShutTable;
    KernelIndex(va);
    var half := KernelHalf(m, root);
    var i := Pml4Index(va);
    assert half[i - USER_ENTRIES] == EntryAt(m, root, i);
    if Down(m, root, i).Some? {
      var t := EntryAt(m, root, i).frame;
      ShutBelow(m, frames, t, 3, PdptIndex(va));
      if Down(m, t, PdptIndex(va)).Some? {
        var u := EntryAt(m, t, PdptIndex(va)).frame;
        ShutBelow(m, frames, u, 2, PdIndex(va));
        if Down(m, u, PdIndex(va)).Some? {
          ShutBelow(m, frames, EntryAt(m, u, PdIndex(va)).frame, 1, PtIndex(va));
        }
      }
    }
  }

  lemma ShutBelow(m: Mem, frames: set<nat>, t: nat, h: nat, i: nat)
    requires ShutTable(m, frames, t, h) && i < ENTRIES
    ensures IsTable(m, t)
    ensures EntryAt(m, t, i).flags.present ==>
      if h <= 1 then !EntryAt(m, t, i).flags.user
      else Large(m, t, h, i) || ShutTable(m, frames, EntryAt(m, t, i).frame, h - 1)
  {}
}
