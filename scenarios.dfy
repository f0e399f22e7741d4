/**
 * Small concrete images: a binary whose .data holds two words, whose .bss holds one and whose
 * GOT holds one entry, placed in ROM at `r` and relocated into RAM from `f`.
 */
module Crt0Scenarios {
  import opened Words
  import opened Memory
  import opened Sections
  import opened Crt0
  import opened Crt0Properties

  /** .text [0x000, 0x100), .got [0x100, 0x104), .data [0x104, 0x10c), .bss [0x10c, 0x110). */
  function SmallLayout(): Layout {
    Layout(0x000, 0x100, 0x100, 0x104, 0x104, 0x10c, 0x10c, 0x110)
  }

  /** The ROM of the binary, at `r`, with `entry` as its only GOT entry. */
  function SmallRom(r: Word, entry: Word): Mem
    requires r + 0x110 <= Modulus
  {
    map[r + 0x100 := entry, r + 0x104 := 0x1111_1111, r + 0x108 := 0x2222_2222]
  }

  /** A range's first and last addresses fall inside it; an entry at a range's end falls outside it. */
  lemma SmallLayoutBoundaries()
    ensures Classify(SmallLayout(), 0x000) == Some(Text)
    ensures Classify(SmallLayout(), 0x0ff) == Some(Text)
    ensures Classify(SmallLayout(), 0x100) == None
    ensures Classify(SmallLayout(), 0x104) == Some(Data)
    ensures Classify(SmallLayout(), 0x10c) == Some(Bss)
    ensures Classify(SmallLayout(), 0x110) == None
  {
  }

  /** The words of .data as the routine reads them from ROM. */
  lemma SmallRomData(r: Word, entry: Word)
    requires r + 0x110 <= Modulus
    ensures Readable(SmallRom(r, entry), r, 0x104, 0x10c) && Readable(SmallRom(r, entry), r, 0x100, 0x104)
    ensures RomWords(SmallRom(r, entry), r, 0x104, 0x10c) == [0x1111_1111, 0x2222_2222]
    ensures RomWords(SmallRom(r, entry), r, 0x100, 0x104) == [entry]
  {
    assert RomAddr(r, 0x104, 0) == r + 0x104 && RomAddr(r, 0x104, 1) == r + 0x108;
    assert RomAddr(r, 0x100, 0) == r + 0x100;
  }

  /**
   * The GOT entry is the start of .data: RAM from `f` ends up holding the two data words, a zero
   * word, and the relocated entry `f`; the GOT is at `f + 12` and unused RAM starts at `f + 16`.
   */
  lemma DataEntryScenario(m: Mem, r: Word, f: Word)
    requires r + 0x110 <= Modulus && f + 16 < Modulus
    ensures Loadable(SmallRom(r, 0x104), SmallLayout(), r, f)
    ensures Expected(SmallRom(r, 0x104), SmallLayout(), r, f) == Run([0x1111_1111, 0x2222_2222, 0, f], Handoff(f + 12, f + 16))
    ensures var ram := After(m, SmallRom(r, 0x104), SmallLayout(), r, f);
      f in ram && f + 4 in ram && f + 8 in ram && f + 12 in ram &&
      ram[f] == 0x1111_1111 && ram[f + 4] == 0x2222_2222 && ram[f + 8] == 0 && ram[f + 12] == f
  {
    var rom, l := SmallRom(r, 0x104), SmallLayout();
    SmallRomData(r, 0x104);
    var p := PlacementFor(l, r, f);
    assert Relocate(l, p, 0x104) == Some(f);
    assert RelocatePrefix(l, p, [0x104]) == [f];
    assert Zeros(1) == [0];
    var image := [0x1111_1111, 0x2222_2222, 0, f];
    assert Expected(rom, l, r, f).image == image;
    assert After(m, rom, l, r, f) == Store(m, f, image);
    StoreAtAll(m, f, image);
    assert Addr(f, 0) == f && Addr(f, 1) == f + 4 && Addr(f, 2) == f + 8 && Addr(f, 3) == f + 12;
  }

  /**
   * The GOT entry lies in no section: the routine halts after .data and .bss, writes no GOT word,
   * and leaves every word from `f + 12` on as it was.
   */
  lemma UnknownEntryScenario(m: Mem, r: Word, f: Word)
    requires r + 0x110 <= Modulus && f + 16 < Modulus
    ensures Loadable(SmallRom(r, 0x200), SmallLayout(), r, f)
    ensures Expected(SmallRom(r, 0x200), SmallLayout(), r, f) == Run([0x1111_1111, 0x2222_2222, 0], Halted)
    ensures var ram := After(m, SmallRom(r, 0x200), SmallLayout(), r, f);
      f + 12 in ram <==> f + 12 in m
    ensures var ram := After(m, SmallRom(r, 0x200), SmallLayout(), r, f);
      f + 12 in m ==> ram[f + 12] == m[f + 12]
  {
    var rom, l := SmallRom(r, 0x200), SmallLayout();
    SmallRomData(r, 0x200);
    var p := PlacementFor(l, r, f);
    assert Relocate(l, p, 0x200) == None;
    assert RelocatePrefix(l, p, [0x200]) == [];
    assert Zeros(1) == [0];
    StoreOutside(m, f, [0x1111_1111, 0x2222_2222, 0], f + 12);
  }

  /**
   * The same binary loaded into the last 16 bytes of the address space: the cursor advances by
   * `uint32_t` addition, so the GOT sits at the last word and unused RAM wraps round to 0.
   */
  lemma TopOfRamScenario(r: Word)
    requires r + 0x110 <= Modulus
    ensures Loadable(SmallRom(r, 0x104), SmallLayout(), r, Modulus - 16)
    ensures Expected(SmallRom(r, 0x104), SmallLayout(), r, Modulus - 16).outcome == Handoff(Modulus - 4, 0)
  {
    var rom, l, f := SmallRom(r, 0x104), SmallLayout(), Modulus - 16;
    SmallRomData(r, 0x104);
    var p := PlacementFor(l, r, f);
    assert Relocate(l, p, 0x104) == Some(f);
    assert RelocatePrefix(l, p, [0x104]) == [f];
    assert Zeros(1) == [0];
    assert Expected(rom, l, r, f).image == [0x1111_1111, 0x2222_2222, 0, f];
  }
}
