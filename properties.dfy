/** What `_start` guarantees about RAM and about how it ends, stated on the reference behaviour. */
module Crt0Properties {
  import opened Words
  import opened Memory
  import opened Sections
  import opened Crt0

  /** RAM after the routine has stored its image into `m` from `ramStart` on. */
  function After(m: Mem, rom: Mem, l: Layout, romStart: Word, ramStart: Word): Mem
    requires Loadable(rom, l, romStart, ramStart)
  {
    Store(m, ramStart, Expected(rom, l, romStart, ramStart).image)
  }

  /** The k-th entry of the GOT in ROM. */
  function GotEntry(rom: Mem, l: Layout, romStart: Word, k: nat): Word
    requires RomAddr(romStart, l.sgot, k) in rom
  {
    rom[RomAddr(romStart, l.sgot, k)]
  }

  /** After the data loop, RAM from `ramStart` holds the ROM words of .data, in order. */
  lemma DataCopied(m: Mem, rom: Mem, l: Layout, romStart: Word, ramStart: Word)
    requires Loadable(rom, l, romStart, ramStart)
    ensures forall k :: 0 <= k < WordCount(l.sdata, l.edata) ==>
      Addr(ramStart, k) in After(m, rom, l, romStart, ramStart) &&
      After(m, rom, l, romStart, ramStart)[Addr(ramStart, k)] == rom[RomAddr(romStart, l.sdata, k)]
  {
    var image := Expected(rom, l, romStart, ramStart).image;
    var data := RomWords(rom, romStart, l.sdata, l.edata);
    assert image[..|data|] == data;
    StoreAtAll(m, ramStart, image);
    forall k | 0 <= k < |data| ensures image[k] == rom[RomAddr(romStart, l.sdata, k)] {
      assert image[k] == image[..|data|][k];
    }
  }

  /** The .bss words, placed right after the copied .data, all read zero whatever RAM held before. */
  lemma BssZeroed(m: Mem, rom: Mem, l: Layout, romStart: Word, ramStart: Word)
    requires Loadable(rom, l, romStart, ramStart)
    ensures var ramBss := ramStart + Span(l.sdata, l.edata);
      forall k :: 0 <= k < WordCount(l.sbss, l.ebss) ==>
        Addr(ramBss, k) in After(m, rom, l, romStart, ramStart) &&
        After(m, rom, l, romStart, ramStart)[Addr(ramBss, k)] == 0
  {
    var image := Expected(rom, l, romStart, ramStart).image;
    var nd := WordCount(l.sdata, l.edata);
    var nb := WordCount(l.sbss, l.ebss);
    var ramBss := ramStart + Span(l.sdata, l.edata);
    assert 4 * nd == Span(l.sdata, l.edata);
    assert forall k :: nd <= k < nd + nb ==> image[k] == 0;
    StoreAtAll(m, ramStart, image);
    forall k | 0 <= k < nb
      ensures Addr(ramBss, k) in After(m, rom, l, romStart, ramStart)
      ensures After(m, rom, l, romStart, ramStart)[Addr(ramBss, k)] == 0
    {
      assert Addr(ramBss, k) == Addr(ramStart, nd + k);
    }
  }

  /** The routine reaches `main` exactly when every GOT entry lies in .text, .data or .bss. */
  lemma HandoffIffAllKnown(rom: Mem, l: Layout, romStart: Word, ramStart: Word)
    requires Loadable(rom, l, romStart, ramStart)
    ensures Expected(rom, l, romStart, ramStart).outcome.Handoff? <==>
      forall k :: 0 <= k < WordCount(l.sgot, l.egot) ==>
        Classify(l, GotEntry(rom, l, romStart, k)).Some?
  {
    var entries := RomWords(rom, romStart, l.sgot, l.egot);
    var got := RelocatePrefix(l, PlacementFor(l, romStart, ramStart), entries);
    if |got| < |entries| {
      assert entries[|got|] == GotEntry(rom, l, romStart, |got|);
    } else {
      forall k | 0 <= k < WordCount(l.sgot, l.egot)
        ensures Classify(l, GotEntry(rom, l, romStart, k)).Some?
      {
        assert entries[k] == GotEntry(rom, l, romStart, k);
      }
    }
  }

  /**
   * On hand-off the RAM GOT starts right after .bss, the new start of unused RAM is right after the
   * RAM GOT, and its k-th word is the relocation of the k-th ROM GOT entry.
   */
  lemma GotRelocated(m: Mem, rom: Mem, l: Layout, romStart: Word, ramStart: Word)
    requires Loadable(rom, l, romStart, ramStart)
    requires Expected(rom, l, romStart, ramStart).outcome.Handoff?
    ensures var o := Expected(rom, l, romStart, ramStart).outcome;
      o.gotBase == Wrap(ramStart + Span(l.sdata, l.edata) + Span(l.sbss, l.ebss)) &&
      o.unusedRamStart == Wrap(ramStart + RamBytes(l)) &&
      forall k :: 0 <= k < WordCount(l.sgot, l.egot) ==>
        Addr(o.gotBase, k) in After(m, rom, l, romStart, ramStart) &&
        Relocate(l, PlacementFor(l, romStart, ramStart), GotEntry(rom, l, romStart, k))
          == Some(After(m, rom, l, romStart, ramStart)[Addr(o.gotBase, k)])
  {
    var run := Expected(rom, l, romStart, ramStart);
    var image := run.image;
    var p := PlacementFor(l, romStart, ramStart);
    var entries := RomWords(rom, romStart, l.sgot, l.egot);
    var got := RelocatePrefix(l, p, entries);
    var n := WordCount(l.sdata, l.edata) + WordCount(l.sbss, l.ebss);
    assert image == RomWords(rom, romStart, l.sdata, l.edata) + Zeros(WordCount(l.sbss, l.ebss)) + got;
    assert |got| == |entries|;
    assert 4 * n == Span(l.sdata, l.edata) + Span(l.sbss, l.ebss);
    StoreAtAll(m, ramStart, image);
    forall k | 0 <= k < |entries|
      ensures Addr(run.outcome.gotBase, k) in After(m, rom, l, romStart, ramStart)
      ensures Relocate(l, p, GotEntry(rom, l, romStart, k))
          == Some(After(m, rom, l, romStart, ramStart)[Addr(run.outcome.gotBase, k)])
    {
      assert Addr(run.outcome.gotBase, k) == Addr(ramStart, n + k);
      assert image[n + k] == got[k];
      assert entries[k] == GotEntry(rom, l, romStart, k);
    }
  }

  /**
   * On a halt, the GOT word that was being relocated and every word above it keep their old
   * contents; the entries before the faulting one were all known.
   */
  lemma HaltStopsWrites(m: Mem, rom: Mem, l: Layout, romStart: Word, ramStart: Word)
    requires Loadable(rom, l, romStart, ramStart)
    requires Expected(rom, l, romStart, ramStart).outcome.Halted?
    ensures var n := WordCount(l.sdata, l.edata) + WordCount(l.sbss, l.ebss);
      var j := |Expected(rom, l, romStart, ramStart).image| - n;
      0 <= j < WordCount(l.sgot, l.egot) &&
      Classify(l, GotEntry(rom, l, romStart, j)).None? &&
      (forall k :: 0 <= k < j ==> Classify(l, GotEntry(rom, l, romStart, k)).Some?) &&
      forall a: Word :: Addr(ramStart, n + j) <= a ==>
        (a in After(m, rom, l, romStart, ramStart) <==> a in m) &&
        (a in m ==> After(m, rom, l, romStart, ramStart)[a] == m[a])
  {
    var image := Expected(rom, l, romStart, ramStart).image;
    var entries := RomWords(rom, romStart, l.sgot, l.egot);
    var got := RelocatePrefix(l, PlacementFor(l, romStart, ramStart), entries);
    var n := WordCount(l.sdata, l.edata) + WordCount(l.sbss, l.ebss);
    var j := |got|;
    assert |image| == n + j;
    assert entries[j] == GotEntry(rom, l, romStart, j);
    forall k | 0 <= k < j ensures Classify(l, GotEntry(rom, l, romStart, k)).Some? {
      assert entries[k] == GotEntry(rom, l, romStart, k);
    }
    StoreOutsideAll(m, ramStart, image, Addr(ramStart, n + j));
  }

  /** No RAM word outside [ramStart, ramStart + bytes of .data, .bss and GOT) is written, whatever the outcome. */
  lemma OutsideUnchanged(m: Mem, rom: Mem, l: Layout, romStart: Word, ramStart: Word)
    requires Loadable(rom, l, romStart, ramStart)
    ensures forall a: Word :: a < ramStart || ramStart + RamBytes(l) <= a ==>
      (a in After(m, rom, l, romStart, ramStart) <==> a in m) &&
      (a in m ==> After(m, rom, l, romStart, ramStart)[a] == m[a])
  {
    var image := Expected(rom, l, romStart, ramStart).image;
    var entries := RomWords(rom, romStart, l.sgot, l.egot);
    assert |image| <= WordCount(l.sdata, l.edata) + WordCount(l.sbss, l.ebss) + |entries|;
    assert 4 * |entries| == Span(l.sgot, l.egot);
    StoreOutsideAll(m, ramStart, image, ramStart + RamBytes(l));
  }
}
