/**
 * The start-up routine `_start` of the root partition: it copies `.data` from ROM to RAM, zeroes
 * `.bss` right after it, relocates every GOT entry into a RAM GOT right after `.bss`, records the
 * new start of unused RAM in the interface and hands over to `main`.
 */
module Crt0 {
  import opened Words
  import opened Memory
  import opened Sections

  /** The address of the k-th word of a ROM range that starts at link offset `s`. */
  function RomAddr(romStart: Word, s: Word, k: nat): Word {
    Wrap(romStart + s + WordBytes * k)
  }

  /** Every word of the range [s, e) of the binary is mapped in ROM. */
  predicate Readable(rom: Mem, romStart: Word, s: Word, e: Word) {
    forall k :: 0 <= k < WordCount(s, e) ==> RomAddr(romStart, s, k) in rom
  }

  /** The words of the range [s, e) of the binary, as ROM holds them. */
  function RomWords(rom: Mem, romStart: Word, s: Word, e: Word): seq<Word>
    requires Readable(rom, romStart, s, e)
  {
    seq(WordCount(s, e), k requires 0 <= k < WordCount(s, e) => rom[RomAddr(romStart, s, k)])
  }

  function Zeros(n: nat): seq<Word> {
    seq(n, _ => 0)
  }

  /** Bytes of RAM the routine fills: .data, then .bss, then the GOT. */
  function RamBytes(l: Layout): nat {
    Span(l.sdata, l.edata) + Span(l.sbss, l.ebss) + Span(l.sgot, l.egot)
  }

  /**
   * What the routine assumes of the binary and the loader: the three ranges it walks are sized in
   * whole words, the ROM words it loads are mapped, and the RAM it fills stays below 2^32.
   */
  predicate Loadable(rom: Mem, l: Layout, romStart: Word, ramStart: Word) {
    WholeWords(l.sdata, l.edata) && WholeWords(l.sbss, l.ebss) && WholeWords(l.sgot, l.egot) &&
    Readable(rom, romStart, l.sdata, l.edata) && Readable(rom, romStart, l.sgot, l.egot) &&
    ramStart + RamBytes(l) <= Modulus
  }

  /** How `_start` ends: a permanent halt on an unknown GOT entry, or the call to `main`. */
  datatype Outcome = Halted | Handoff(gotBase: Word, unusedRamStart: Word)

  /** The words the routine stores from `ramStart` on, in order, and how it ends. */
  datatype Run = Run(image: seq<Word>, outcome: Outcome)

  /** Where the three stages place their output in RAM. */
  function PlacementFor(l: Layout, romStart: Word, ramStart: Word): Placement {
    Placement(romStart, ramStart, Wrap(ramStart + Span(l.sdata, l.edata)))
  }

  /** The reference behaviour of `_start` on a ROM, a layout, and the two interface fields. */
  function Expected(rom: Mem, l: Layout, romStart: Word, ramStart: Word): (r: Run)
    requires Loadable(rom, l, romStart, ramStart)
    ensures var n := WordCount(l.sdata, l.edata) + WordCount(l.sbss, l.ebss);
      n <= |r.image| <= n + WordCount(l.sgot, l.egot) &&
      (r.outcome.Handoff? <==> |r.image| == n + WordCount(l.sgot, l.egot))
    ensures r.outcome.Handoff? ==>
      var n := WordCount(l.sdata, l.edata) + WordCount(l.sbss, l.ebss);
      r.outcome.gotBase == Wrap(ramStart + WordBytes * n) &&
      r.outcome.unusedRamStart == Wrap(ramStart + WordBytes * |r.image|)
  {
    var data := RomWords(rom, romStart, l.sdata, l.edata);
    var bss := Zeros(WordCount(l.sbss, l.ebss));
    var entries := RomWords(rom, romStart, l.sgot, l.egot);
    var got := RelocatePrefix(l, PlacementFor(l, romStart, ramStart), entries);
    var gotBase := Wrap(ramStart + Span(l.sdata, l.edata) + Span(l.sbss, l.ebss));
    Run(data + bss + got,
        if |got| == |entries| then Handoff(gotBase, Wrap(ramStart + RamBytes(l))) else Halted)
  }

  /** The stores of the three stages are adjacent runs of the one store `Expected` describes. */
  lemma StagesCompose(m: Mem, rom: Mem, l: Layout, romStart: Word, ramStart: Word, ramBss: Word, ramGot: Word)
    requires Loadable(rom, l, romStart, ramStart)
    requires ramBss == Wrap(ramStart + Span(l.sdata, l.edata))
    requires ramGot == Wrap(ramBss + Span(l.sbss, l.ebss))
    ensures var data := RomWords(rom, romStart, l.sdata, l.edata);
            var bss := Zeros(WordCount(l.sbss, l.ebss));
            var p := Placement(romStart, ramStart, ramBss);
            var got := RelocatePrefix(l, p, RomWords(rom, romStart, l.sgot, l.egot));
            p == PlacementFor(l, romStart, ramStart) &&
            ramGot == Wrap(ramStart + Span(l.sdata, l.edata) + Span(l.sbss, l.ebss)) &&
            Store(Store(Store(m, ramStart, data), ramBss, bss), ramGot, got)
              == Store(m, ramStart, Expected(rom, l, romStart, ramStart).image)
  {
    var data := RomWords(rom, romStart, l.sdata, l.edata);
    var bss := Zeros(WordCount(l.sbss, l.ebss));
    var p := Placement(romStart, ramStart, ramBss);
    var got := RelocatePrefix(l, p, RomWords(rom, romStart, l.sgot, l.egot));
    assert WordBytes * |data| == Span(l.sdata, l.edata);
    assert WordBytes * |bss| == Span(l.sbss, l.ebss);
    StoreAdjacent(m, ramStart, data, ramBss, bss);
    StoreAdjacent(m, ramStart, data + bss, ramGot, got);
  }

  /** The structure PIP passes to the partition: where the binary starts and where unused RAM starts. */
  class Interface {
    var binaryEntryPoint: Word
    var unusedRamStart: Word

    constructor (entry: Word, unused: Word)
      ensures binaryEntryPoint == entry && unusedRamStart == unused
    {
      binaryEntryPoint, unusedRamStart := entry, unused;
    }
  }

  /** The memory `_start` works on: the ROM holding the binary and the RAM it builds the image in. */
  class Machine {
    /** Read-only memory: nothing in the routine can write it. */
    const rom: Mem
    var ram: Mem

    constructor (rom0: Mem, ram0: Mem)
      ensures rom == rom0 && ram == ram0
    {
      rom, ram := rom0, ram0;
    }

    /** Copies the range [sdata, edata) of the binary word by word from ROM to RAM at `ramStart`. */
    method CopyData(romStart: Word, sdata: Word, edata: Word, ramStart: Word) returns (cursor: Word)
      requires WholeWords(sdata, edata) && Readable(rom, romStart, sdata, edata)
      requires ramStart + Span(sdata, edata) <= Modulus
      modifies this`ram
      ensures ram == Store(old(ram), ramStart, RomWords(rom, romStart, sdata, edata))
      ensures cursor == Wrap(ramStart + Span(sdata, edata))
    {
      ghost var src := RomWords(rom, romStart, sdata, edata);
      ghost var n: nat := 0;
      assert WordBytes * |src| == Span(sdata, edata);
      cursor := ramStart;
      var dataIndex := sdata;
      while dataIndex < edata
        invariant WordBytes * |src| == Span(sdata, edata)
        invariant n <= |src|
        invariant dataIndex == sdata + WordBytes * n
        invariant cursor == Wrap(ramStart + WordBytes * n)
        invariant ram == Store(old(ram), ramStart, src[..n])
        decreases edata - dataIndex
      {
        assert RomAddr(romStart, sdata, n) in rom;
        var word := rom[Wrap(romStart + dataIndex)];
        assert word == src[n];
        ram := ram[cursor := word];
        StoreSnoc(old(ram), ramStart, src[..n], word);
        assert src[..n + 1] == src[..n] + [src[n]];
        dataIndex := Wrap(dataIndex + WordBytes);
        cursor := Wrap(cursor + WordBytes);
        n := n + 1;
      }
      assert src[..n] == src;
    }

    /** Writes a zero word at `ramBssStart` and onwards for each word of the range [sbss, ebss). */
    method ZeroBss(sbss: Word, ebss: Word, ramBssStart: Word) returns (cursor: Word)
      requires WholeWords(sbss, ebss)
      requires ramBssStart + Span(sbss, ebss) <= Modulus
      modifies this`ram
      ensures ram == Store(old(ram), ramBssStart, Zeros(WordCount(sbss, ebss)))
      ensures cursor == Wrap(ramBssStart + Span(sbss, ebss))
    {
      ghost var zs := Zeros(WordCount(sbss, ebss));
      ghost var n: nat := 0;
      assert WordBytes * |zs| == Span(sbss, ebss);
      cursor := ramBssStart;
      var bssIndex := sbss;
      while bssIndex < ebss
        invariant WordBytes * |zs| == Span(sbss, ebss)
        invariant n <= |zs|
        invariant bssIndex == sbss + WordBytes * n
        invariant cursor == Wrap(ramBssStart + WordBytes * n)
        invariant ram == Store(old(ram), ramBssStart, zs[..n])
        decreases ebss - bssIndex
      {
        ram := ram[cursor := 0];
        StoreSnoc(old(ram), ramBssStart, zs[..n], 0);
        assert zs[..n + 1] == zs[..n] + [0];
        bssIndex := Wrap(bssIndex + WordBytes);
        cursor := Wrap(cursor + WordBytes);
        n := n + 1;
      }
      assert zs[..n] == zs;
    }

    /**
     * The body of the GOT loop for one entry: the first of .text, .data and .bss whose half-open
     * range holds the entry decides its run-time address; `known` is false when none does.
     */
    static method RelocateEntry(l: Layout, p: Placement, gotEntry: Word) returns (known: bool, relocated: Word)
      ensures known == Classify(l, gotEntry).Some?
      ensures known ==> Relocate(l, p, gotEntry) == Some(relocated)
    {
      var romStart, ramDataStart, ramBssStart := p.romStart, p.ramData, p.ramBss;
      known, relocated := true, 0;
      if gotEntry >= l.stext && gotEntry < l.etext {
        relocated := Wrap(romStart as int + gotEntry - l.stext);
      } else if gotEntry >= l.sdata && gotEntry < l.edata {
        relocated := Wrap(ramDataStart as int + gotEntry - l.sdata);
      } else if gotEntry >= l.sbss && gotEntry < l.ebss {
        relocated := Wrap(ramBssStart as int + gotEntry - l.sbss);
      } else {
        known := false;
      }
    }

    /**
     * Reads each GOT entry from ROM, classifies it against .text, .data and .bss in that order and
     * stores its run-time address at the next RAM word from `ramGotStart`; stops for good
     * (`halted`) at the first entry that lies in none of them.
     */
    method RelocateGot(l: Layout, p: Placement, ramGotStart: Word) returns (halted: bool, cursor: Word)
      requires WholeWords(l.sgot, l.egot) && Readable(rom, p.romStart, l.sgot, l.egot)
      requires ramGotStart + Span(l.sgot, l.egot) <= Modulus
      modifies this`ram
      ensures var entries := RomWords(rom, p.romStart, l.sgot, l.egot);
              var got := RelocatePrefix(l, p, entries);
              ram == Store(old(ram), ramGotStart, got) && halted == (|got| < |entries|)
      ensures !halted ==> cursor == Wrap(ramGotStart + Span(l.sgot, l.egot))
    {
      ghost var entries := RomWords(rom, p.romStart, l.sgot, l.egot);
      ghost var written: seq<Word> := [];
      var romStart := p.romStart;
      assert WordBytes * |entries| == Span(l.sgot, l.egot);
      cursor := ramGotStart;
      var gotIndex := l.sgot;
      while gotIndex < l.egot
        invariant WordBytes * |entries| == Span(l.sgot, l.egot)
        invariant |written| <= |entries|
        invariant gotIndex == l.sgot + WordBytes * |written|
        invariant cursor == Wrap(ramGotStart + WordBytes * |written|)
        invariant forall k :: 0 <= k < |written| ==> Relocate(l, p, entries[k]) == Some(written[k])
        invariant ram == Store(old(ram), ramGotStart, written)
        decreases l.egot - gotIndex
      {
        ghost var n := |written|;
        assert RomAddr(romStart, l.sgot, n) in rom;
        var gotEntry := rom[Wrap(romStart + gotIndex)];
        assert gotEntry == entries[n];
        var known, relocated := RelocateEntry(l, p, gotEntry);
        if !known {
          // The entry refers to an unknown section: `_start` spins here forever (crt0.c:224).
          RelocatePrefixUnique(l, p, entries, written);
          halted := true;
          return;
        }
        ram := ram[cursor := relocated];
        StoreSnoc(old(ram), ramGotStart, written, relocated);
        RelocatedExtend(l, p, entries, written, relocated);
        written := written + [relocated];
        gotIndex := Wrap(gotIndex + WordBytes);
        cursor := Wrap(cursor + WordBytes);
      }
      RelocatePrefixUnique(l, p, entries, written);
      halted := false;
    }

    /**
     * `_start`: the three stages in order, then the write-back of the new start of unused RAM.
     * The register set-up and the call to `main` are the `Handoff` outcome.
     */
    method Start(iface: Interface, l: Layout) returns (o: Outcome)
      requires Loadable(rom, l, iface.binaryEntryPoint, iface.unusedRamStart)
      modifies this`ram, iface`unusedRamStart
      ensures iface.binaryEntryPoint == old(iface.binaryEntryPoint)
      ensures var run := Expected(rom, l, iface.binaryEntryPoint, old(iface.unusedRamStart));
              o == run.outcome && ram == Store(old(ram), old(iface.unusedRamStart), run.image)
      ensures iface.unusedRamStart == if o.Handoff? then o.unusedRamStart else old(iface.unusedRamStart)
    {
      var romStart := iface.binaryEntryPoint;
      var ramStart := iface.unusedRamStart;
      ghost var ram0 := ram;

      var ramDataStart := ramStart;
      var ramUnusedStart := CopyData(romStart, l.sdata, l.edata, ramStart);

      var ramBssStart := ramUnusedStart;
      ramUnusedStart := ZeroBss(l.sbss, l.ebss, ramBssStart);

      var ramGotStart := ramUnusedStart;
      var p := Placement(romStart, ramDataStart, ramBssStart);
      var halted;
      halted, ramUnusedStart := RelocateGot(l, p, ramGotStart);
      StagesCompose(ram0, rom, l, romStart, ramStart, ramBssStart, ramGotStart);

      if halted {
        return Halted;
      }
      iface.unusedRamStart := ramUnusedStart;
      o := Handoff(ramGotStart, ramUnusedStart);
    }
  }
}
