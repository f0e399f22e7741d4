# Relocating start-up of the Pip root partition, in Dafny

This project models `_start`, the start-up routine that Pip's root partition runs before `main`
on a 32-bit ARMv7 target. The routine is handed an `interface_t` holding the address where the
position-independent binary sits in ROM (`binaryEntryPoint`) and the first unused RAM address
(`unusedRamStart`). It then, driven by one running RAM cursor:

1. copies `.data` word by word from ROM (`romStart + [_sdata, _edata)`) to RAM at `unusedRamStart`;
2. writes a zero word for every word of `.bss`, right after the copied data;
3. reads every Global Offset Table (GOT) entry from ROM and classifies it against the half-open
   link-time ranges of `.text`, `.data` and `.bss`, tested in that order. It stores the entry's
   run-time address into a RAM GOT placed right after `.bss`: a `.text` entry is re-based onto
   ROM, a `.data` or `.bss` entry onto its RAM copy. An entry in none of the ranges makes the
   routine spin forever;
4. writes the final cursor back to `interface->unusedRamStart`, puts the RAM GOT base in r10 and
   calls `main`.

The model:

- `words.dfy` (`Words`): `Word`, the `uint32_t` values, and `Wrap`, 32-bit wrap-around.
- `memory.dfy` (`Memory`): a memory is a map from byte address to word. `Store(m, base, ws)` is `m`
  after the words `ws` are stored at `base`, `base + 4`, and so on. Its lemmas say where each word
  lands, that nothing outside the run changes, and how adjacent runs compose.
- `sections.dfy` (`Sections`): the linker symbols as a `Layout` value. `Classify` gives the first
  section whose range holds an entry; `Relocate` gives an entry's run-time address.
  `RelocatePrefix` gives the words the GOT loop writes before it finishes or halts.
- `crt0.dfy` (`Crt0`): `Interface` is the two-field `interface_t`. `Machine` holds ROM (a
  constant) and RAM (a field the routine updates). Its methods are the three loops and `Start`.
  Each method is proved against `Store` and the pure reference `Expected`, which gives the words
  written from `ramStart` and the `Outcome`: `Halted`, or `Handoff(gotBase, unusedRamStart)` in place
  of the r10 set-up and the call to `main`.
- `properties.dfy` (`Crt0Properties`): what the routine guarantees, stated on `Expected`.
- `scenarios.dfy` (`Crt0Scenarios`): a two-word `.data`, one-word `.bss` and one-entry GOT image.
  There is one scenario where the entry is the start of `.data` and one where it lies in no section.

Notes on the code as written, which the model follows:

- The ROM words of `.data` and of the GOT are read at `romStart + offset`. A `.text` entry, though,
  is relocated to `romStart + (entry - _stext)`. The two agree only when `_stext` is 0.
- A range whose start is not below its end is visited zero times, because every loop tests
  `index < end`, so an empty range leaves the free-RAM cursor where it was. The cursor is a
  `uint32_t`: it never decreases while the RAM being filled ends below 2^32, but when that RAM
  ends exactly at 2^32 the final cursor wraps round to 0 (`Crt0Scenarios.TopOfRamScenario`).
- The model needs only the lengths of `.data`, `.bss` and the GOT to be whole words. The C code
  also assumes the sections and `ramStart` are word-aligned for its `uint32_t` loads and stores,
  which a word-granular memory does not capture (see "## Left out").

## Model

| member | source | states |
|---|---|---|
| `Crt0.Machine.Start` | crt0.c:151-248 | The outcome and the new RAM are those of `Expected`: data, zeros and relocated GOT words stored from the old `unusedRamStart`. `unusedRamStart` is updated to the final cursor only on hand-off and is unchanged on a halt. `binaryEntryPoint` and ROM are untouched. |
| `Crt0.Machine.CopyData` | crt0.c:159-174 | RAM becomes the old RAM with the ROM words of [`_sdata`, `_edata`) stored in order from `ramStart`. The cursor ends `_edata - _sdata` bytes further on, wrapped like a `uint32_t`. |
| `Crt0.Machine.ZeroBss` | crt0.c:176-189 | RAM becomes the old RAM with one zero word stored per `.bss` word from the `.bss` base. The cursor ends `_ebss - _sbss` bytes further on. |
| `Crt0.Machine.RelocateGot` | crt0.c:191-229 | RAM becomes the old RAM with `RelocatePrefix` of the ROM GOT stored from the RAM GOT base. The loop halts exactly when some entry cannot be relocated. Otherwise the cursor ends `_egot - _sgot` bytes further on. |
| `Crt0.Machine.RelocateEntry` | crt0.c:202-225 | For one entry, the if/else-if chain finds a section exactly when `Classify` does. The address it computes is `Relocate`'s. |
| `Crt0.StagesCompose` | crt0.c:157-196 | The three stages write adjacent runs that share one cursor. `.bss` starts where `.data` ends and the GOT starts where `.bss` ends, so together they are the one store `Expected` describes. |
| `Sections.Classify` | crt0.c:204-225 | A found section's half-open range [start, end) holds the entry, and no section tested before it does. So a range's end is outside it, and the first match wins when ranges overlap. No section is found only when no range holds the entry. |
| `Sections.RelocateKeepsOffset` | crt0.c:204-218 | A relocated entry lands inside the run-time copy of its section, at the offset the entry had in the link-time range. So the entry can be recovered from the relocated address. |
| `Sections.Relocate` | crt0.c:204-218 | An entry gets a run-time address exactly when `Classify` finds its section. A `.text` entry is re-based onto `romStart`, a `.data` entry onto `ramDataStart` and a `.bss` entry onto `ramBssStart`, wrapped to 32 bits. The contract states that an address is produced if and only if a section is found; `Sections.RelocateUndo` states what the address is. |
| `Sections.RelocateUndo` | crt0.c:204-218 | For any placement, subtracting the section's run-time start from the relocated address, as a `uint32_t`, gives back the entry's offset into its link-time range. |
| `Crt0.Expected` | crt0.c:151-232 | The reference run: the words stored from `ramStart` are the `.data` words, then the `.bss` zeros, then the relocated GOT prefix. It hands off exactly when the whole GOT was written. On hand-off, the GOT base is `ramStart` plus the `.data` and `.bss` words, and the new `unusedRamStart` is just past the last word written. |
| `Sections.RelocatePrefix` | crt0.c:200-229 | The GOT words written are the relocations of the first entries, in order, up to the first entry that cannot be relocated. |
| `Sections.RelocatePrefixUnique` | crt0.c:200-229 | Any run of relocations that stops exactly at the first failing entry is `RelocatePrefix`. |
| `Crt0Properties.DataCopied` | crt0.c:162-174 | For every word k of `.data`, RAM at `ramStart + 4k` holds the ROM word at `romStart + _sdata + 4k`. |
| `Crt0Properties.BssZeroed` | crt0.c:178-189 | Every word of the `.bss` area, which starts at `ramStart + (_edata - _sdata)`, reads 0 whatever RAM held before. |
| `Crt0Properties.HandoffIffAllKnown` | crt0.c:219-244 | `main` is reached if and only if every GOT entry lies in `.text`, `.data` or `.bss`. |
| `Crt0Properties.GotRelocated` | crt0.c:192-232 | On hand-off the RAM GOT base is `ramStart + (_edata - _sdata) + (_ebss - _sbss)`. The new `unusedRamStart` is `ramStart` plus all three lengths. The k-th RAM GOT word is the relocation of the k-th ROM GOT entry. |
| `Crt0Properties.HaltStopsWrites` | crt0.c:219-225 | On a halt, the faulting entry is the first one in no section. All entries before it were known. The faulting entry's RAM GOT slot and every address above it are unchanged. |
| `Crt0Properties.OutsideUnchanged` | crt0.c:167-229 | Whatever the outcome, no RAM address outside [`ramStart`, `ramStart` + the three lengths) is written. |
| `Crt0Scenarios.SmallLayoutBoundaries` | crt0.c:204-218 | The first address of each range (0x000 for `.text`, 0x104 for `.data`, 0x10c for `.bss`) and the last `.text` address classify into their range. An address equal to a range's end (0x100, 0x10c, 0x110) does not classify into that range. |
| `Crt0Scenarios.DataEntryScenario` | crt0.c:151-232 | The image has data words 0x11111111 and 0x22222222, one `.bss` word and a GOT entry equal to `_sdata`. RAM from F reads 0x11111111, 0x22222222, 0, F. The GOT is at F+12 and unused RAM starts at F+16. |
| `Crt0Scenarios.UnknownEntryScenario` | crt0.c:200-225 | With a GOT entry in no section, the routine halts after writing only `.data` and `.bss`. The GOT slot at F+12 is left as it was. |
| `Crt0Scenarios.TopOfRamScenario` | crt0.c:173-232 | Loaded into the last 16 bytes of RAM, the run hands off with the GOT at the last word (2^32 - 4) and the `uint32_t` cursor wrapped round to 0. |
| `Words.Wrap` | crt0.c:172-173 | A `uint32_t` sum: the value itself when it is below 2^32, and the value less 2^32 when it overflows by less than 2^32. |

## Left out

- The inline assembly that loads the RAM GOT base into r10 (crt0.c:235-241) writes machine-register state. It is represented only as `Handoff.gotBase`.
- The call to `main` and the `for (;;)` after it (crt0.c:244-247) are a foreign control transfer that never returns. They become the `Handoff` outcome, so what `main` does, and a return from it, are not modelled.
- The spin at crt0.c:224 is modelled as the `Halted` outcome, not as an infinite loop. The model does not say what the RAM cursor holds at that point.
- `link.ld` and `interface.h` are not part of this model. The linker symbols are the opaque `Layout` parameters, and `interface_t` is the two-field class `Interface`.
- relocator/gdbinit.py reads ELF symbol tables through a library and prints debugger commands. That is I/O over code outside this model, and it plays no part in the start-up.
- ROM and RAM are two separate maps, whereas in `_start` they share one 32-bit address space. So the model takes as given that the RAM destination [`ramStart`, `ramStart` + the three lengths) overlaps neither the ROM words of `.data` and the GOT that the loops read (crt0.c:170, 202) nor any other ROM word. That no store reaches the read-only image is therefore an assumption of the model, not a proved fact.
- Memory is word-granular: a map from byte address to a 32-bit word. Bytes and overlapping unaligned words are not modelled. The copied, zeroed and relocated ranges must be sized in whole words (`WholeWords`); the C code assumes this without checking. It also assumes, without checking, that `romStart + _sdata`, `romStart + _sgot` and `ramStart` are 4-aligned, since a misaligned `uint32_t` access is undefined in C; the model does not capture alignment.
- `Crt0.Machine.Start`: requires the RAM it fills to end at or below 2^32 and the ROM words it loads to be mapped (`Loadable`). The C code assumes both of the loader. Cursor and address sums still wrap like `uint32_t`.
