/** The link-time section layout of the partition binary and the relocation of one GOT entry. */
module Sections {
  import opened Words

  datatype Option<T> = None | Some(value: T)

  /** The linker symbols `_stext` .. `_ebss`: offsets from the start of the binary. */
  datatype Layout = Layout(
    stext: Word, etext: Word,
    sgot: Word, egot: Word,
    sdata: Word, edata: Word,
    sbss: Word, ebss: Word)

  /** Bytes visited by a loop that starts at `s` and steps while the index is below `e`. */
  function Span(s: Word, e: Word): nat {
    if s < e then e - s else 0
  }

  /** The range is sized in whole words (an empty or inverted range is never entered). */
  predicate WholeWords(s: Word, e: Word) {
    Span(s, e) % WordBytes == 0
  }

  function WordCount(s: Word, e: Word): nat {
    Span(s, e) / WordBytes
  }

  /** The sections a GOT entry may point into, in the order they are tested. */
  datatype Section = Text | Data | Bss

  function Rank(s: Section): nat {
    match s
    case Text => 0
    case Data => 1
    case Bss => 2
  }

  function LinkStart(l: Layout, s: Section): Word {
    match s
    case Text => l.stext
    case Data => l.sdata
    case Bss => l.sbss
  }

  function LinkEnd(l: Layout, s: Section): Word {
    match s
    case Text => l.etext
    case Data => l.edata
    case Bss => l.ebss
  }

  /** Membership in the half-open link-time range [start, end) of section `s`. */
  predicate Contains(l: Layout, s: Section, e: Word) {
    LinkStart(l, s) <= e < LinkEnd(l, s)
  }

  /** The section a GOT entry belongs to: the first, in the order text, data, bss, whose range holds it. */
  function Classify(l: Layout, e: Word): (r: Option<Section>)
    ensures r.Some? ==> Contains(l, r.value, e)
    ensures r.Some? ==> forall s :: Rank(s) < Rank(r.value) ==> !Contains(l, s, e)
    ensures r.None? ==> forall s :: !Contains(l, s, e)
  {
    if l.stext <= e < l.etext then Some(Text)
    else if l.sdata <= e < l.edata then Some(Data)
    else if l.sbss <= e < l.ebss then Some(Bss)
    else None
  }

  /** Where each section lives once the binary runs: text stays in ROM, data and bss move to RAM. */
  datatype Placement = Placement(romStart: Word, ramData: Word, ramBss: Word)

  function RuntimeStart(p: Placement, s: Section): Word {
    match s
    case Text => p.romStart
    case Data => p.ramData
    case Bss => p.ramBss
  }

  /** The run-time address for a GOT entry, or None when it lies in no known section. */
  function Relocate(l: Layout, p: Placement, e: Word): (r: Option<Word>)
    ensures r.Some? <==> Classify(l, e).Some?
  {
    match Classify(l, e)
    case None => None
    case Some(s) => Some(Wrap(RuntimeStart(p, s) + e - LinkStart(l, s)))
  }

  /**
   * Relocation can be undone: subtracting the section's run-time start from the relocated address,
   * as a `uint32_t`, gives back the entry's offset into its link-time range, wherever the section sits.
   */
  lemma RelocateUndo(l: Layout, p: Placement, e: Word)
    requires Classify(l, e).Some?
    ensures Relocate(l, p, e).Some?
    ensures var s := Classify(l, e).value;
      Wrap(Relocate(l, p, e).value - RuntimeStart(p, s)) == e - LinkStart(l, s)
  {
  }

  /**
   * A relocated entry keeps its offset into its section: when the section's run-time copy fits
   * below 2^32, the new address lies inside that copy, at the distance from its start that the
   * entry had from the section's link-time start. So the entry can be recovered from it.
   */
  lemma RelocateKeepsOffset(l: Layout, p: Placement, e: Word)
    requires Classify(l, e).Some?
    requires RuntimeStart(p, Classify(l, e).value) + Span(LinkStart(l, Classify(l, e).value), LinkEnd(l, Classify(l, e).value)) <= Modulus
    ensures Relocate(l, p, e).Some?
    ensures var s := Classify(l, e).value; var r := Relocate(l, p, e).value;
      RuntimeStart(p, s) <= r < RuntimeStart(p, s) + Span(LinkStart(l, s), LinkEnd(l, s)) &&
      e == LinkStart(l, s) + (r - RuntimeStart(p, s))
  {
  }

  /**
   * The relocations of the longest prefix of `entries` whose every entry can be relocated:
   * the GOT words written before the start-up code either finishes or meets an entry it cannot place.
   */
  function RelocatePrefix(l: Layout, p: Placement, entries: seq<Word>): (r: seq<Word>)
    ensures |r| <= |entries|
    ensures forall k :: 0 <= k < |r| ==> Relocate(l, p, entries[k]) == Some(r[k])
    ensures |r| < |entries| ==> Relocate(l, p, entries[|r|]).None?
  {
    if entries == [] then []
    else match Relocate(l, p, entries[0])
      case None => []
      case Some(w) => [w] + RelocatePrefix(l, p, entries[1..])
  }

  /** Relocations of the first |ws| entries, extended by one more relocated entry. */
  lemma RelocatedExtend(l: Layout, p: Placement, entries: seq<Word>, ws: seq<Word>, w: Word)
    requires |ws| < |entries|
    requires forall k :: 0 <= k < |ws| ==> Relocate(l, p, entries[k]) == Some(ws[k])
    requires Relocate(l, p, entries[|ws|]) == Some(w)
    ensures forall k :: 0 <= k < |ws + [w]| ==> Relocate(l, p, entries[k]) == Some((ws + [w])[k])
  {
  }

  /** The contract of RelocatePrefix determines it: any run of relocations that stops exactly at the first failure is it. */
  lemma {:induction false} RelocatePrefixUnique(l: Layout, p: Placement, entries: seq<Word>, ws: seq<Word>)
    requires |ws| <= |entries|
    requires forall k :: 0 <= k < |ws| ==> Relocate(l, p, entries[k]) == Some(ws[k])
    requires |ws| < |entries| ==> Relocate(l, p, entries[|ws|]).None?
    ensures RelocatePrefix(l, p, entries) == ws
  {
    var r := RelocatePrefix(l, p, entries);
    if |r| < |ws| {
      assert false;
    } else if |ws| < |r| {
      assert false;
    } else {
      assert forall k :: 0 <= k < |r| ==> Some(r[k]) == Some(ws[k]);
    }
  }
}
