/** Word-addressed memory and the effect of writing a run of consecutive words into it. */
module Memory {
  import opened Words

  /** A memory: the word held at each mapped address. */
  type Mem = map<Word, Word>

  /** A destination of `n` words starting at `base` that stays inside the 32-bit address space. */
  predicate Fits(base: int, n: nat) {
    0 <= base && base + WordBytes * n <= Modulus
  }

  /** The address of the k-th word of a run that starts at `base`. */
  function Addr(base: int, k: int): int {
    base + WordBytes * k
  }

  /** `m` after storing `ws[0]`, `ws[1]`, ... in that order at `base`, `base + 4`, ... */
  function Store(m: Mem, base: int, ws: seq<Word>): Mem
    requires Fits(base, |ws|)
    decreases |ws|
  {
    if ws == [] then m
    else Store(m, base, ws[..|ws| - 1])[base + WordBytes * (|ws| - 1) := ws[|ws| - 1]]
  }

  /** Storing one more word is one more map update, at the next address. */
  lemma StoreSnoc(m: Mem, base: int, ws: seq<Word>, w: Word)
    requires Fits(base, |ws| + 1)
    ensures Store(m, base, ws + [w]) == Store(m, base, ws)[base + WordBytes * |ws| := w]
  {
    assert (ws + [w])[..|ws|] == ws;
  }

  /** The k-th stored word is found at `base + 4 * k`. */
  lemma {:induction false} StoreAt(m: Mem, base: int, ws: seq<Word>, k: nat)
    requires Fits(base, |ws|) && k < |ws|
    ensures base + WordBytes * k in Store(m, base, ws)
    ensures Store(m, base, ws)[base + WordBytes * k] == ws[k]
  {
    if k < |ws| - 1 {
      StoreAt(m, base, ws[..|ws| - 1], k);
    }
  }

  /** Every stored word can be read back at its address. */
  lemma StoreAtAll(m: Mem, base: int, ws: seq<Word>)
    requires Fits(base, |ws|)
    ensures forall k :: 0 <= k < |ws| ==>
      Addr(base, k) in Store(m, base, ws) && Store(m, base, ws)[Addr(base, k)] == ws[k]
  {
    forall k | 0 <= k < |ws|
      ensures Addr(base, k) in Store(m, base, ws) && Store(m, base, ws)[Addr(base, k)] == ws[k]
    {
      StoreAt(m, base, ws, k);
    }
  }

  /** An address below `base` or at or past the end of the stored words keeps its old contents. */
  lemma {:induction false} StoreOutside(m: Mem, base: int, ws: seq<Word>, a: Word)
    requires Fits(base, |ws|)
    requires a < base || base + WordBytes * |ws| <= a
    ensures a in Store(m, base, ws) <==> a in m
    ensures a in m ==> Store(m, base, ws)[a] == m[a]
  {
    if ws != [] {
      StoreOutside(m, base, ws[..|ws| - 1], a);
    }
  }

  /** No address below `base` or at or past the end of the stored words is touched. */
  lemma StoreOutsideAll(m: Mem, base: int, ws: seq<Word>, from: int)
    requires Fits(base, |ws|) && base + WordBytes * |ws| <= from
    ensures forall a: Word :: a < base || from <= a ==>
      (a in Store(m, base, ws) <==> a in m) && (a in m ==> Store(m, base, ws)[a] == m[a])
  {
    forall a: Word | a < base || from <= a
      ensures (a in Store(m, base, ws) <==> a in m) && (a in m ==> Store(m, base, ws)[a] == m[a])
    {
      StoreOutside(m, base, ws, a);
    }
  }

  /** Two stores of adjacent runs are one store of the concatenated run. */
  lemma {:induction false} StoreAppend(m: Mem, base: int, xs: seq<Word>, ys: seq<Word>)
    requires Fits(base, |xs| + |ys|)
    ensures Store(Store(m, base, xs), base + WordBytes * |xs|, ys) == Store(m, base, xs + ys)
  {
    if ys == [] {
      assert xs + ys == xs;
    } else {
      var ys' := ys[..|ys| - 1];
      StoreAppend(m, base, xs, ys');
      assert (xs + ys)[..|xs + ys| - 1] == xs + ys';
    }
  }

  /**
   * A run stored at the 32-bit address that follows an earlier run extends that store; the address
   * can only have wrapped to 0 when the second run is empty.
   */
  lemma StoreAdjacent(m: Mem, base: int, xs: seq<Word>, b: Word, ys: seq<Word>)
    requires Fits(base, |xs| + |ys|) && b == Wrap(base + WordBytes * |xs|)
    ensures Fits(b, |ys|)
    ensures Store(Store(m, base, xs), b, ys) == Store(m, base, xs + ys)
  {
    if ys == [] {
      assert xs + ys == xs;
    } else {
      StoreAppend(m, base, xs, ys);
    }
  }
}
