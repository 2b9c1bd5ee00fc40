/**
 Where the bit of a block is: the rows of a size class in its chain of index pages,
 as the scan of mem_alloc counts them and as mem_free computes them.
 */
module SlabIndex {
  import opened Machine
  import opened Slab
  import Pager

  /** Entries of an index page that the scan uses: 1 to 510. */
  const USED := 510

  /** Positions number the entries of the whole chain in the order of the scan. */
  function PlaceOf(position: nat): (nat, nat) {
    (position / USED, position % USED + 1)
  }

  /** data_page_row_size, and bitmap_size of mem_alloc */
  function RowStride(c: nat): nat
    requires c < CLASSES
  {
    RoundUp64(Count(c)) / 8 + 1
  }

  /** bitmap_num of mem_alloc: the number a scan starts counting rows with, given the
      class's lowest_free_entry. */
  function FirstNumber(c: nat, lowest: nat): nat
    requires c < CLASSES
  {
    lowest / Count(c)
  }

  /** The index page a scan starts in. */
  function StartPage(c: nat, first: nat): nat
    requires c < CLASSES
  {
    Scaled(first, RowStride(c)) / INDEX_ENTRIES
  }

  function Scaled(n: nat, width: nat): nat {
    n * width
  }

  /** ... and the position; the entry is counted by pages too. */
  function ScanStart(c: nat, first: nat): nat
    requires c < CLASSES
  {
    USED * StartPage(c, first) + StartPage(c, first) % INDEX_ENTRIES
  }

  /** The position of a slot of the row-th row of a scan that starts at `start`: every
      row takes one entry for its data page and then one per iteration of the inner
      loop. */
  function SlotPosition(c: nat, start: nat, row: nat, slot: nat): nat
    requires c < CLASSES
  {
    start + row * (1 + Count(c)) + 1 + slot / WORD
  }

  // ---- the scan ----

  type Word = w: seq<bool> | |w| == WORD witness seq(WORD, _ => false)

  /** The entries of the chain of index pages by position; entries that are not there
      yet are blank, as a new page is. */
  type Index = seq<Word>

  function Blank(): Word {
    seq(WORD, _ => false)
  }

  function WordAt(index: Index, position: nat): Word {
    if position < |index| then index[position] else Blank()
  }

  ghost predicate SlotSet(index: Index, c: nat, start: nat, row: nat, slot: nat)
    requires c < CLASSES
  {
    WordAt(index, SlotPosition(c, start, row, slot))[slot % WORD]
  }

  ghost predicate RowSet(index: Index, c: nat, start: nat, row: nat, limit: nat)
    requires c < CLASSES
  {
    forall slot :: 0 <= slot < limit && slot < Count(c) ==> SlotSet(index, c, start, row, slot)
  }

  ghost predicate RowsSet(index: Index, c: nat, start: nat, rows: nat)
    requires c < CLASSES
  {
    forall row :: 0 <= row < rows ==> RowSet(index, c, start, row, Count(c))
  }

  lemma NextRow(row: nat, width: nat)
    ensures (row + 1) * width == row * width + width
  {
  }

  lemma WordSet(index: Index, c: nat, start: nat, row: nat, i: nat, bits: nat)
    requires c < CLASSES && bits <= WORD && RowSet(index, c, start, row, i * WORD)
    requires var word := WordAt(index, start + row * (1 + Count(c)) + 1 + i);
             forall p :: 0 <= p < bits ==> word[p]
    ensures RowSet(index, c, start, row, i * WORD + bits)
  {
    forall slot | 0 <= slot < i * WORD + bits && slot < Count(c)
      ensures SlotSet(index, c, start, row, slot)
    {
      if slot >= i * WORD {
        assert slot / WORD == i && slot % WORD == slot - i * WORD;
      }
    }
  }

  lemma PastCount(index: Index, c: nat, start: nat, row: nat, i: nat, bit: nat)
    requires c < CLASSES && i * WORD + bit >= Count(c) && RowSet(index, c, start, row, i * WORD + bit)
    ensures RowSet(index, c, start, row, i * WORD + WORD)
  {
  }

  /** confirm_idx_page: an entry past the page is the first of the next one. */
  method Confirm(page: nat, entry: nat, ghost position: nat) returns (page': nat, entry': nat)
    requires 1 <= entry <= INDEX_ENTRIES && position == USED * page + entry - 1
    ensures position == USED * page' + entry' - 1 && 1 <= entry' < INDEX_ENTRIES
    ensures (page', entry') == PlaceOf(position)
  {
    page', entry' := page, entry;
    if entry >= INDEX_ENTRIES {
      page', entry' := page + 1, 1;
    }
    PlaceIs(position, page', entry');
  }

  lemma PlaceIs(position: nat, page: nat, entry: nat)
    requires position == USED * page + entry - 1 && 1 <= entry <= USED
    ensures PlaceOf(position) == (page, entry)
  {
  }

  /** The scan of mem_alloc over the whole chain, for as many rows as it takes: the slot
      found is the first free one in the order of the scan, `number` is what the
      header of its data page says, and its bit is at the slot's position. */
  method ScanRows(index: Index, c: nat, lowest: nat) returns (page: nat, entry: nat, number: nat, slot: nat)
    requires c < CLASSES
    ensures var first := FirstNumber(c, lowest);
            var start := ScanStart(c, first);
            && number >= first && slot < Count(c)
            && (page, entry) == PlaceOf(SlotPosition(c, start, number - first, slot))
            && !SlotSet(index, c, start, number - first, slot)
            && RowsSet(index, c, start, number - first) && RowSet(index, c, start, number - first, slot)
  {
    number := lowest / Count(c);
    ghost var first := number;
    ghost var start := ScanStart(c, first);
    page := StartPage(c, number);
    entry := page % INDEX_ENTRIES + 1;
    var found := false;
    ghost var position := start;
    while true
      invariant number >= first && position == start + (number - first) * (1 + Count(c))
      invariant 1 <= entry <= INDEX_ENTRIES && position == USED * page + entry - 1
      invariant RowsSet(index, c, start, number - first)
      decreases |index| - position
    {
      found, page, entry, slot := ScanRow(index, c, start, number - first, page, entry);
      if found {
        return;
      }
      NextRow(number - first, 1 + Count(c));
      position := position + 1 + Count(c);
      number := number + 1;
    }
  }

  /** One row: the entry of its data page, then its words. */
  method ScanRow(index: Index, c: nat, ghost start: nat, ghost row: nat, page0: nat, entry0: nat) returns (found: bool, page: nat, entry: nat, slot: nat)
    requires c < CLASSES && 1 <= entry0 <= INDEX_ENTRIES
    requires USED * page0 + entry0 - 1 == start + row * (1 + Count(c))
    ensures found ==>
              && slot < Count(c) && (page, entry) == PlaceOf(SlotPosition(c, start, row, slot))
              && !SlotSet(index, c, start, row, slot) && RowSet(index, c, start, row, slot)
    ensures !found ==>
              && 1 <= entry <= INDEX_ENTRIES && USED * page + entry - 1 == USED * page0 + entry0 - 1 + 1 + Count(c)
              && RowSet(index, c, start, row, Count(c)) && USED * page0 + entry0 - 1 < |index|
  {
    ghost var base := USED * page0 + entry0 - 1;
    page, entry := Confirm(page0, entry0, base);
    entry, slot := entry + 1, 0;
    for i := 0 to Count(c)
      invariant 1 <= entry <= INDEX_ENTRIES && USED * page + entry - 1 == base + 1 + i
      invariant RowSet(index, c, start, row, i * WORD)
      invariant i > 0 ==> base < |index|
    {
      page, entry := Confirm(page, entry, base + 1 + i);
      var word := WordAt(index, USED * page + entry - 1);
      assert base + 1 >= |index| && i == 0 ==> !word[0];
      if Pager.FullWord(word, 0) {
        WordSet(index, c, start, row, i, WORD);
      } else {
        var bit := Pager.LowestClear(word, 0, 0);
        WordSet(index, c, start, row, i, bit);
        slot := i * WORD + bit;
        if slot < Count(c) {
          SlotFound(c, start, row, i, bit);
          return true, page, entry, slot;
        }
        PastCount(index, c, start, row, i, bit);
      }
      NextRow(i, WORD);
      entry := entry + 1;
    }
    found := false;
  }

  lemma SlotFound(c: nat, start: nat, row: nat, i: nat, bit: nat)
    requires c < CLASSES && bit < WORD
    ensures SlotPosition(c, start, row, i * WORD + bit) == start + row * (1 + Count(c)) + 1 + i
    ensures (i * WORD + bit) % WORD == bit
  {
    assert (i * WORD + bit) / WORD == i;
  }

  // ---- the other direction ----

  /** bitmap_entry_num of mem_free */
  function FreedPosition(c: nat, number: nat, slot: nat): nat
    requires c < CLASSES
  {
    slot / WORD + number * RowStride(c) + 1
  }

  /** The index page and the entry that mem_free looks at. */
  function FreePlace(c: nat, number: nat, slot: nat): (nat, nat)
    requires c < CLASSES
  {
    (FreedPosition(c, number, slot) / INDEX_ENTRIES, FreedPosition(c, number, slot) % INDEX_ENTRIES + 1)
  }

  lemma SamePlace(position: nat, freed: nat)
    ensures (freed / INDEX_ENTRIES, freed % INDEX_ENTRIES + 1) == PlaceOf(position) <==> freed == position + position / USED
  {
    var p, e := position / USED, position % USED;
    assert position == USED * p + e;
    if freed == position + p {
      assert freed == INDEX_ENTRIES * p + e;
    }
  }

  /** For every block, in whatever row and index page its bit is and whatever number
      its data page's header has: mem_free looks at the bit that mem_alloc set if and
      only if this equation holds between the two counts. */
  lemma FreeFindsBit(c: nat, start: nat, row: nat, number: nat, slot: nat)
    requires c < CLASSES && slot < Count(c)
    ensures var position := SlotPosition(c, start, row, slot);
            FreePlace(c, number, slot) == PlaceOf(position)
            <==> FreedPosition(c, number, slot) == position + position / USED
  {
    SamePlace(SlotPosition(c, start, row, slot), FreedPosition(c, number, slot));
  }

  /** In the first index page that is an equation between the strides. */
  lemma FirstIndexPage(c: nat, row: nat, number: nat, slot: nat)
    requires c < CLASSES && slot < Count(c) && SlotPosition(c, 0, row, slot) < USED
    ensures FreePlace(c, number, slot) == PlaceOf(SlotPosition(c, 0, row, slot))
       <==> number * RowStride(c) == row * (1 + Count(c))
  {
    FreeFindsBit(c, 0, row, number, slot);
  }

  lemma Strides(c: nat)
    requires c < CLASSES
    ensures RowStride(c) != 1 + Count(c)
  {
  }

  lemma DifferentStrides(row: nat, a: nat, b: nat)
    requires a != b
    ensures row * a == row * b <==> row == 0
  {
  }

  /** A block of the class's first data page is always found. */
  lemma FirstDataPage(c: nat, lowest: nat, slot: nat)
    requires c < CLASSES && lowest < Count(c) && slot < Count(c)
    ensures FirstNumber(c, lowest) == 0 && ScanStart(c, 0) == 0
    ensures FreePlace(c, 0, slot) == PlaceOf(SlotPosition(c, 0, 0, slot))
  {
    FirstIndexPage(c, 0, 0, slot);
  }

  /** While rows are counted from 0 in the first index page, it is the only one. */
  lemma CountedFromZero(c: nat, row: nat, slot: nat)
    requires c < CLASSES && slot < Count(c) && SlotPosition(c, 0, row, slot) < USED
    ensures FreePlace(c, row, slot) == PlaceOf(SlotPosition(c, 0, row, slot)) <==> row == 0
  {
    FirstIndexPage(c, row, row, slot);
    Strides(c);
    DifferentStrides(row, RowStride(c), 1 + Count(c));
  }

  /** Two blocks of 2048 bytes: the second is in the second row, its bit is in entry
      4, and mem_free looks at entry 11. */
  lemma SecondHalfPage()
    ensures Count(11) == 1 && PlaceOf(SlotPosition(11, 0, 1, 0)) == (0, 4) && FreePlace(11, 1, 0) == (0, 11)
  {
  }

  /** Far outside the first data page the two counts can meet again: a scan for 256
      bytes that starts with number 399 finds the row with number 400 in the eighth
      index page, where mem_free looks as well. */
  lemma CountsMeetAgain()
    ensures PlaceOf(SlotPosition(8, ScanStart(8, 399), 1, 0)) == (7, 25) == FreePlace(8, 400, 0)
  {
    assert Count(8) == 15 && RowStride(8) == 9;
    assert StartPage(8, 399) == 7;
    assert SlotPosition(8, ScanStart(8, 399), 1, 0) == 3594;
    assert FreedPosition(8, 400, 0) == 3601;
    PlaceIs(3594, 7, 25);
  }
}
