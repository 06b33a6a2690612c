/**
 * The transposition table: a fixed number of slots, each holding at most
 * one entry, addressed by the position hash modulo the number of slots.
 * A lookup answers only when the stored entry carries the very hash asked
 * for; an insertion always replaces whatever the slot held.
 */
module Transposition {
  import opened Options
  import opened Scores

  const U64_LIMIT: int := 0x1_0000_0000_0000_0000
  type U64 = x: int | 0 <= x < U64_LIMIT

  /** What the stored score says about the true value of the position. */
  datatype NodeType = Exact | UpperBound | LowerBound

  /** One stored search result; the move type is left abstract. */
  datatype Entry<M> = Entry(hash: U64, depth: I16, score: Score, nodeType: NodeType, bestMove: Option<M>)

  /** The slot a hash is stored in. */
  function SlotOf(hash: U64, size: nat): (i: nat)
    requires size > 0
    ensures i < size
  {
    hash % size
  }

  /** A lookup on the slot contents: the entry in the hash's slot, if it was stored under that hash. */
  function Lookup<M>(slots: seq<Option<Entry<M>>>, hash: U64): (r: Option<Entry<M>>)
    requires |slots| > 0
    ensures r.Some? ==> r.value.hash == hash && slots[SlotOf(hash, |slots|)] == r
    ensures r.None? <==> slots[SlotOf(hash, |slots|)].None? || slots[SlotOf(hash, |slots|)].value.hash != hash
  {
    var slot := slots[SlotOf(hash, |slots|)];
    if slot.Some? && slot.value.hash == hash then slot else None
  }

  /** An insertion on the slot contents: the hash's slot now holds the new entry. */
  function Store<M>(slots: seq<Option<Entry<M>>>, entry: Entry<M>): (r: seq<Option<Entry<M>>>)
    requires |slots| > 0
    ensures |r| == |slots|
    ensures r[SlotOf(entry.hash, |slots|)] == Some(entry)
    ensures forall i :: 0 <= i < |slots| && i != SlotOf(entry.hash, |slots|) ==> r[i] == slots[i]
  {
    slots[SlotOf(entry.hash, |slots|) := Some(entry)]
  }

  /** A lookup right after an insertion under the same hash returns the inserted entry. */
  lemma LookupAfterStore<M>(slots: seq<Option<Entry<M>>>, entry: Entry<M>)
    requires |slots| > 0
    ensures Lookup(Store(slots, entry), entry.hash) == Some(entry)
  {
  }

  /** An insertion leaves the answers for hashes of other slots unchanged. */
  lemma StoreKeepsOtherSlots<M>(slots: seq<Option<Entry<M>>>, entry: Entry<M>, hash: U64)
    requires |slots| > 0
    requires SlotOf(hash, |slots|) != SlotOf(entry.hash, |slots|)
    ensures Lookup(Store(slots, entry), hash) == Lookup(slots, hash)
  {
  }

  /** A different hash that shares the slot is evicted: its lookup now misses. */
  lemma StoreEvictsCollisions<M>(slots: seq<Option<Entry<M>>>, entry: Entry<M>, hash: U64)
    requires |slots| > 0
    requires SlotOf(hash, |slots|) == SlotOf(entry.hash, |slots|) && hash != entry.hash
    ensures Lookup(Store(slots, entry), hash) == None
  {
  }

  /** Replacement is unconditional: whatever depth either entry has, the later one wins. */
  lemma StoreReplacesUnconditionally<M>(slots: seq<Option<Entry<M>>>, first: Entry<M>, second: Entry<M>)
    requires |slots| > 0
    requires SlotOf(first.hash, |slots|) == SlotOf(second.hash, |slots|)
    ensures Store(Store(slots, first), second) == Store(slots, second)
    ensures Lookup(Store(Store(slots, first), second), second.hash) == Some(second)
  {
  }

  /** A table of empty slots answers no lookup. */
  lemma EmptySlotsMiss<M>(slots: seq<Option<Entry<M>>>, hash: U64)
    requires |slots| > 0 && slots == seq(|slots|, _ => None)
    ensures Lookup(slots, hash) == None
  {
  }

  /** The table object: an array of slots and its size. */
  class TranspositionTable<M> {
    var entries: array<Option<Entry<M>>>
    var size: nat

    predicate Valid()
      reads this
    {
      entries.Length == size
    }

    /** A table of the given size with every slot empty. */
    constructor (size: nat)
      ensures Valid() && fresh(entries)
      ensures this.size == size
      ensures entries[..] == seq(size, _ => None)
    {
      this.size := size;
      entries := new Option<Entry<M>>[size](_ => None);
      new;
      assert entries[..] == seq(size, _ => None);
    }

    /** The entry stored under this hash, if any; the source has no answer for a table of size zero. */
    function Get(hash: U64): (r: Option<Entry<M>>)
      reads this, entries
      requires Valid() && size > 0
      ensures r == Lookup(entries[..], hash)
      ensures r.Some? ==> r.value.hash == hash
    {
      var slot := entries[hash % size];
      if slot.Some? && slot.value.hash == hash then slot else None
    }

    /** Store an entry in its hash's slot, replacing the slot's previous content. */
    method Insert(hash: U64, depth: I16, score: Score, nodeType: NodeType, bestMove: Option<M>)
      requires Valid() && size > 0
      modifies entries
      ensures Valid() && size == old(size) && entries == old(entries)
      ensures entries[..] == Store(old(entries[..]), Entry(hash, depth, score, nodeType, bestMove))
      ensures Get(hash) == Some(Entry(hash, depth, score, nodeType, bestMove))
    {
      var index := hash % size;
      entries[index] := Some(Entry(hash, depth, score, nodeType, bestMove));
      LookupAfterStore(old(entries[..]), Entry(hash, depth, score, nodeType, bestMove));
    }
  }
}
