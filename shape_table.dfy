/** The shape table of a property lineage: an open-addressed hash table of
    `2^log2` entries from property ids to shapes, probed by double hashing.
    The table keeps its hash shift, its entry and removed counts and the
    entry array as fields, and `search`, `init`, `change`, `grow` and the
    removal bookkeeping update them in place. */
module ShapeTableImpl {
  import opened ShapeHash
  import opened ShapeEntries

  // ---------------------------------------------------------------------
  // Sizing.

  /** `CeilingLog2Size(n)`: the least `k` with `n <= 2^k`. */
  function CeilingLog2(n: nat): (k: nat)
    ensures n <= Pow2(k)
    ensures k > 0 ==> Pow2(k - 1) < n
  {
    if n <= 1 then 0 else 1 + CeilingLog2((n + 1) / 2)
  }

  /** A table of `2^log2` entries holding `n` entries is below its 3/4 load
      limit, `n < size - (size >> 2)`. */
  predicate BelowLoadLimit(n: nat, log2: nat)
  {
    n < Pow2(log2) - Pow2(log2) / 4
  }

  /** The size `init` picks for `n` entries: the ceiling of `log2(n)`, one
      more bit when that table would be at its load limit, and never less
      than `minSizeLog2`. */
  function InitLog2(n: nat, minSizeLog2: nat): nat
  {
    var sizeLog2 := CeilingLog2(n);
    var bumped := if n >= Pow2(sizeLog2) - Pow2(sizeLog2) / 4 then sizeLog2 + 1 else sizeLog2;
    if bumped < minSizeLog2 then minSizeLog2 else bumped
  }

  /** `init` picks the least size of at least `2^minSizeLog2` that keeps the
      table below its load limit. */
  lemma InitLog2Least(n: nat, minSizeLog2: nat)
    ensures var log2 := InitLog2(n, minSizeLog2);
            && minSizeLog2 <= log2
            && BelowLoadLimit(n, log2)
            && (log2 > minSizeLog2 ==> !BelowLoadLimit(n, log2 - 1))
  {
    var k := CeilingLog2(n);
    var log2 := InitLog2(n, minSizeLog2);
    if n >= Pow2(k) - Pow2(k) / 4 {
      assert Pow2(k + 1) == 2 * Pow2(k);
      if k > 0 {
        assert Pow2(k) == 2 * Pow2(k - 1);
      }
      assert BelowLoadLimit(n, k + 1);
    }
    if log2 == minSizeLog2 && minSizeLog2 > k + 1 {
      Pow2Mono(k + 1, minSizeLog2);
      assert Pow2(minSizeLog2) == 2 * Pow2(minSizeLog2 - 1);
      Pow2Mono(k, minSizeLog2 - 1);
    } else if log2 == minSizeLog2 && minSizeLog2 == k + 1 {
      assert Pow2(minSizeLog2) == 2 * Pow2(k);
    }
  }

  // ---------------------------------------------------------------------
  // The table.

  /** The probe step of `search`, `hash1 -= hash2; hash1 &= sizeMask`: a
      32-bit subtraction, then the low `log2` bits. */
  method NextIndex(hash1: HashNumber, hash2: HashNumber, log2: nat, ghost path: Path, ghost k: nat)
    returns (r: HashNumber)
    requires PathOk(path) && hash1 == At(path, k) && hash2 == path.hash2 && log2 == path.log2
    ensures r == At(path, k + 1)
  {
    AtNext(path, k);
    r := (hash1 - hash2) % HashLimit;
    r := Mask(r, log2);
  }

  class ShapeTable {
    /** `MIN_SIZE_LOG2`: the table never has fewer than `2^minSizeLog2`
        entries. */
    const minSizeLog2: nat
    /** `HashId`: the hash number of a property id. */
    const hashOf: PropertyId -> HashNumber

    /** `hashShift_`: `HashBits` minus the number of address bits. */
    var hashShift: nat
    /** `entryCount_`: the live entries, as the table's owner counts them. */
    var entryCount: nat
    /** `removedCount_`: the removed entries, as the table's owner counts
        them. */
    var removedCount: nat
    /** `entries_`: the entry array, empty until `init` allocates it. */
    var entries: array<Entry>

    function Log2(): nat
      reads this
      requires hashShift <= HashBits
    {
      HashBits - hashShift
    }

    /** `capacity()`: `2^(HashBits - hashShift)`. */
    function Capacity(): nat
      reads this
      requires hashShift <= HashBits
    {
      Pow2(Log2())
    }

    /** `MIN_SIZE`. */
    function MinSize(): nat
      reads this
    {
      Pow2(minSizeLog2)
    }

    /** `needsToGrow()`: live and removed entries together reach 3/4 of the
        capacity. */
    predicate NeedsToGrow()
      reads this
      requires hashShift <= HashBits
    {
      !BelowLoadLimit(entryCount + removedCount, Log2())
    }

    /** The probe path of `id` at the current size. */
    function PathOf(id: PropertyId): (p: Path)
      reads this
      requires hashShift <= HashBits && Geometry(Log2())
      ensures PathOk(p) && p.log2 == Log2()
    {
      PathFor(hashOf, id, Log2())
    }

    /** The shapes the table holds. */
    ghost function Shapes(): set<Shape>
      reads this, entries
    {
      Contents(entries[..])
    }

    /** The table invariant: the array has `capacity()` entries, each id
        has at most one live entry and that entry is reachable by its
        probe, the counts bound the live and removed entries, and at least
        one entry is free. */
    ghost predicate Valid()
      reads this, entries
    {
      && 1 <= minSizeLog2
      && hashShift <= HashBits && Geometry(Log2()) && minSizeLog2 <= Log2()
      && entries.Length == Capacity()
      && Unique(entries[..]) && Chained(entries[..], hashOf, Log2())
      && CountLive(entries[..]) <= entryCount
      && CountRemoved(entries[..]) <= removedCount
      && entryCount + removedCount < entries.Length
    }

    /** One step of the probe loop of `search` past an entry that is
        neither free nor live for `id`: remember the first removed entry,
        and when adding, set the collision bit of a live one. */
    method ProbeStep(id: PropertyId, adding: bool, index: nat, haveRemoved: bool, firstRemoved: nat,
                     ghost es0: seq<Entry>, ghost path: Path, ghost t: nat)
      returns (haveRemoved': bool, firstRemoved': nat)
      requires Probing(es0, entries[..], path, id, adding, t, haveRemoved, firstRemoved)
      requires index == At(path, t + 1) && !entries[index].Free? && !Matches(entries[index], id)
      modifies entries
      ensures Probing(es0, entries[..], path, id, adding, t + 1, haveRemoved', firstRemoved')
    {
      ghost var cur := entries[..];
      ProbingFlagsOnly(es0, cur, path, id, adding, t, haveRemoved, firstRemoved);
      ProbingNext(es0, cur, path, id, adding, t, haveRemoved, firstRemoved);
      haveRemoved', firstRemoved' := haveRemoved, firstRemoved;
      if entries[index].Removed? {
        if !haveRemoved {
          firstRemoved', haveRemoved' := index, true;
        }
        UpdateSame(cur, index);
      } else if adding && !entries[index].HadCollision() {
        entries[index] := entries[index].Flagged();
      } else {
        UpdateSame(cur, index);
      }
    }

    /** The probe loop of `search`, from step `1` on, until the probe
        reaches a free entry or the entry live for `id`. */
    method ProbeLoop(id: PropertyId, adding: bool, start: HashNumber, hash2: HashNumber, sizeLog2: nat,
                     haveRemoved0: bool, firstRemoved0: nat, ghost es0: seq<Entry>, ghost path: Path, ghost kf: nat)
      returns (index: nat, ghost steps: nat)
      requires Probing(es0, entries[..], path, id, adding, 0, haveRemoved0, firstRemoved0)
      requires start == At(path, 0) && hash2 == path.hash2 && sizeLog2 == path.log2
      requires 0 < kf && es0[At(path, kf)].Free?
      modifies entries
      ensures StopsAt(es0, path, id, steps)
      ensures index == SearchIndex(es0, path, id, adding, steps)
      ensures entries[..] == if adding then FlagPath(es0, path, steps) else es0
    {
      var hash1, haveRemoved, firstRemoved := start, haveRemoved0, firstRemoved0;
      steps := 0;
      while true
        invariant hash1 == At(path, steps)
        invariant Probing(es0, entries[..], path, id, adding, steps, haveRemoved, firstRemoved)
        invariant steps < kf
        decreases kf - steps
      {
        hash1 := NextIndex(hash1, hash2, sizeLog2, path, steps);
        index := hash1;
        ProbingFlagsOnly(es0, entries[..], path, id, adding, steps, haveRemoved, firstRemoved);
        if entries[index].Free? || Matches(entries[index], id) {
          ProbingStop(es0, entries[..], path, id, adding, steps, haveRemoved, firstRemoved);
          if entries[index].Free? && adding && haveRemoved {
            index := firstRemoved;
          }
          steps := steps + 1;
          return;
        }
        haveRemoved, firstRemoved := ProbeStep(id, adding, index, haveRemoved, firstRemoved, es0, path, steps);
        steps := steps + 1;
      }
    }

    /** `search(id, adding)`: probe the path of `id` and return the index of
        its live entry, or else of the free entry where the probe stopped,
        or when adding, of the first removed entry passed on the way.  When
        adding, every live entry passed gets its collision bit; otherwise
        nothing changes. */
    method Search(id: PropertyId, adding: bool) returns (index: nat, ghost steps: nat)
      requires Valid()
      modifies entries
      ensures Valid()
      ensures StopsAt(old(entries[..]), PathOf(id), id, steps)
      ensures index == SearchIndex(old(entries[..]), PathOf(id), id, adding, steps)
      ensures entries[..] == if adding then FlagPath(old(entries[..]), PathOf(id), steps) else old(entries[..])
    {
      ghost var es0 := entries[..];
      ghost var path := PathOf(id);
      var hash0 := hashOf(id);
      var hash1 := Hash1(hash0, hashShift);
      index := hash1;
      steps := 0;
      if entries[index].Free? || Matches(entries[index], id) {
        return;
      }
      var sizeLog2 := HashBits - hashShift;
      var hash2 := Hash2(hash0, sizeLog2, hashShift);
      var firstRemoved: nat, haveRemoved := 0, false;
      if entries[index].Removed? {
        firstRemoved, haveRemoved := index, true;
      } else if adding && !entries[index].HadCollision() {
        entries[index] := entries[index].Flagged();
      }
      ProbingStart(es0, path, id, adding);
      ghost var kf := FreeStep(es0, path);
      index, steps := ProbeLoop(id, adding, hash1, hash2, sizeLog2, haveRemoved, firstRemoved, es0, path, kf);
      FlagPathFlagsOnly(es0, path, steps);
      FlagsOnlyPreserves(es0, entries[..], hashOf, sizeLog2);
    }

    /** `new ShapeTable(nentries)`: no entries yet, the minimum size, and
        the entry count the lineage to be hashed will fill. */
    constructor (nentries: nat, minSizeLog2: nat, hashOf: PropertyId -> HashNumber)
      requires 1 <= minSizeLog2 <= HashBits
      ensures this.minSizeLog2 == minSizeLog2 && this.hashOf == hashOf
      ensures hashShift <= HashBits && Log2() == minSizeLog2 && entryCount == nentries && removedCount == 0
      ensures entries.Length == 0
    {
      this.minSizeLog2 := minSizeLog2;
      this.hashOf := hashOf;
      hashShift := HashBits - minSizeLog2;
      entryCount := nentries;
      removedCount := 0;
      entries := new Entry[0];
    }

    /** One iteration of the loop of `init`: `search(x.propid, true)`, then
        store `x` with the collision bit kept unless the entry found already
        holds a shape, which is then a younger one with the same id. */
    method Put(x: Shape)
      requires Valid() && CountLive(entries[..]) < entryCount
      modifies entries
      ensures Valid()
      ensures Shapes() == if exists y | y in old(Shapes()) :: y.propid == x.propid
                          then old(Shapes()) else old(Shapes()) + {x}
      ensures CountLive(entries[..]) <= old(CountLive(entries[..])) + 1
      ensures CountRemoved(entries[..]) <= old(CountRemoved(entries[..]))
    {
      ghost var es0 := entries[..];
      var index, steps := Search(x.propid, true);
      ghost var path := PathOf(x.propid);
      ghost var flagged := entries[..];
      if !entries[index].Live? {
        entries[index] := entries[index].Filled(x);
      }
      Store(es0, hashOf, Log2(), x, steps);
      assert entries[..] == Stored(es0, hashOf, Log2(), x, steps);
    }

    /** The fresh, zeroed array of `2^log2` entries that `init` and
        `change` allocate and install, with the hash shift for that size. */
    method Allocate(log2: nat)
      requires 1 <= minSizeLog2 <= log2 <= HashBits && entryCount + removedCount < Pow2(log2)
      modifies this
      ensures Valid() && fresh(entries) && Log2() == log2
      ensures Shapes() == {} && CountLive(entries[..]) == 0 && CountRemoved(entries[..]) == 0
      ensures entryCount == old(entryCount) && removedCount == old(removedCount)
    {
      entries := new Entry[Pow2(log2)](_ => Free);
      hashShift := HashBits - log2;
      FreshTable(entries[..], hashOf, log2);
    }

    /** The loop of `init`: store the shapes of the lineage, youngest
        first, into a table that holds none yet. */
    method PutAll(lineage: seq<Shape>)
      requires Valid() && entryCount == |lineage| && Shapes() == {} && CountLive(entries[..]) == 0
      modifies entries
      ensures Valid() && Shapes() == Youngest(lineage)
    {
      var i := 0;
      while i < |lineage|
        invariant 0 <= i <= |lineage|
        invariant Valid()
        invariant Shapes() == Youngest(lineage[..i]) && CountLive(entries[..]) <= i
      {
        var x := lineage[i];
        YoungestIds(lineage[..i], x.propid);
        Put(x);
        assert lineage[..i + 1] == lineage[..i] + [x];
        YoungestSnoc(lineage[..i], x);
        i := i + 1;
      }
      assert lineage[..i] == lineage;
    }

    /** `init(lastProp)`: allocate the size `InitLog2` picks for the entry
        count, then hash the lineage from `lastProp` back to the root, so
        that of the shapes with one id the youngest is kept.  `allocOk`
        stands for the allocation succeeding. */
    method Init(lineage: seq<Shape>, allocOk: bool) returns (ok: bool)
      requires 1 <= minSizeLog2 && entryCount == |lineage| && removedCount == 0
      requires InitLog2(entryCount, minSizeLog2) <= HashBits
      modifies this
      ensures ok == allocOk
      ensures ok ==> && Valid() && fresh(entries)
                     && Log2() == InitLog2(|lineage|, minSizeLog2)
                     && Capacity() >= MinSize() && !NeedsToGrow()
                     && Shapes() == Youngest(lineage)
                     && entryCount == |lineage| && removedCount == 0
      ensures !ok ==> unchanged(this)
    {
      var sizeLog2 := InitLog2(entryCount, minSizeLog2);
      if !allocOk {
        return false;
      }
      InitLog2Least(entryCount, minSizeLog2);
      Allocate(sizeLog2);
      PutAll(lineage);
      Pow2Mono(minSizeLog2, sizeLog2);
      ok := true;
    }

    /** The body of `change`'s copy loop: `search(x.propid, true)` in the
        new table, which has no removed entries and no shape with the id of
        `x`, finds a free entry, and `x` is stored there. */
    method Reinsert(x: Shape)
      requires Valid() && CountRemoved(entries[..]) == 0 && CountLive(entries[..]) < entryCount
      requires forall y | y in Shapes() :: y.propid != x.propid
      modifies entries
      ensures Valid() && Shapes() == old(Shapes()) + {x}
      ensures CountLive(entries[..]) == old(CountLive(entries[..])) + 1 && CountRemoved(entries[..]) == 0
    {
      ghost var es0 := entries[..];
      var index, steps := Search(x.propid, true);
      ghost var path := PathOf(x.propid);
      AbsentId(es0, x.propid);
      NoneRemoved(es0);
      SearchMisses(es0, path, x.propid, steps, true);
      InsertTarget(es0, hashOf, Log2(), x, steps);
      assert entries[index].Free?;
      entries[index] := Live(x, false);
      Insert(es0, hashOf, Log2(), x, steps);
      assert entries[..] == Inserted(es0, hashOf, Log2(), x, steps);
    }

    /** The copy loop of `change`: walk the `oldSize` entries of the old
        array and store each live shape into the new, empty table. */
    method CopyLive(oldTable: array<Entry>, oldSize: nat)
      requires Valid() && Shapes() == {} && CountLive(entries[..]) == 0 && CountRemoved(entries[..]) == 0
      requires oldTable != entries && oldSize == oldTable.Length
      requires Unique(oldTable[..]) && CountLive(oldTable[..]) <= entryCount
      modifies entries
      ensures Valid() && Shapes() == Contents(oldTable[..])
    {
      ghost var oldEs := oldTable[..];
      var oldSize, p := oldSize, 0;
      while oldSize != 0
        invariant p + oldSize == |oldEs| && oldTable[..] == oldEs
        invariant Valid()
        invariant Shapes() == Contents(oldEs[..p])
        invariant CountLive(entries[..]) == CountLive(oldEs[..p]) && CountRemoved(entries[..]) == 0
      {
        PrefixStep(oldEs, p);
        if oldTable[p].Live? {
          var shape := oldTable[p].shape;
          PrefixIds(oldEs, p);
          CountLivePrefix(oldEs, p + 1);
          Reinsert(shape);
        }
        oldSize := oldSize - 1;
        p := p + 1;
      }
      assert oldEs[..p] == oldEs;
    }

    /** `change(log2Delta)`: double, halve or rebuild at the same size the
        entry array, copying only the live entries into a fresh table, so
        that no removed entries are left.  `allocOk` stands for the
        allocation of the new array succeeding; when it fails, nothing
        changes. */
    method Change(log2Delta: int, allocOk: bool) returns (ok: bool)
      requires Valid() && -1 <= log2Delta <= 1
      requires minSizeLog2 <= Log2() + log2Delta <= HashBits
      requires entryCount < Pow2(Log2() + log2Delta)
      modifies this
      ensures Valid() && ok == allocOk && entryCount == old(entryCount)
      ensures ok ==> && Log2() == old(Log2()) + log2Delta && removedCount == 0
                     && Shapes() == old(Shapes()) && fresh(entries)
      ensures !ok ==> unchanged(this)
    {
      var oldLog2 := HashBits - hashShift;
      var newLog2: nat := oldLog2 + log2Delta;
      var oldSize := Pow2(oldLog2);
      if !allocOk {
        return false;
      }
      var oldTable := entries;
      removedCount := 0;
      Allocate(newLog2);
      CopyLive(oldTable, oldSize);
      ok := true;
    }

    /** `grow()`: double the table, or rebuild it at the same size when at
        least a quarter of it is removed entries.  It fails only when the
        rebuild fails and the table has a single free entry left; otherwise
        a failed rebuild leaves the table as it was, still usable. */
    method Grow(allocOk: bool) returns (ok: bool)
      requires Valid() && NeedsToGrow()
      requires removedCount < Capacity() / 4 ==> Log2() < HashBits
      modifies this
      ensures Valid() && entryCount == old(entryCount)
      ensures ok == (allocOk || old(entryCount + removedCount) != old(Capacity()) - 1)
      ensures allocOk ==> && Log2() == old(Log2()) + (if old(removedCount) < old(Capacity()) / 4 then 1 else 0)
                          && removedCount == 0 && Shapes() == old(Shapes()) && !NeedsToGrow()
      ensures !allocOk ==> unchanged(this)
    {
      var size := Capacity();
      var delta := if removedCount < size / 4 then 1 else 0;
      assert entryCount + removedCount <= size - 1;
      assert Pow2(Log2() + delta) >= size by {
        Pow2Mono(Log2(), Log2() + delta);
      }
      assert Pow2(Log2() + 1) == 2 * size;
      var changed := Change(delta, allocOk);
      if !changed && entryCount + removedCount == size - 1 {
        return false;
      }
      return true;
    }

    /** The first half of `RemoveEntry`: `setRemoved` with
        `decEntryCount` and `incRemovedCount` when the collision bit is set,
        `setFree` with `decEntryCount` otherwise. */
    method Vacate(index: nat)
      requires Valid() && index < entries.Length && entries[index].Live?
      modifies this, entries
      ensures Valid() && entries == old(entries) && Log2() == old(Log2())
      ensures entries[..] == old(entries[..])[index := if old(entries[index]).collision then Removed else Free]
      ensures Shapes() == old(Shapes()) - {old(entries[index]).shape}
      ensures entryCount == old(entryCount) - 1
      ensures removedCount == old(removedCount) + if old(entries[index]).collision then 1 else 0
    {
      Remove(entries[..], hashOf, Log2(), index);
      if entries[index].HadCollision() {
        entries[index] := Removed;
        entryCount := entryCount - 1;
        removedCount := removedCount + 1;
      } else {
        entries[index] := Free;
        entryCount := entryCount - 1;
      }
    }

    /** The table part of removing a dictionary property whose live entry
        is `entries[index]`: the entry becomes removed if its collision bit
        is set and free otherwise, the counts follow, and the table shrinks
        by half when it is above the minimum size and at most a quarter
        full.  `allocOk` stands for the allocation of the smaller array
        succeeding; a failed shrink is ignored. */
    method RemoveEntry(index: nat, allocOk: bool)
      requires Valid() && index < entries.Length && entries[index].Live?
      modifies this, entries
      ensures Valid()
      ensures Shapes() == old(Shapes()) - {old(entries[index]).shape}
      ensures entryCount == old(entryCount) - 1
      ensures var shrink := old(Capacity()) > MinSize() && old(entryCount) - 1 <= old(Capacity()) / 4;
              var removed := old(removedCount) + if old(entries[index]).collision then 1 else 0;
              if shrink && allocOk then Log2() == old(Log2()) - 1 && removedCount == 0
              else Log2() == old(Log2()) && removedCount == removed && entries == old(entries)
    {
      Vacate(index);
      var size := Capacity();
      if size > MinSize() && entryCount <= size / 4 {
        Pow2Below(Log2(), minSizeLog2);
        assert Pow2(Log2()) == 2 * Pow2(Log2() - 1);
        var _ := Change(-1, allocOk);
      }
    }
  }
}
