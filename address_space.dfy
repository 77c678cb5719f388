/** The address space object: a list of mappings kept sorted by base address
    and separated by guard pages, walked with a cursor and changed in place. */
module Space {
  import opened Flags
  import opened Entries
  import opened EntryLemmas

  /** A simulated virtual address space. The cursor over `mappings` is an
      index: `i < |mappings|` points at `mappings[i]`, and `|mappings|` is the
      list's ghost position (see module Entries). */
  class AddressSpace<S> {
    /** Diagnostic name only. */
    const name: string
    var mappings: seq<MapEntry<S>>

    ghost predicate Valid()
      reads this
    {
      WellFormed(mappings)
    }

    constructor (name: string)
      ensures this.name == name && mappings == [] && Valid()
    {
      this.name := name;
      mappings := [];
    }

    /** Auto-placing insertion (first fit). Returns the chosen base address.
        The requires rules out the machine word overflowing while the span is
        rounded and padded with two guard pages. */
    method AddMapping(source: S, offset: nat, span: nat, flags: FlagBuilder) returns (r: Result<nat>)
      requires Valid()
      requires span <= USIZE_MAX - PAGE_SIZE + 1
      requires RoundUp(span) + 2 * PAGE_SIZE <= USIZE_MAX
      modifies this
      ensures Valid()
      ensures Step(r, mappings) == Place(old(mappings), source, offset, span, flags)
    {
      ghost var before := mappings;
      var sp := RoundUp(span);
      var curs := 0;
      var empty := |mappings| == 0;
      while curs < |mappings|
        invariant curs <= |mappings|
        invariant forall j :: 0 <= j < curs ==> !GapFits(mappings, j, sp)
      {
        var thisEnding := mappings[curs].addr + mappings[curs].span;
        var nextAddress := if curs + 1 < |mappings| then mappings[curs + 1].addr else USIZE_MAX;
        if nextAddress - thisEnding >= sp + 2 * PAGE_SIZE {
          assert GapFits(mappings, curs, sp);
          break;
        }
        curs := curs + 1;
      }
      FirstFitUnique(mappings, sp, curs);
      var nextAddr := if curs < |mappings| then (if curs + 1 < |mappings| then mappings[curs + 1].addr else USIZE_MAX)
                      else if |mappings| > 0 then mappings[0].addr else USIZE_MAX;
      var thisEnding := if curs < |mappings| then mappings[curs].addr + mappings[curs].span else 0;
      assert nextAddr == NextAddr(mappings, curs) && thisEnding == PrevEnd(mappings, curs);
      if nextAddr - thisEnding >= sp + 2 * PAGE_SIZE || empty {
        var entry := MapEntry(source, offset, sp, thisEnding + PAGE_SIZE, flags);
        // inserting after the ghost position inserts at the front
        var at := if curs < |mappings| then curs + 1 else 0;
        mappings := mappings[..at] + [entry] + mappings[at..];
        r := Ok(thisEnding + PAGE_SIZE);
      } else {
        r := Err(NO_CHUNK);
      }
      PlaceKeepsWellFormed(before, source, offset, span, flags);
    }

    /** Insertion at a fixed base address `start`, which is not aligned. The
        requires rule out `start - PAGE_SIZE` underflowing and the end of the
        new region plus a guard page overflowing the machine word; the last
        also excludes some starts near USIZE_MAX that the code refuses before
        it computes that sum. */
    method AddMappingAt(source: S, offset: nat, span: nat, start: nat, flags: FlagBuilder) returns (r: Result<()>)
      requires Valid()
      requires PAGE_SIZE <= start
      requires span <= USIZE_MAX - PAGE_SIZE + 1
      requires start + RoundUp(span) + PAGE_SIZE <= USIZE_MAX
      modifies this
      ensures Valid()
      ensures Step(r, mappings) == PlaceAt(old(mappings), source, offset, span, start, flags)
    {
      ghost var before := mappings;
      var sp := RoundUp(span);
      var curs := 0;
      var empty := |mappings| == 0;
      while curs < |mappings|
        invariant curs <= |mappings|
        invariant forall j :: 0 <= j < curs ==> !Straddles(mappings, j, start)
      {
        var lastAddr := mappings[curs].addr;
        var nextAddr := if curs + 1 < |mappings| then mappings[curs + 1].addr else USIZE_MAX;
        if nextAddr > start && lastAddr < start {
          assert Straddles(mappings, curs, start);
          break;
        }
        curs := curs + 1;
      }
      PredecessorUnique(mappings, start, curs);
      var nextStart := if curs < |mappings| then (if curs + 1 < |mappings| then mappings[curs + 1].addr else USIZE_MAX)
                       else if |mappings| > 0 then mappings[0].addr else USIZE_MAX;
      var prevEnd := if curs < |mappings| then mappings[curs].addr + mappings[curs].span else 0;
      assert nextStart == NextAddr(mappings, curs) && prevEnd == PrevEnd(mappings, curs);
      if prevEnd >= start - PAGE_SIZE || (nextStart < start + sp + PAGE_SIZE && !empty) {
        r := Err(INSUFFICIENT);
      } else {
        var entry := MapEntry(source, offset, sp, start, flags);
        var at := if curs < |mappings| then curs + 1 else 0;
        mappings := mappings[..at] + [entry] + mappings[at..];
        r := Ok(());
      }
      PlaceAtKeepsWellFormed(before, source, offset, span, start, flags);
    }

    /** Removes the mapping whose base is exactly `start`. The source handle
        is accepted but never looked at. */
    method RemoveMapping(source: S, start: nat) returns (r: Result<()>)
      requires Valid()
      modifies this
      ensures Valid()
      ensures Step(r, mappings) == Remove(old(mappings), start)
    {
      ghost var before := mappings;
      var curs := 0;
      while curs < |mappings|
        invariant curs <= |mappings|
        invariant forall j :: 0 <= j < curs ==> mappings[j].addr != start
      {
        if mappings[curs].addr == start {
          break;
        }
        curs := curs + 1;
      }
      assert curs == FindBase(mappings, start, 0);
      if curs == |mappings| || mappings[curs].addr != start {
        r := Err(NO_MAPPING);
      } else {
        mappings := mappings[..curs] + mappings[curs + 1..];
        r := Ok(());
      }
      RemoveCorrect(before, start);
    }

    /** Finds the first mapping, in list order, whose base is at or above
        `addr`: the least such base when the list is sorted. */
    method GetMappingForAddr(addr: nat) returns (r: Result<MapEntry<S>>)
      ensures r == MappingFor(mappings, addr)
      ensures r.Err? <==> forall k :: 0 <= k < |mappings| ==> mappings[k].addr < addr
      ensures r.Ok? ==> r.value in mappings && addr <= r.value.addr
      ensures r.Ok? && Valid() ==>
                forall k :: 0 <= k < |mappings| && addr <= mappings[k].addr ==> r.value.addr <= mappings[k].addr
    {
      MappingForIsSuccessor(mappings, addr);
      var curs := 0;
      while curs < |mappings| && mappings[curs].addr < addr
        invariant curs <= |mappings|
        invariant forall j :: 0 <= j < curs ==> mappings[j].addr < addr
      {
        curs := curs + 1;
      }
      assert curs == FirstAtOrAbove(mappings, addr, 0);
      if curs < |mappings| {
        r := Ok(mappings[curs]);
      } else {
        r := Err(NO_MAPPING);
      }
    }

    /** Resolves `addr` for an access of kind `accessType`: panics when the
        lookup finds no mapping, refuses a request for any capability the
        mapping lacks, and otherwise returns the mapping's source and stored
        offset. */
    method GetSourceForAddr(addr: nat, accessType: FlagBuilder) returns (r: Outcome<(S, nat)>)
      ensures r == SourceFor(mappings, addr, accessType)
      ensures r.Panicked? <==> forall k :: 0 <= k < |mappings| ==> mappings[k].addr < addr
      ensures r.Returned? && r.result.Ok? ==>
                exists k :: 0 <= k < |mappings| && r.result.value == (mappings[k].source, mappings[k].offset)
                            && addr <= mappings[k].addr && accessType.Bits() <= mappings[k].flags.Bits()
    {
      SourceForCases(mappings, addr, accessType);
      var mapping := GetMappingForAddr(addr);
      if mapping.Err? {
        r := Panicked(NO_MAPPING);
        return;
      }
      var entry := mapping.value;
      var butNotFlags := accessType.ButNot(entry.flags);
      var anyDisallowed := butNotFlags.read || butNotFlags.write || butNotFlags.execute
                           || butNotFlags.cow || butNotFlags.private || butNotFlags.shared;
      if anyDisallowed {
        r := Returned(Err(NOT_ALLOWED));
      } else {
        r := Returned(Ok((entry.source, entry.offset)));
      }
    }
  }
}
