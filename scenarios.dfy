/** Concrete runs of the list operations: the scenarios the repository's own
    tests and documentation describe, computed on the model. */
module Scenarios {
  import opened Flags
  import opened Entries
  import opened EntryLemmas
  import opened Resolution

  /** On an empty space a one-byte add_mapping takes one page at PAGE_SIZE. */
  lemma FirstAddMapping<S>(src: S, f: FlagBuilder)
    ensures Place([], src, 0, 1, f) == Step(Ok(PAGE_SIZE), [MapEntry(src, 0, PAGE_SIZE, PAGE_SIZE, f)])
  {
  }

  /** A second one-byte add_mapping lands after the first page's end plus one
      guard page, at 3 * PAGE_SIZE: non-zero and distinct from the first. */
  lemma SecondAddMapping<S>(src: S, f: FlagBuilder)
    ensures var first := [MapEntry(src, 0, PAGE_SIZE, PAGE_SIZE, f)];
            Place(first, src, PAGE_SIZE, 1, f)
              == Step(Ok(3 * PAGE_SIZE), first + [MapEntry(src, PAGE_SIZE, PAGE_SIZE, 3 * PAGE_SIZE, f)])
  {
    var first := [MapEntry(src, 0, PAGE_SIZE, PAGE_SIZE, f)];
    assert GapFits(first, 0, PAGE_SIZE);
  }

  /** add_mapping_at at PAGE_SIZE + 1 succeeds on an empty space; a second
      call at 2 * PAGE_SIZE + 3 fails, since the first entry ends only two
      bytes below it (no guard page), and so does a second call at the same
      address. */
  lemma AddMappingAtTwice<S>(src: S, f: FlagBuilder)
    ensures PlaceAt([], src, 0, 1, PAGE_SIZE + 1, f)
              == Step(Ok(()), [MapEntry(src, 0, PAGE_SIZE, PAGE_SIZE + 1, f)])
    ensures var one := [MapEntry(src, 0, PAGE_SIZE, PAGE_SIZE + 1, f)];
            PlaceAt(one, src, PAGE_SIZE, 1, 2 * PAGE_SIZE + 3, f) == Step(Err(INSUFFICIENT), one)
            && PlaceAt(one, src, PAGE_SIZE, 1, PAGE_SIZE + 1, f) == Step(Err(INSUFFICIENT), one)
  {
    var one := [MapEntry(src, 0, PAGE_SIZE, PAGE_SIZE + 1, f)];
    assert Straddles(one, 0, 2 * PAGE_SIZE + 3);
    assert !Straddles(one, 0, PAGE_SIZE + 1);
  }

  /** The base add_mapping picks on an empty space, PAGE_SIZE, cannot be
      taken back with add_mapping_at after it is removed: add_mapping_at
      wants more than a page below `start`. */
  lemma AutoBaseNotReusable<S>(src: S, f: FlagBuilder)
    ensures var placed := Place([], src, 0, 1, f);
            placed.result == Ok(PAGE_SIZE)
            && Remove(placed.mappings, PAGE_SIZE) == Step(Ok(()), [])
            && PlaceAt([], src, 0, 1, PAGE_SIZE, f).result.Err?
  {
    FirstAddMapping(src, f);
  }

  /** A read-only mapping grants a read request and refuses a write request. */
  lemma ReadOnlyMapping<S>(src: S)
    ensures var s := [MapEntry(src, 0, PAGE_SIZE, PAGE_SIZE, OnlyRead())];
            SourceFor(s, PAGE_SIZE, OnlyRead()) == Returned(Ok((src, 0)))
            && SourceFor(s, PAGE_SIZE, OnlyWrite()) == Returned(Err(NOT_ALLOWED))
  {
    var s := [MapEntry(src, 0, PAGE_SIZE, PAGE_SIZE, OnlyRead())];
    assert FirstAtOrAbove(s, PAGE_SIZE, 0) == 0;
  }

  /** The lookup misses the mapping that contains the address: with one
      page mapped at PAGE_SIZE, address PAGE_SIZE + 1 lies inside it, yet
      resolving it panics; with a second mapping further up, it returns that
      second mapping's source and offset. Resolve answers with the containing
      mapping and offset 1. */
  lemma SourceForMissesCoveringEntry<S>(a: S, b: S)
    ensures var s := [MapEntry(a, 0, PAGE_SIZE, PAGE_SIZE, OnlyRead())];
            SourceFor(s, PAGE_SIZE + 1, OnlyRead()) == Panicked(NO_MAPPING)
            && Resolve(s, PAGE_SIZE + 1, OnlyRead()) == Ok((a, 1))
    ensures var s := [MapEntry(a, 0, PAGE_SIZE, PAGE_SIZE, OnlyRead()),
                      MapEntry(b, 7, PAGE_SIZE, 3 * PAGE_SIZE, OnlyRead())];
            SourceFor(s, PAGE_SIZE + 1, OnlyRead()) == Returned(Ok((b, 7)))
            && Resolve(s, PAGE_SIZE + 1, OnlyRead()) == Ok((a, 1))
  {
    var one := [MapEntry(a, 0, PAGE_SIZE, PAGE_SIZE, OnlyRead())];
    assert FirstAtOrAbove(one, PAGE_SIZE + 1, 0) == 1;
    assert FindCovering(one, PAGE_SIZE + 1, 0) == 0;
    var two := [MapEntry(a, 0, PAGE_SIZE, PAGE_SIZE, OnlyRead()),
                MapEntry(b, 7, PAGE_SIZE, 3 * PAGE_SIZE, OnlyRead())];
    assert FirstAtOrAbove(two, PAGE_SIZE + 1, 0) == 1;
    assert FindCovering(two, PAGE_SIZE + 1, 0) == 0;
  }
}
