/** What the list operations of module Entries guarantee: each keeps the list
    invariant, when each succeeds and what it changes, and how lookup relates
    to the order of the list. */
module EntryLemmas {
  import opened Flags
  import opened Entries

  /** Guard pages add up along the list: every entry ends at least a guard
      page below the base of every later entry. */
  lemma {:induction false} Separated<S>(s: seq<MapEntry<S>>, i: nat, j: nat)
    requires WellFormed(s)
    requires i < j < |s|
    ensures End(s[i]) + PAGE_SIZE <= s[j].addr
    decreases j - i
  {
    if i + 1 < j {
      Separated(s, i, j - 1);
    }
  }

  /** Base addresses strictly increase along a well-formed list. */
  lemma Ascending<S>(s: seq<MapEntry<S>>, i: nat, j: nat)
    requires WellFormed(s)
    requires i <= j < |s|
    ensures s[i].addr <= s[j].addr
    ensures i < j ==> End(s[i]) < s[j].addr
  {
    if i < j {
      Separated(s, i, j);
    }
  }

  /** Inserting an entry keeps the list well formed when it leaves a guard
      page to each neighbour (or to PAGE_SIZE and USIZE_MAX at the ends). */
  lemma InsertWellFormed<S>(s: seq<MapEntry<S>>, k: nat, e: MapEntry<S>)
    requires WellFormed(s)
    requires k <= |s|
    requires e.span % PAGE_SIZE == 0
    requires (if k == 0 then 0 else End(s[k - 1])) + PAGE_SIZE <= e.addr
    requires End(e) + PAGE_SIZE <= (if k < |s| then s[k].addr else USIZE_MAX)
    ensures WellFormed(s[..k] + [e] + s[k..])
  {
    var t := s[..k] + [e] + s[k..];
    assert forall i :: 0 <= i < k ==> t[i] == s[i];
    assert t[k] == e;
    assert forall i :: k < i < |t| ==> t[i] == s[i - 1];
  }

  /** Removing an entry keeps the list well formed. */
  lemma RemoveWellFormed<S>(s: seq<MapEntry<S>>, k: nat)
    requires WellFormed(s)
    requires k < |s|
    ensures WellFormed(s[..k] + s[k + 1..])
  {
    var t := s[..k] + s[k + 1..];
    assert forall i :: 0 <= i < k ==> t[i] == s[i];
    assert forall i :: k <= i < |t| ==> t[i] == s[i + 1];
    if 0 < k < |t| {
      Separated(s, k - 1, k + 1);
    }
    if k == 0 && |t| > 0 {
      Separated(s, 0, 1);
    }
  }

  /** Taking an entry out right after inserting it at the same index gives
      back the list. */
  lemma InsertThenDrop<S>(s: seq<MapEntry<S>>, k: nat, e: MapEntry<S>)
    requires k <= |s|
    ensures var t := s[..k] + [e] + s[k..]; t[..k] + t[k + 1..] == s
  {
    var t := s[..k] + [e] + s[k..];
    assert t[..k] == s[..k];
    assert t[k + 1..] == s[k..];
  }

  // add_mapping

  /** The first-fit search stops at the one position before which no gap
      fits and at which (unless it is the ghost position) the gap fits. */
  lemma FirstFitUnique<S>(s: seq<MapEntry<S>>, span: nat, pos: nat)
    requires pos <= |s|
    requires pos < |s| ==> GapFits(s, pos, span)
    requires forall j :: 0 <= j < pos ==> !GapFits(s, j, span)
    ensures FirstFit(s, span, 0) == pos
  {
    var q := FirstFit(s, span, 0);
    if q < pos {
      assert false;
    }
  }

  /** add_mapping succeeds exactly when the list is empty or some gap fits
      the rounded span with a guard page on each side: the gap after some
      entry, or the gap in front of the first entry. */
  lemma PlaceSucceedsIff<S>(s: seq<MapEntry<S>>, source: S, offset: nat, span: nat, flags: FlagBuilder)
    requires span <= USIZE_MAX - PAGE_SIZE + 1
    requires RoundUp(span) + 2 * PAGE_SIZE <= USIZE_MAX
    ensures Place(s, source, offset, span, flags).result.Ok?
            <==> |s| == 0 || exists pos :: 0 <= pos <= |s| && GapFits(s, pos, RoundUp(span))
  {
    var sp := RoundUp(span);
    var pos := FirstFit(s, sp, 0);
    if exists p :: 0 <= p <= |s| && GapFits(s, p, sp) {
      var p :| 0 <= p <= |s| && GapFits(s, p, sp);
      if pos == |s| {
        assert p == |s|;
      }
    }
  }

  /** add_mapping is first fit: on success the new entry begins one guard
      page after the end of the first entry whose following gap fits, or at
      PAGE_SIZE in front of the first entry when no such gap exists. */
  lemma PlaceFirstFit<S>(s: seq<MapEntry<S>>, source: S, offset: nat, span: nat, flags: FlagBuilder)
    requires span <= USIZE_MAX - PAGE_SIZE + 1
    requires RoundUp(span) + 2 * PAGE_SIZE <= USIZE_MAX
    ensures var r := Place(s, source, offset, span, flags);
            var sp := RoundUp(span);
            r.result.Ok? ==>
              (exists i :: 0 <= i < |s| && GapFits(s, i, sp)
                           && (forall j :: 0 <= j < i ==> !GapFits(s, j, sp))
                           && r.result.value == End(s[i]) + PAGE_SIZE)
              || ((forall j :: 0 <= j < |s| ==> !GapFits(s, j, sp))
                  && r.result.value == PAGE_SIZE)
  {
    var sp := RoundUp(span);
    var pos := FirstFit(s, sp, 0);
    if pos < |s| {
      assert GapFits(s, pos, sp) && (forall j :: 0 <= j < pos ==> !GapFits(s, j, sp));
    }
  }

  /** add_mapping on a well-formed list: on success it inserts exactly one
      entry, holding the rounded span at the returned address, and the list
      stays well formed (sorted, guard pages, whole-page spans); on failure
      it reports that no chunk is available and leaves the list alone. */
  lemma PlaceKeepsWellFormed<S>(s: seq<MapEntry<S>>, source: S, offset: nat, span: nat, flags: FlagBuilder)
    requires WellFormed(s)
    requires span <= USIZE_MAX - PAGE_SIZE + 1
    requires RoundUp(span) + 2 * PAGE_SIZE <= USIZE_MAX
    ensures var r := Place(s, source, offset, span, flags);
            WellFormed(r.mappings)
            && (r.result.Ok? ==>
                  exists k :: 0 <= k <= |s|
                    && r.mappings == s[..k] + [MapEntry(source, offset, RoundUp(span), r.result.value, flags)] + s[k..])
            && (r.result.Err? ==> r == Step(Err(NO_CHUNK), s))
  {
    var sp := RoundUp(span);
    var pos := FirstFit(s, sp, 0);
    if GapFits(s, pos, sp) || |s| == 0 {
      var a := PrevEnd(s, pos) + PAGE_SIZE;
      var e := MapEntry(source, offset, sp, a, flags);
      var k := InsertionIndex(s, pos);
      assert GapFits(s, pos, sp);
      InsertWellFormed(s, k, e);
      assert Place(s, source, offset, span, flags) == Step(Ok(a), s[..k] + [e] + s[k..]);
    }
  }

  /** add_mapping keeps base addresses page aligned: if every entry starts on
      a page boundary, so does the one it adds. (add_mapping_at does not
      align its start, so this is all that can be said of the whole list.) */
  lemma PlaceKeepsAligned<S>(s: seq<MapEntry<S>>, source: S, offset: nat, span: nat, flags: FlagBuilder)
    requires WellFormed(s)
    requires forall i :: 0 <= i < |s| ==> s[i].addr % PAGE_SIZE == 0
    requires span <= USIZE_MAX - PAGE_SIZE + 1
    requires RoundUp(span) + 2 * PAGE_SIZE <= USIZE_MAX
    ensures var r := Place(s, source, offset, span, flags);
            (r.result.Ok? ==> r.result.value % PAGE_SIZE == 0)
            && forall i :: 0 <= i < |r.mappings| ==> r.mappings[i].addr % PAGE_SIZE == 0
  {
    var sp := RoundUp(span);
    var pos := FirstFit(s, sp, 0);
    if GapFits(s, pos, sp) || |s| == 0 {
      var a := PrevEnd(s, pos) + PAGE_SIZE;
      if pos < |s| {
        assert s[pos].addr % PAGE_SIZE == 0 && s[pos].span % PAGE_SIZE == 0;
        assert a % PAGE_SIZE == 0;
      }
      var e := MapEntry(source, offset, sp, a, flags);
      var k := InsertionIndex(s, pos);
      var t := s[..k] + [e] + s[k..];
      assert forall i :: 0 <= i < k ==> t[i] == s[i];
      assert forall i :: k < i < |t| ==> t[i] == s[i - 1];
    }
  }

  // add_mapping_at

  /** The predecessor search stops at the one position before which no
      entry straddles `start` and at which (unless it is the ghost position)
      the entry straddles it. */
  lemma PredecessorUnique<S>(s: seq<MapEntry<S>>, start: nat, pos: nat)
    requires pos <= |s|
    requires pos < |s| ==> Straddles(s, pos, start)
    requires forall j :: 0 <= j < pos ==> !Straddles(s, j, start)
    ensures Predecessor(s, start, 0) == pos
  {
    var q := Predecessor(s, start, 0);
    if q < pos {
      assert false;
    }
  }

  /** Above the first entry, a start that straddles no entry is the base of
      some entry. */
  lemma {:induction false} NoStraddleHitsBase<S>(s: seq<MapEntry<S>>, i: nat, start: nat)
    requires WellFormed(s)
    requires i < |s|
    requires s[i].addr < start < USIZE_MAX
    requires forall j :: i <= j < |s| ==> !Straddles(s, j, start)
    ensures exists k :: i < k < |s| && s[k].addr == start
    decreases |s| - i
  {
    assert !Straddles(s, i, start);
    if s[i + 1].addr < start {
      NoStraddleHitsBase(s, i + 1, start);
    }
  }

  /** add_mapping_at on a well-formed list succeeds exactly when `start` is
      above the first page and the new region keeps a guard page from every
      existing entry: each one either ends more than a page below `start`
      or begins at least a page after the new region's end. */
  lemma PlaceAtSucceedsIff<S>(s: seq<MapEntry<S>>, source: S, offset: nat, span: nat, start: nat,
                              flags: FlagBuilder)
    requires WellFormed(s)
    requires PAGE_SIZE <= start
    requires span <= USIZE_MAX - PAGE_SIZE + 1
    requires start + RoundUp(span) + PAGE_SIZE <= USIZE_MAX
    ensures PlaceAt(s, source, offset, span, start, flags).result.Ok?
            <==> PAGE_SIZE < start
                 && forall k :: 0 <= k < |s| ==>
                      End(s[k]) + PAGE_SIZE < start || start + RoundUp(span) + PAGE_SIZE <= s[k].addr
  {
    var sp := RoundUp(span);
    var pos := Predecessor(s, start, 0);
    var clear := forall k :: 0 <= k < |s| ==> End(s[k]) + PAGE_SIZE < start || start + sp + PAGE_SIZE <= s[k].addr;
    if pos < |s| {
      assert Straddles(s, pos, start);
      if !Conflicts(s, pos, start, sp) {
        Ascending(s, 0, pos);
        forall k | 0 <= k < |s|
          ensures End(s[k]) + PAGE_SIZE < start || start + sp + PAGE_SIZE <= s[k].addr
        {
          if k < pos {
            Ascending(s, k, pos);
          } else if pos < k {
            Ascending(s, pos + 1, k);
          }
        }
      }
      if clear {
        assert End(s[pos]) + PAGE_SIZE < start;
        if pos + 1 < |s| {
          assert start + sp + PAGE_SIZE <= s[pos + 1].addr;
        }
        assert !Conflicts(s, pos, start, sp);
      }
    } else if |s| > 0 {
      if !Conflicts(s, pos, start, sp) {
        forall k | 0 <= k < |s|
          ensures start + sp + PAGE_SIZE <= s[k].addr
        {
          Ascending(s, 0, k);
        }
      }
      if PAGE_SIZE < start && clear {
        if s[0].addr < start {
          NoStraddleHitsBase(s, 0, start);
          assert false;
        }
        assert start + sp + PAGE_SIZE <= s[0].addr;
      }
    }
  }

  /** add_mapping_at on a well-formed list: on success it inserts exactly one
      entry, with base `start` and the rounded span, and the list stays well
      formed; on failure it reports the conflict and leaves the list alone. */
  lemma PlaceAtKeepsWellFormed<S>(s: seq<MapEntry<S>>, source: S, offset: nat, span: nat, start: nat,
                                  flags: FlagBuilder)
    requires WellFormed(s)
    requires PAGE_SIZE <= start
    requires span <= USIZE_MAX - PAGE_SIZE + 1
    requires start + RoundUp(span) + PAGE_SIZE <= USIZE_MAX
    ensures var r := PlaceAt(s, source, offset, span, start, flags);
            WellFormed(r.mappings)
            && (r.result.Ok? ==>
                  exists k :: 0 <= k <= |s|
                    && r.mappings == s[..k] + [MapEntry(source, offset, RoundUp(span), start, flags)] + s[k..])
            && (r.result.Err? ==> r == Step(Err(INSUFFICIENT), s))
  {
    var sp := RoundUp(span);
    var pos := Predecessor(s, start, 0);
    if !Conflicts(s, pos, start, sp) {
      var e := MapEntry(source, offset, sp, start, flags);
      InsertWellFormed(s, InsertionIndex(s, pos), e);
    }
  }

  /** add_mapping_at at the base of an existing entry always fails: the
      search finds no straddling entry and the front entry is too close. */
  lemma PlaceAtExistingBaseFails<S>(s: seq<MapEntry<S>>, source: S, offset: nat, span: nat, start: nat,
                                    flags: FlagBuilder, k: nat)
    requires WellFormed(s)
    requires PAGE_SIZE <= start
    requires span <= USIZE_MAX - PAGE_SIZE + 1
    requires start + RoundUp(span) + PAGE_SIZE <= USIZE_MAX
    requires k < |s| && s[k].addr == start
    ensures PlaceAt(s, source, offset, span, start, flags) == Step(Err(INSUFFICIENT), s)
  {
    PlaceAtSucceedsIff(s, source, offset, span, start, flags);
    assert !(End(s[k]) + PAGE_SIZE < start || start + RoundUp(span) + PAGE_SIZE <= s[k].addr);
  }

  /** Removing the base that add_mapping_at just placed restores the list,
      so repeating the same add_mapping_at succeeds again at the same base. */
  lemma PlaceAtThenRemove<S>(s: seq<MapEntry<S>>, source: S, offset: nat, span: nat, start: nat,
                             flags: FlagBuilder)
    requires WellFormed(s)
    requires PAGE_SIZE <= start
    requires span <= USIZE_MAX - PAGE_SIZE + 1
    requires start + RoundUp(span) + PAGE_SIZE <= USIZE_MAX
    requires PlaceAt(s, source, offset, span, start, flags).result.Ok?
    ensures Remove(PlaceAt(s, source, offset, span, start, flags).mappings, start) == Step(Ok(()), s)
  {
    var sp := RoundUp(span);
    var pos := Predecessor(s, start, 0);
    var e := MapEntry(source, offset, sp, start, flags);
    var k := InsertionIndex(s, pos);
    var t := s[..k] + [e] + s[k..];
    assert PlaceAt(s, source, offset, span, start, flags).mappings == t;
    assert t[k] == e;
    forall j | 0 <= j < k
      ensures t[j].addr != start
    {
      assert t[j] == s[j];
      Ascending(s, j, pos);
    }
    assert FindBase(t, start, 0) == k;
    InsertThenDrop(s, k, e);
  }

  // remove_mapping

  /** remove_mapping on a well-formed list succeeds exactly when some entry
      has base `start`; it then deletes that one entry (there is only one)
      and keeps the others in order, and the list stays well formed. On
      failure it changes nothing. */
  lemma RemoveCorrect<S>(s: seq<MapEntry<S>>, start: nat)
    requires WellFormed(s)
    ensures var r := Remove(s, start);
            WellFormed(r.mappings)
            && (r.result.Ok? <==> exists k :: 0 <= k < |s| && s[k].addr == start)
            && (r.result.Ok? ==>
                  exists k :: 0 <= k < |s| && s[k].addr == start
                    && (forall j :: 0 <= j < |s| && j != k ==> s[j].addr != start)
                    && r.mappings == s[..k] + s[k + 1..])
            && (r.result.Err? ==> r == Step(Err(NO_MAPPING), s))
  {
    var pos := FindBase(s, start, 0);
    if pos < |s| {
      RemoveWellFormed(s, pos);
      forall j | 0 <= j < |s| && j != pos
        ensures s[j].addr != start
      {
        if j < pos { Ascending(s, j, pos); } else { Ascending(s, pos, j); }
      }
    }
  }

  // get_mapping_for_addr and get_source_for_addr

  /** The lookup returns the first entry in list order whose base is at or
      above `addr` (a successor, with no check that `addr` lies inside it),
      and fails only when every base is below `addr`. On a well-formed list
      that entry has the least such base. */
  lemma MappingForIsSuccessor<S>(s: seq<MapEntry<S>>, addr: nat)
    ensures MappingFor(s, addr).Err? <==> forall k :: 0 <= k < |s| ==> s[k].addr < addr
    ensures MappingFor(s, addr).Err? ==> MappingFor(s, addr).msg == NO_MAPPING
    ensures MappingFor(s, addr).Ok? ==>
              exists k :: 0 <= k < |s| && MappingFor(s, addr).value == s[k] && addr <= s[k].addr
                          && forall j :: 0 <= j < k ==> s[j].addr < addr
    ensures MappingFor(s, addr).Ok? && WellFormed(s) ==>
              forall k :: 0 <= k < |s| && addr <= s[k].addr ==> MappingFor(s, addr).value.addr <= s[k].addr
  {
    var pos := FirstAtOrAbove(s, addr, 0);
    if pos < |s| && WellFormed(s) {
      forall k | 0 <= k < |s| && addr <= s[k].addr
        ensures s[pos].addr <= s[k].addr
      {
        Ascending(s, pos, k);
      }
    }
  }

  /** get_source_for_addr panics when the lookup finds nothing; otherwise it
      refuses exactly the requests that ask for a capability (any of the
      six) the found entry lacks, and grants the rest with the entry's
      source and its stored, untranslated offset. */
  lemma SourceForCases<S>(s: seq<MapEntry<S>>, addr: nat, access: FlagBuilder)
    ensures SourceFor(s, addr, access).Panicked? <==> forall k :: 0 <= k < |s| ==> s[k].addr < addr
    ensures MappingFor(s, addr).Ok? ==>
              var e := MappingFor(s, addr).value;
              SourceFor(s, addr, access)
                == if access.Bits() <= e.flags.Bits() then Returned(Ok((e.source, e.offset)))
                   else Returned(Err(NOT_ALLOWED))
  {
    MappingForIsSuccessor(s, addr);
  }
}
