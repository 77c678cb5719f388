/** The mapping list of an address space as a value: the entry record, the
    list invariant, the list cursor, and what each operation of the address
    space does to the list. The class in module Space runs these operations
    in place and is proved to agree with the functions here. */
module Entries {
  import opened Flags

  /** Size of a page and of every guard page. */
  const PAGE_SIZE: nat := 4096

  /** The largest machine word (a 64-bit target); also the stand-in for
      "the address of the next entry" when there is no next entry. */
  const USIZE_MAX: nat := 0xFFFF_FFFF_FFFF_FFFF

  /** Error messages returned by the operations. */
  const NO_CHUNK: string := "No memory chunk available."
  const INSUFFICIENT: string := "Insufficient free memory in desired region."
  const NO_MAPPING: string := "No mapping with target address."
  const NOT_ALLOWED: string := "Given access type is not allowed for the data source at target address."

  datatype Result<T> = Ok(value: T) | Err(msg: string)

  /** What a call that may abort produces: a returned result, or a panic with
      its message. */
  datatype Outcome<T> = Returned(result: Result<T>) | Panicked(msg: string)

  /** One mapping: `span` bytes of `source`, starting at `offset` in it,
      seen at virtual address `addr` with permissions `flags`. The source is
      an opaque handle of type S. */
  datatype MapEntry<S> = MapEntry(source: S, offset: nat, span: nat, addr: nat, flags: FlagBuilder)

  /** What an operation on the list returns, and the list afterwards. */
  datatype Step<S, T> = Step(result: Result<T>, mappings: seq<MapEntry<S>>)

  function End<S>(e: MapEntry<S>): nat
  {
    e.addr + e.span
  }

  /** Rounds a length up to a whole number of pages: the least multiple of
      PAGE_SIZE that is at least `addr`. The requires rules out the machine
      word overflowing. */
  function RoundUp(addr: nat): (r: nat)
    requires addr <= USIZE_MAX - PAGE_SIZE + 1
    ensures r % PAGE_SIZE == 0
    ensures addr <= r < addr + PAGE_SIZE
    ensures r <= USIZE_MAX
  {
    var floor := addr / PAGE_SIZE;
    if floor * PAGE_SIZE == addr then addr else (floor + 1) * PAGE_SIZE
  }

  /** The list invariant: spans are whole pages, the first entry starts at or
      above one guard page, consecutive entries are separated by at least a
      guard page, and the last entry leaves a guard page below USIZE_MAX. */
  ghost predicate WellFormed<S>(s: seq<MapEntry<S>>)
  {
    (forall i :: 0 <= i < |s| ==> s[i].span % PAGE_SIZE == 0)
    && (forall i :: 0 < i < |s| ==> End(s[i - 1]) + PAGE_SIZE <= s[i].addr)
    && (|s| > 0 ==> PAGE_SIZE <= s[0].addr && End(s[|s| - 1]) + PAGE_SIZE <= USIZE_MAX)
  }

  // The list cursor. A position `pos < |s|` points at entry `s[pos]`; the
  // position `|s|` is the list's "ghost" position between the last and the
  // first entry, where there is no current entry, the next entry is the
  // front one, and inserting after the cursor inserts at the front.

  /** Address of the entry after the cursor, or USIZE_MAX if there is none.
      On a well-formed list it lies at least a guard page above the end of
      the entry under the cursor, so the gap the searches compute is never
      negative. */
  function NextAddr<S>(s: seq<MapEntry<S>>, pos: nat): (r: nat)
    requires pos <= |s|
    ensures WellFormed(s) ==> PrevEnd(s, pos) + PAGE_SIZE <= r
  {
    if pos < |s| then (if pos + 1 < |s| then s[pos + 1].addr else USIZE_MAX)
    else if |s| > 0 then s[0].addr else USIZE_MAX
  }

  /** End of the entry under the cursor, or 0 at the ghost position. */
  function PrevEnd<S>(s: seq<MapEntry<S>>, pos: nat): nat
    requires pos <= |s|
  {
    if pos < |s| then End(s[pos]) else 0
  }

  /** The list index that an entry inserted after the cursor receives. */
  function InsertionIndex<S>(s: seq<MapEntry<S>>, pos: nat): nat
    requires pos <= |s|
  {
    if pos < |s| then pos + 1 else 0
  }

  /** The list after inserting `e` after the cursor. */
  function InsertAfter<S>(s: seq<MapEntry<S>>, pos: nat, e: MapEntry<S>): seq<MapEntry<S>>
    requires pos <= |s|
  {
    var k := InsertionIndex(s, pos);
    s[..k] + [e] + s[k..]
  }

  // add_mapping

  /** The gap around the cursor leaves room for `span` bytes plus a guard page
      on each side. */
  predicate GapFits<S>(s: seq<MapEntry<S>>, pos: nat, span: nat)
    requires pos <= |s|
  {
    NextAddr(s, pos) - PrevEnd(s, pos) >= span + 2 * PAGE_SIZE
  }

  /** Where the first-fit search stops when started at `from`: the first
      entry whose following gap fits, or the ghost position if none does. */
  function FirstFit<S>(s: seq<MapEntry<S>>, span: nat, from: nat): (pos: nat)
    requires from <= |s|
    ensures from <= pos <= |s|
    ensures pos < |s| ==> GapFits(s, pos, span)
    ensures forall j :: from <= j < pos ==> !GapFits(s, j, span)
    decreases |s| - from
  {
    if from == |s| || GapFits(s, from, span) then from else FirstFit(s, span, from + 1)
  }

  /** add_mapping: place `span` bytes (rounded up) one guard page after the
      end of the first entry followed by a wide enough gap; if no such entry
      exists, in front of the first entry when that gap fits. The requires
      rule out the machine word overflowing while the span is rounded and
      padded with two guard pages. */
  function Place<S>(s: seq<MapEntry<S>>, source: S, offset: nat, span: nat, flags: FlagBuilder): Step<S, nat>
    requires span <= USIZE_MAX - PAGE_SIZE + 1
    requires RoundUp(span) + 2 * PAGE_SIZE <= USIZE_MAX
  {
    var sp := RoundUp(span);
    var pos := FirstFit(s, sp, 0);
    if GapFits(s, pos, sp) || |s| == 0 then
      var a := PrevEnd(s, pos) + PAGE_SIZE;
      Step(Ok(a), InsertAfter(s, pos, MapEntry(source, offset, sp, a, flags)))
    else
      Step(Err(NO_CHUNK), s)
  }

  // add_mapping_at

  /** The entry under the cursor starts below `start` and the next one (or
      USIZE_MAX) lies above it. */
  predicate Straddles<S>(s: seq<MapEntry<S>>, pos: nat, start: nat)
    requires pos < |s|
  {
    s[pos].addr < start < NextAddr(s, pos)
  }

  /** Where the search for the predecessor of `start` stops when started at
      `from`: the first entry that straddles it, or the ghost position. */
  function Predecessor<S>(s: seq<MapEntry<S>>, start: nat, from: nat): (pos: nat)
    requires from <= |s|
    ensures from <= pos <= |s|
    ensures pos < |s| ==> Straddles(s, pos, start)
    ensures forall j :: from <= j < pos ==> !Straddles(s, j, start)
    decreases |s| - from
  {
    if from == |s| || Straddles(s, from, start) then from else Predecessor(s, start, from + 1)
  }

  /** The placement at `start` is refused: the entry under the cursor ends
      less than a guard page below `start`, or the next entry begins less
      than a guard page after the new one's end. */
  predicate Conflicts<S>(s: seq<MapEntry<S>>, pos: nat, start: nat, span: nat)
    requires pos <= |s|
    requires PAGE_SIZE <= start
  {
    PrevEnd(s, pos) >= start - PAGE_SIZE
    || (NextAddr(s, pos) < start + span + PAGE_SIZE && |s| > 0)
  }

  /** add_mapping_at: place `span` bytes (rounded up) at exactly `start`,
      after the entry that straddles `start` (or at the front). The requires
      rule out the machine word wrapping around; the last also excludes some
      starts near USIZE_MAX that the guard test refuses before it computes
      `start + span + PAGE_SIZE`. */
  function PlaceAt<S>(s: seq<MapEntry<S>>, source: S, offset: nat, span: nat, start: nat,
                      flags: FlagBuilder): Step<S, ()>
    requires PAGE_SIZE <= start
    requires span <= USIZE_MAX - PAGE_SIZE + 1
    requires start + RoundUp(span) + PAGE_SIZE <= USIZE_MAX
  {
    var sp := RoundUp(span);
    var pos := Predecessor(s, start, 0);
    if Conflicts(s, pos, start, sp) then
      Step(Err(INSUFFICIENT), s)
    else
      Step(Ok(()), InsertAfter(s, pos, MapEntry(source, offset, sp, start, flags)))
  }

  // remove_mapping

  /** Where the search for base address `start` stops when started at
      `from`: the first entry with that base, or the ghost position. */
  function FindBase<S>(s: seq<MapEntry<S>>, start: nat, from: nat): (pos: nat)
    requires from <= |s|
    ensures from <= pos <= |s|
    ensures pos < |s| ==> s[pos].addr == start
    ensures forall j :: from <= j < pos ==> s[j].addr != start
    decreases |s| - from
  {
    if from == |s| || s[from].addr == start then from else FindBase(s, start, from + 1)
  }

  /** remove_mapping: drop the entry whose base is exactly `start`. */
  function Remove<S>(s: seq<MapEntry<S>>, start: nat): (r: Step<S, ()>)
    ensures r.result.Err? <==> forall k :: 0 <= k < |s| ==> s[k].addr != start
    ensures r.result.Err? ==> r == Step(Err(NO_MAPPING), s)
    ensures r.result.Ok? ==> |r.mappings| + 1 == |s|
  {
    var pos := FindBase(s, start, 0);
    if pos == |s| then Step(Err(NO_MAPPING), s)
    else Step(Ok(()), s[..pos] + s[pos + 1..])
  }

  // get_mapping_for_addr and get_source_for_addr

  /** Where the lookup of `addr` stops when started at `from`: the first
      entry whose base is not below `addr`, or the ghost position. */
  function FirstAtOrAbove<S>(s: seq<MapEntry<S>>, addr: nat, from: nat): (pos: nat)
    requires from <= |s|
    ensures from <= pos <= |s|
    ensures pos < |s| ==> addr <= s[pos].addr
    ensures forall j :: from <= j < pos ==> s[j].addr < addr
    decreases |s| - from
  {
    if from == |s| || addr <= s[from].addr then from else FirstAtOrAbove(s, addr, from + 1)
  }

  /** get_mapping_for_addr: the first entry whose base is at or above `addr`. */
  function MappingFor<S>(s: seq<MapEntry<S>>, addr: nat): (r: Result<MapEntry<S>>)
    ensures r.Err? <==> forall k :: 0 <= k < |s| ==> s[k].addr < addr
    ensures r.Ok? ==> r.value in s && addr <= r.value.addr
  {
    var pos := FirstAtOrAbove(s, addr, 0);
    if pos < |s| then Ok(s[pos]) else Err(NO_MAPPING)
  }

  /** get_source_for_addr: the lookup panics when it finds nothing; the
      request is refused when it asks for any of the six capabilities that
      the entry does not grant; otherwise the entry's source and its stored
      offset are returned. */
  function SourceFor<S>(s: seq<MapEntry<S>>, addr: nat, access: FlagBuilder): (r: Outcome<(S, nat)>)
    ensures r.Panicked? <==> forall k :: 0 <= k < |s| ==> s[k].addr < addr
    ensures r.Returned? && r.result.Err? ==> r.result.msg == NOT_ALLOWED
  {
    match MappingFor(s, addr)
    case Err(_) => Panicked(NO_MAPPING)
    case Ok(e) =>
      if access.ButNot(e.flags).Any() then Returned(Err(NOT_ALLOWED))
      else Returned(Ok((e.source, e.offset)))
  }
}
