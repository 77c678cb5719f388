# Simulated virtual address space: a Dafny model

This project models the address-space mapping manager of `src/address_space.rs`.
An `AddressSpace` keeps a list of mapping records (`MapEntry`: source handle,
offset, span, base address, permission flags). The list is sorted by base
address and keeps at least one guard page (4096 bytes) between neighbours.
The manager offers four operations:

- first-fit insertion (`add_mapping`);
- insertion at a fixed address (`add_mapping_at`);
- removal by exact base address (`remove_mapping`);
- address resolution with a permission check (`get_source_for_addr`, built on
  `get_mapping_for_addr`).

It also covers `FlagBuilder`, a value of six permission bits (read, write,
execute, copy-on-write, private, shared) with its constructors, toggles, `and`
(per-bit OR), `but_not` (per-bit AND-NOT), `is_valid` and `check_access_perms`.

Layout:

- `flags.dfy`, module `Flags`: `FlagBuilder` as a datatype of six booleans. Its
  reference view `Bits()` is the set of capabilities switched on. Every
  operation's contract is stated on that set. `Any()` names the six-way OR
  that resolution writes inline.
- `entries.dfy`, module `Entries`: constants, `MapEntry`, the list invariant
  `WellFormed`, and the list cursor. The cursor is an index. Index `|s|` is the
  linked list's "ghost" position: there is no current entry there, the next
  entry is the front one, and inserting after it inserts at the front.
  Each search loop of the source is a recursive function with a declarative
  contract (`FirstFit`, `Predecessor`, `FindBase`, `FirstAtOrAbove`). Each
  operation is a pure function on the list (`Place`, `PlaceAt`, `Remove`,
  `MappingFor`, `SourceFor`).
- `lemmas.dfy`, module `EntryLemmas`: what each operation guarantees.
- `address_space.dfy`, module `Space`: the `AddressSpace` class. It has a
  `seq<MapEntry<S>>` field and methods that walk the cursor with `while`
  loops and splice the list in place. Each method is proved to agree with its
  list function.
- `resolution.dfy`, module `Resolution`: the resolution the lookup's
  documentation describes (see Findings).
- `scenarios.dfy`, module `Scenarios`: concrete runs taken from the
  repository's tests and documentation.

Points of the code as written in `src/address_space.rs`, all modelled as they
stand:

- A second one-byte `add_mapping` returns `3 * PAGE_SIZE`: the new entry goes
  one guard page after the end of the first one-page entry at `PAGE_SIZE`.
- The lookup returns the first entry whose base is at or above the address (a
  successor). It does not check that the address lies inside that entry, and
  `get_source_for_addr` returns the entry's stored offset untranslated.
- `get_source_for_addr` checks all six bits through `but_not`.
  `check_access_perms` checks only read, write and execute.
  `Flags.AccessPoliciesDiffer` relates the two.
- `add_mapping_at` does not align `start`, so base addresses are not always page
  aligned. Spans always are. `add_mapping` keeps alignment when every entry
  already has it.
- Neither insertion calls `is_valid`.
- `add_mapping_at` wants strictly more than a page below `start`, but only at
  least a page above the new region. So it can never place at `PAGE_SIZE`, the
  base that `add_mapping` picks on an empty space.
- The test in `src/lib.rs` expects a second `add_mapping_at` at
  `2 * PAGE_SIZE + 3` to succeed. Under the guard check it fails
  (`Scenarios.AddMappingAtTwice`).

## Model

| member | source | states |
|---|---|---|
| `Entries.RoundUp` | src/address_space.rs:57-64 | the result is a multiple of PAGE_SIZE, at least the input and less than a page above it (the least such multiple; the input itself when already aligned); the requires excludes the machine-word overflow |
| `Entries.FirstFit` | src/address_space.rs:80-96 | the first-fit search stops at the first entry whose following gap (to the next base, or USIZE_MAX) holds the span plus two guard pages, and at the ghost position when none does |
| `Entries.NextAddr` | src/address_space.rs:97-102 | the address `peek_next` yields (the next base, the front base at the ghost position, USIZE_MAX when there is none) lies on a well-formed list at least a guard page above `PrevEnd`, so `next - end` is never negative |
| `Entries.PrevEnd` | src/address_space.rs:103-108 | the end of the entry under the cursor (`current`), 0 at the ghost position; its bound is stated by `Entries.NextAddr` and `EntryLemmas.Separated` |
| `Entries.InsertAfter` | src/address_space.rs:110-117 | `insert_after`: the entry goes after the cursor, or at the front from the ghost position; `EntryLemmas.InsertWellFormed` states that it keeps the list invariant when the guard gaps on both sides hold |
| `Entries.GapFits` | src/address_space.rs:92 | the gap test of the first-fit loop, re-tested at line 109: the following gap holds the span plus two guard pages; `Entries.FirstFit` and `EntryLemmas.PlaceSucceedsIff` state what it selects |
| `Entries.Place` | src/address_space.rs:70-124 | the list operation of add_mapping; `EntryLemmas.PlaceSucceedsIff`, `EntryLemmas.PlaceFirstFit`, `EntryLemmas.PlaceKeepsWellFormed` and `EntryLemmas.PlaceKeepsAligned` carry its contract |
| `EntryLemmas.Separated` | src/address_space.rs:92 | on a well-formed list every entry ends at least a guard page below every later base; this is what keeps `next_address - this_ending` from underflowing |
| `EntryLemmas.PlaceSucceedsIff` | src/address_space.rs:97-123 | add_mapping succeeds iff the list is empty or some gap fits: after some entry, or in front of the first entry |
| `EntryLemmas.PlaceFirstFit` | src/address_space.rs:80-118 | on success the base is one guard page after the end of the first entry whose gap fits; when no such entry exists, the base is PAGE_SIZE, in front of the list |
| `EntryLemmas.PlaceKeepsWellFormed` | src/address_space.rs:109-123 | on success exactly one entry (rounded span, returned base) is inserted and the list stays sorted, guard-separated and page-spanned; on failure the result is "No memory chunk available." and the list is unchanged |
| `EntryLemmas.PlaceKeepsAligned` | src/address_space.rs:77-118 | if every base is page aligned, the returned base and every base afterwards are page aligned |
| `Space.AddressSpace.AddMapping` | src/address_space.rs:70-124 | the cursor loop returns the result of `Entries.Place` on the old list and leaves its list, keeping the list invariant |
| `Entries.Predecessor` | src/address_space.rs:141-155 | the predecessor search stops at the first entry with `addr < start < next base` (next base USIZE_MAX for the last entry), or at the ghost position |
| `Entries.Straddles` | src/address_space.rs:151 | the stop test of the predecessor loop: the current base is below `start` and the next base (or USIZE_MAX) above it; `Entries.Predecessor` states what it selects |
| `Entries.Conflicts` | src/address_space.rs:164 | the refusal test of add_mapping_at: the previous end is within a guard page of `start`, or the list is non-empty and the next base is less than a guard page above the new region; `EntryLemmas.PlaceAtSucceedsIff` states it over the whole list |
| `Entries.PlaceAt` | src/address_space.rs:130-179 | the list operation of add_mapping_at; `EntryLemmas.PlaceAtSucceedsIff`, `EntryLemmas.PlaceAtKeepsWellFormed`, `EntryLemmas.PlaceAtExistingBaseFails` and `EntryLemmas.PlaceAtThenRemove` carry its contract |
| `EntryLemmas.PlaceAtSucceedsIff` | src/address_space.rs:156-167 | on a well-formed list add_mapping_at succeeds iff `start > PAGE_SIZE` and every entry either ends more than a page below `start` or begins at least a page after `start + span` |
| `EntryLemmas.PlaceAtKeepsWellFormed` | src/address_space.rs:164-178 | on success exactly one entry with base `start` and the rounded span is inserted and the list stays well formed; on failure the result is "Insufficient free memory in desired region." and the list is unchanged |
| `EntryLemmas.PlaceAtExistingBaseFails` | src/address_space.rs:151-167 | add_mapping_at at an address that is already some entry's base fails and changes nothing |
| `EntryLemmas.PlaceAtThenRemove` | src/address_space.rs:169-203 | removing the base add_mapping_at just placed gives back the previous list exactly, so repeating that add_mapping_at succeeds again at the same base |
| `Space.AddressSpace.AddMappingAt` | src/address_space.rs:130-179 | the cursor loop returns the result of `Entries.PlaceAt` on the old list and leaves its list, keeping the list invariant |
| `Entries.FindBase` | src/address_space.rs:190-197 | the removal search stops at the first entry whose base equals `start`, or at the ghost position |
| `Entries.Remove` | src/address_space.rs:185-205 | remove_mapping fails with "No mapping with target address." and the list unchanged iff no base equals `start`; on success the list is one entry shorter; `EntryLemmas.RemoveCorrect` states which entry goes |
| `EntryLemmas.RemoveCorrect` | src/address_space.rs:190-204 | remove succeeds iff some entry has base `start`; that entry is unique, it alone is deleted, the others keep their order and the list stays well formed; otherwise the result is "No mapping with target address." and nothing changes |
| `Space.AddressSpace.RemoveMapping` | src/address_space.rs:185-205 | the cursor loop returns the result of `Entries.Remove` on the old list and leaves its list; the source argument is not consulted |
| `Entries.FirstAtOrAbove` | src/address_space.rs:229-232 | the lookup loop stops at the first entry whose base is not below the address, or at the ghost position |
| `Entries.MappingFor` | src/address_space.rs:228-237 | get_mapping_for_addr fails iff every base is below the address; otherwise it returns an entry of the list whose base is at or above it; `EntryLemmas.MappingForIsSuccessor` adds that it is the first such and has the least such base |
| `EntryLemmas.MappingForIsSuccessor` | src/address_space.rs:228-237 | the lookup fails iff every base is below the address; otherwise it returns the first entry in list order with base at or above it, which on a well-formed list has the least such base |
| `Space.AddressSpace.GetMappingForAddr` | src/address_space.rs:228-237 | the loop returns exactly `Entries.MappingFor`: an entry of the list with base at or above the address and the least such base, or an error iff none exists |
| `Entries.SourceFor` | src/address_space.rs:213-225 | get_source_for_addr panics iff every base is below the address, and any error it returns is the access refusal; `EntryLemmas.SourceForCases` states when it refuses and what it returns |
| `EntryLemmas.SourceForCases` | src/address_space.rs:218-224 | resolution panics iff every base is below the address; otherwise it refuses iff the request has a bit (any of six) the found entry lacks, and else returns that entry's source and stored offset |
| `Space.AddressSpace.GetSourceForAddr` | src/address_space.rs:213-225 | returns exactly `Entries.SourceFor`: a panic iff no base is at or above the address; on success a source and offset of an entry at or above the address whose flags include every requested bit |
| `Space.AddressSpace.constructor` | src/address_space.rs:50-55 | a new address space has the given name and an empty list |
| `Flags.New` | src/address_space.rs:311-315 | no flag is on |
| `Flags.OnlyRead` | src/address_space.rs:290-297 | only the read flag is on |
| `Flags.OnlyWrite` | src/address_space.rs:318 | only the write flag is on |
| `Flags.OnlyExecute` | src/address_space.rs:319 | only the execute flag is on |
| `Flags.OnlyCow` | src/address_space.rs:320 | only the copy-on-write flag is on |
| `Flags.OnlyPrivate` | src/address_space.rs:321 | only the private flag is on |
| `Flags.OnlyShared` | src/address_space.rs:322 | only the shared flag is on |
| `Flags.FlagBuilder.ToggleRead` | src/address_space.rs:299-306 | flips the read flag and no other |
| `Flags.FlagBuilder.ToggleWrite` | src/address_space.rs:318 | flips the write flag and no other |
| `Flags.FlagBuilder.ToggleExecute` | src/address_space.rs:319 | flips the execute flag and no other |
| `Flags.FlagBuilder.ToggleCow` | src/address_space.rs:320 | flips the copy-on-write flag and no other |
| `Flags.FlagBuilder.TogglePrivate` | src/address_space.rs:321 | flips the private flag and no other |
| `Flags.FlagBuilder.ToggleShared` | src/address_space.rs:322 | flips the shared flag and no other |
| `Flags.ToggleTwice` | src/address_space.rs:299-306 | toggling any flag twice gives back the original value |
| `Flags.FlagBuilder.And` | src/address_space.rs:337-353 | the result's flags are the union of both operands' flags (per-flag OR) |
| `Flags.FlagBuilder.ButNot` | src/address_space.rs:367-383 | the result's flags are those of the receiver that are not in the argument (per-flag AND-NOT) |
| `Flags.FlagBuilder.Any` | src/address_space.rs:220 | true iff at least one of the six flags is on |
| `Flags.FlagBuilder.IsValid` | src/address_space.rs:272-280 | false exactly when private and shared are both on, or copy-on-write and write are both on |
| `Flags.FlagBuilder.CheckAccessPerms` | src/address_space.rs:265-270 | true iff every read, write or execute flag of the request is on in the receiver; copy-on-write, private and shared are ignored |
| `Flags.BitsInjective` | src/address_space.rs:253-262 | two flag values with the same set of capabilities are equal, so the set view loses nothing |
| `Flags.DocExamples` | src/address_space.rs:330-366 | `read().and(execute()) == new().toggle_read().toggle_execute()` and `read().toggle_execute().but_not(execute()) == new().toggle_read()` |
| `Flags.AccessPoliciesDiffer` | src/address_space.rs:219-270 | passing the six-bit check of resolution implies passing check_access_perms, and a copy-on-write request on a mapping with no flags passes the latter but fails the former |
| `Scenarios.FirstAddMapping` | src/lib.rs:34-35 | on an empty space a one-byte add_mapping returns PAGE_SIZE and leaves one one-page entry there |
| `Scenarios.SecondAddMapping` | src/lib.rs:37-39 | a second one-byte add_mapping returns 3 * PAGE_SIZE (non-zero, distinct from the first) and appends the entry |
| `Scenarios.AddMappingAtTwice` | src/lib.rs:60-69 | add_mapping_at at PAGE_SIZE + 1 succeeds on an empty space; a second call at 2 * PAGE_SIZE + 3, or at the same address, fails and changes nothing |
| `Scenarios.AutoBaseNotReusable` | src/address_space.rs:164 | the base PAGE_SIZE that add_mapping picks on an empty space is freed by remove_mapping, but add_mapping_at cannot take it |
| `Scenarios.ReadOnlyMapping` | src/address_space.rs:218-224 | a read-only mapping grants a read request with its source and offset and refuses a write request |
| `Scenarios.SourceForMissesCoveringEntry` | src/address_space.rs:228-237 | an address inside a mapping but above its base makes resolution panic, or return the next mapping's source and offset; the documented resolution returns the containing mapping with offset 1 |
| `Resolution.Resolve` | src/address_space.rs:207-212 | the documented resolution: a success comes from an entry containing the address, with offset `entry.offset + (addr - entry.addr)`, and "no mapping" is reported iff no entry contains the address |
| `Resolution.ResolveCorrect` | src/address_space.rs:207-212 | on a well-formed list at most one entry contains the address; resolution answers from it with offset `entry.offset + (addr - entry.addr)`, refuses requests for missing flags, and reports no mapping when no entry contains the address |
| `Resolution.ResolveAgreesAtBase` | src/address_space.rs:228-237 | at the base address of a non-empty entry the lookup as written and the documented resolution give the same answer |

## Findings

| source | as written | input that shows it | evidently intended | confidence | as-written member | corrected member |
|---|---|---|---|---|---|---|
| src/address_space.rs:228-237 | the lookup takes the first mapping whose base is at or above the address, with no containment check, and the stored offset is returned untranslated | one mapping at 4096 with span 4096, query 4097: the lookup finds nothing and resolution panics; with a second mapping at 12288, it returns the second mapping's source and offset | return the source of the mapping that contains the address, with offset `entry.offset + (addr - entry.addr)`, and an error when no mapping contains it (the doc comment at lines 207-212) | high; not executed | `Scenarios.SourceForMissesCoveringEntry` | `Resolution.ResolveCorrect` |

The class keeps the lookup as written (`Space.AddressSpace.GetSourceForAddr`).
The corrected resolution is the function `Resolution.Resolve`. Nothing else in
the model depends on address resolution.

## Left out

- Data sources: `DataSource`, `FileDataSource` and `Arc` reference counting are
  foreign I/O types. The source handle is an opaque type parameter `S`, and
  clone and drop are not modelled. `src/data_source.rs` and the `cacher` module
  are not part of this model.
- `MapEntry::new` is the datatype constructor `MapEntry`. It has no behaviour
  beyond building the record.
- The `name` field is kept as a constant with no behaviour. The `println!`
  diagnostics in `add_mapping` and `add_mapping_at` are left out.
- Machine-word arithmetic: integers are unbounded. `USIZE_MAX` assumes a 64-bit
  target and stands for "no next entry". Preconditions exclude the inputs for
  which the code could wrap around, instead of modelling wrap-around:
  `round_up` near USIZE_MAX, `span + 2 * PAGE_SIZE`, `start - PAGE_SIZE` for
  `start < PAGE_SIZE`, and `start + span + PAGE_SIZE`. The list invariant keeps
  `next - end` from going negative.
- PlaceAt: the requires `start + RoundUp(span) + PAGE_SIZE <= USIZE_MAX` is
  stronger than the code needs. `||` at `src/address_space.rs:164` tests
  `prev_end >= start - PAGE_SIZE` first and returns the "Insufficient free
  memory in desired region." error without computing the sum. So for a start
  near USIZE_MAX just above an entry, the code returns that error without
  overflowing, but the model does not cover that input.
- AddMappingAt: carries the same requires as `Entries.PlaceAt` and leaves out
  the same near-USIZE_MAX starts that the code refuses before the sum.
- The `.expect` in `get_source_for_addr` panics when the lookup finds nothing.
  It is modelled as the distinct outcome `Panicked`, not as an `Err`.
- The linked list's nodes, and the aliasing of cursors into them, are modelled
  as a sequence. `insert_after` and `remove_current` become sequence splices.
- The tests in `src/lib.rs` call `add_mapping` and `add_mapping_at` without the
  `flags` argument. The scenario lemmas supply flags explicitly.
- Concurrency and locking: the structure is single-threaded, and callers
  serialise access.
