/** Address resolution as the lookup's documentation describes it: find the
    mapping that contains the address, check the access against its flags,
    and translate the address into an offset within the mapping's source.
    The lookup in module Entries (as the address space performs it) instead
    takes the first mapping whose base is at or above the address and
    returns its offset untranslated; they agree only at base addresses. */
module Resolution {
  import opened Flags
  import opened Entries
  import opened EntryLemmas

  /** Entry `e` contains address `addr`. */
  predicate Covers<S>(e: MapEntry<S>, addr: nat)
  {
    e.addr <= addr < End(e)
  }

  /** The first entry, from `from` on, that contains `addr`, or `|s|`. */
  function FindCovering<S>(s: seq<MapEntry<S>>, addr: nat, from: nat): (pos: nat)
    requires from <= |s|
    ensures from <= pos <= |s|
    ensures pos < |s| ==> Covers(s[pos], addr)
    ensures forall j :: from <= j < pos ==> !Covers(s[j], addr)
    decreases |s| - from
  {
    if from == |s| || Covers(s[from], addr) then from else FindCovering(s, addr, from + 1)
  }

  /** Resolves `addr`: not found unless some entry contains it; refused when
      the request asks for a capability that entry lacks; otherwise that
      entry's source and the offset of `addr` within it. */
  function Resolve<S>(s: seq<MapEntry<S>>, addr: nat, access: FlagBuilder): (r: Result<(S, nat)>)
    ensures r.Ok? ==> exists k :: 0 <= k < |s| && Covers(s[k], addr)
                                  && r.value == (s[k].source, s[k].offset + (addr - s[k].addr))
    ensures r == Err(NO_MAPPING) <==> forall k :: 0 <= k < |s| ==> !Covers(s[k], addr)
  {
    var pos := FindCovering(s, addr, 0);
    if pos == |s| then Err(NO_MAPPING)
    else if access.ButNot(s[pos].flags).Any() then Err(NOT_ALLOWED)
    else Ok((s[pos].source, s[pos].offset + (addr - s[pos].addr)))
  }

  /** On a well-formed list at most one entry contains an address, and
      Resolve answers from that entry, translating the offset; when no entry
      contains the address it reports that no mapping was found. */
  lemma ResolveCorrect<S>(s: seq<MapEntry<S>>, addr: nat, access: FlagBuilder)
    requires WellFormed(s)
    ensures forall k :: 0 <= k < |s| && Covers(s[k], addr) ==>
              Resolve(s, addr, access)
                == if access.Bits() <= s[k].flags.Bits()
                   then Ok((s[k].source, s[k].offset + (addr - s[k].addr)))
                   else Err(NOT_ALLOWED)
    ensures (forall k :: 0 <= k < |s| ==> !Covers(s[k], addr)) ==> Resolve(s, addr, access) == Err(NO_MAPPING)
  {
    var pos := FindCovering(s, addr, 0);
    forall k | 0 <= k < |s| && Covers(s[k], addr)
      ensures pos == k
    {
      if pos < k {
        Separated(s, pos, k);
      } else if k < pos {
        assert false;
      }
    }
  }

  /** At the base address of an entry with a non-empty span the lookup as
      performed and the resolution agree. */
  lemma ResolveAgreesAtBase<S>(s: seq<MapEntry<S>>, k: nat, access: FlagBuilder)
    requires WellFormed(s)
    requires k < |s| && s[k].span > 0
    ensures SourceFor(s, s[k].addr, access) == Returned(Resolve(s, s[k].addr, access))
  {
    var addr := s[k].addr;
    ResolveCorrect(s, addr, access);
    assert Covers(s[k], addr);
    var pos := FirstAtOrAbove(s, addr, 0);
    if pos < k {
      Ascending(s, pos, k);
    } else if k < pos {
      assert false;
    }
    assert pos == k;
  }
}
