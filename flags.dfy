/** Permission flags of a mapping: six independent yes/no capabilities that
    mirror hardware page-table bits, built up by value (no mutation). */
module Flags {

  /** One capability; the reference view of a flag value is the set of these
      that are switched on. */
  datatype Perm = Read | Write | Execute | Cow | Private | Shared

  /** Flips membership of `p` in `bits`. */
  function Flip(bits: set<Perm>, p: Perm): set<Perm>
  {
    if p in bits then bits - {p} else bits + {p}
  }

  /** Every capability. */
  const ALL_PERMS: set<Perm> := {Read, Write, Execute, Cow, Private, Shared}

  /** The capabilities that read, write and execute requests are checked on. */
  const ACCESS_BITS: set<Perm> := {Read, Write, Execute}

  datatype FlagBuilder = FlagBuilder(read: bool, write: bool, execute: bool,
                                     cow: bool, private: bool, shared: bool)
  {
    /** Whether capability `p` is switched on. */
    predicate Has(p: Perm)
    {
      match p
      case Read => read
      case Write => write
      case Execute => execute
      case Cow => cow
      case Private => private
      case Shared => shared
    }

    /** The set of capabilities this value switches on. */
    function Bits(): set<Perm>
    {
      set p | p in ALL_PERMS && Has(p)
    }

    function ToggleRead(): (r: FlagBuilder)
      ensures r.Bits() == Flip(Bits(), Read)
    {
      this.(read := !read)
    }

    function ToggleWrite(): (r: FlagBuilder)
      ensures r.Bits() == Flip(Bits(), Write)
    {
      this.(write := !write)
    }

    function ToggleExecute(): (r: FlagBuilder)
      ensures r.Bits() == Flip(Bits(), Execute)
    {
      this.(execute := !execute)
    }

    function ToggleCow(): (r: FlagBuilder)
      ensures r.Bits() == Flip(Bits(), Cow)
    {
      this.(cow := !cow)
    }

    function TogglePrivate(): (r: FlagBuilder)
      ensures r.Bits() == Flip(Bits(), Private)
    {
      this.(private := !private)
    }

    function ToggleShared(): (r: FlagBuilder)
      ensures r.Bits() == Flip(Bits(), Shared)
    {
      this.(shared := !shared)
    }

    /** Combines two values; despite its name this is a per-flag OR. */
    function And(other: FlagBuilder): (r: FlagBuilder)
      ensures r.Bits() == Bits() + other.Bits()
    {
      FlagBuilder(read || other.read, write || other.write, execute || other.execute,
                  cow || other.cow, private || other.private, shared || other.shared)
    }

    /** Turns off every flag that is on in `other` (per-flag AND-NOT). */
    function ButNot(other: FlagBuilder): (r: FlagBuilder)
      ensures r.Bits() == Bits() - other.Bits()
    {
      FlagBuilder(read && !other.read, write && !other.write, execute && !other.execute,
                  cow && !other.cow, private && !other.private, shared && !other.shared)
    }

    /** Whether any of the six flags is on. */
    function Any(): (b: bool)
      ensures b <==> Bits() != {}
    {
      assert Read in Bits() <==> read;
      assert Write in Bits() <==> write;
      assert Execute in Bits() <==> execute;
      assert Cow in Bits() <==> cow;
      assert Private in Bits() <==> private;
      assert Shared in Bits() <==> shared;
      read || write || execute || cow || private || shared
    }

    /** A combination is invalid when it is both private and shared, or both
        copy-on-write and writable. */
    function IsValid(): (b: bool)
      ensures b <==> !({Private, Shared} <= Bits()) && !({Cow, Write} <= Bits())
    {
      if private && shared then false
      else if cow && write then false
      else true
    }

    /** Every read, write or execute capability requested is granted; the
        other three flags are not looked at. */
    function CheckAccessPerms(accessPerms: FlagBuilder): (b: bool)
      ensures b <==> accessPerms.Bits() * ACCESS_BITS <= Bits()
    {
      assert Read in accessPerms.Bits() <==> accessPerms.read;
      assert Write in accessPerms.Bits() <==> accessPerms.write;
      assert Execute in accessPerms.Bits() <==> accessPerms.execute;
      assert Read in Bits() <==> read;
      assert Write in Bits() <==> write;
      assert Execute in Bits() <==> execute;
      if (accessPerms.read && !read) || (accessPerms.write && !write)
         || (accessPerms.execute && !execute) then false
      else true
    }
  }

  /** All flags off. */
  function New(): (f: FlagBuilder)
    ensures f.Bits() == {}
  {
    FlagBuilder(false, false, false, false, false, false)
  }

  function OnlyRead(): (f: FlagBuilder)
    ensures f.Bits() == {Read}
  {
    New().(read := true)
  }

  function OnlyWrite(): (f: FlagBuilder)
    ensures f.Bits() == {Write}
  {
    New().(write := true)
  }

  function OnlyExecute(): (f: FlagBuilder)
    ensures f.Bits() == {Execute}
  {
    New().(execute := true)
  }

  function OnlyCow(): (f: FlagBuilder)
    ensures f.Bits() == {Cow}
  {
    New().(cow := true)
  }

  function OnlyPrivate(): (f: FlagBuilder)
    ensures f.Bits() == {Private}
  {
    New().(private := true)
  }

  function OnlyShared(): (f: FlagBuilder)
    ensures f.Bits() == {Shared}
  {
    New().(shared := true)
  }

  /** The set view loses nothing: two values with the same capabilities are equal. */
  lemma BitsInjective(f: FlagBuilder, g: FlagBuilder)
    requires f.Bits() == g.Bits()
    ensures f == g
  {
    assert f.read <==> Read in f.Bits();
    assert f.write <==> Write in f.Bits();
    assert f.execute <==> Execute in f.Bits();
    assert f.cow <==> Cow in f.Bits();
    assert f.private <==> Private in f.Bits();
    assert f.shared <==> Shared in f.Bits();
    assert g.read <==> Read in g.Bits();
    assert g.write <==> Write in g.Bits();
    assert g.execute <==> Execute in g.Bits();
    assert g.cow <==> Cow in g.Bits();
    assert g.private <==> Private in g.Bits();
    assert g.shared <==> Shared in g.Bits();
  }

  /** Toggling a flag twice gives back the value toggled. */
  lemma ToggleTwice(f: FlagBuilder)
    ensures f.ToggleRead().ToggleRead() == f
    ensures f.ToggleWrite().ToggleWrite() == f
    ensures f.ToggleExecute().ToggleExecute() == f
    ensures f.ToggleCow().ToggleCow() == f
    ensures f.TogglePrivate().TogglePrivate() == f
    ensures f.ToggleShared().ToggleShared() == f
  {
  }

  /** The two documented examples of `and` and `but_not`. */
  lemma DocExamples()
    ensures OnlyRead().And(OnlyExecute()) == New().ToggleRead().ToggleExecute()
    ensures OnlyRead().ToggleExecute().ButNot(OnlyExecute()) == New().ToggleRead()
  {
  }

  /** The all-six check used when resolving an address is at least as strict
      as `CheckAccessPerms`, and strictly more: a copy-on-write request on a
      mapping without that flag passes one and fails the other. */
  lemma AccessPoliciesDiffer(f: FlagBuilder, access: FlagBuilder)
    ensures !access.ButNot(f).Any() ==> f.CheckAccessPerms(access)
    ensures New().CheckAccessPerms(OnlyCow()) && OnlyCow().ButNot(New()).Any()
  {
  }
}
