/** The compile-time registry of types behind `variate`, and the way from an erased value back to a variant. */
module Variate {
  import opened Machine

  // ----- types

  datatype CppType =
    | Int | Float | Char | StdString
    | Pointer(pointee: CppType)
    | Array(element: CppType, length: nat)
    | Const(unqualified: CppType)
    | Reference(referred: CppType)
    | Other(id: nat)

  /** std::decay_t, without function types. */
  function Decay(t: CppType): CppType {
    var u := if t.Reference? then t.referred else t;
    match u
    case Array(element, _) => Pointer(element)
    case Const(unqualified) => unqualified
    case _ => u
  }

  /** A type as C++ spells it: no reference below the top, no const around const or an array. */
  predicate Normal(t: CppType) {
    match t
    case Reference(u) => Object(u)
    case _ => Object(t)
  }

  predicate Object(t: CppType) {
    match t
    case Pointer(u) => Object(u)
    case Array(u, _) => Object(u)
    case Const(u) => !u.Const? && !u.Array? && Object(u)
    case Reference(_) => false
    case _ => true
  }

  /** A reference and a top-level const are dropped, an array becomes a pointer to its elements, which keep
      their const, and every other type stays. */
  lemma DecayLaws(t: CppType)
    ensures !t.Reference? ==> Decay(Reference(t)) == Decay(t)
    ensures Decay(Const(t)) == t && Decay(Reference(Const(t))) == t
    ensures t.Array? ==> Decay(t) == Pointer(t.element)
    ensures !t.Reference? && !t.Array? && !t.Const? ==> Decay(t) == t
  {
  }

  /** What is stored is never a reference, an array or const, and decaying it again changes nothing. */
  lemma DecayedIsValue(t: CppType)
    requires Normal(t)
    ensures var d := Decay(t);
            Object(d) && !d.Reference? && !d.Array? && !d.Const? && Decay(d) == d
  {
  }

  // ----- the flags

  datatype FlagId = Flag(index: nat, tag: nat)

  /** The flags whose function has been defined, each with the alternatives of the variant it returns. */
  type Flags = map<FlagId, seq<CppType>>

  ghost function From(flags: Flags, index: nat, tag: nat): set<FlagId> {
    set k | k in flags && k.tag == tag && k.index >= index
  }

  /** The first undefined flag at or after `index` is defined by appending `t` to the list of the flag before. */
  function InstantiateNextFlag(flags: Flags, t: CppType, index: nat, tag: nat): (r: (Flags, nat))
    requires index > 0 ==> Flag(index - 1, tag) in flags
    decreases From(flags, index, tag)
  {
    if Flag(index, tag) in flags then
      assert Flag(index, tag) in From(flags, index, tag) - From(flags, index + 1, tag);
      InstantiateNextFlag(flags, t, index + 1, tag)
    else
      var previous := if index > 0 then flags[Flag(index - 1, tag)] else [];
      (flags[Flag(index, tag) := previous + [t]], index)
  }

  ghost function Top(flags: set<FlagId>): (top: nat)
    ensures forall k :: k in flags ==> k.index < top
  {
    if flags == {} then 0
    else
      var k :| k in flags;
      var top := Top(flags - {k});
      if k.index < top then top else k.index + 1
  }

  /** The first defined flag at or after `index` whose successor is undefined. None stands for a template
      recursion that never ends, which the compiler rejects. */
  function LastFlag(flags: Flags, index: nat, tag: nat): (r: Option<nat>)
    ensures r.Some? ==> Flag(r.value, tag) in flags && Flag(r.value + 1, tag) !in flags
    decreases Top(flags.Keys) - index
  {
    if forall k :: k in flags && k.tag == tag ==> k.index < index then None
    else if Flag(index, tag) in flags && Flag(index + 1, tag) !in flags then Some(index)
    else LastFlag(flags, index + 1, tag)
  }

  // ----- return sites

  /** One use of `variate`: the type its tag stands for, and the type of the argument. */
  datatype Site = Site(tag: nat, arg: CppType)

  /** The registry after the sites have been instantiated in this order. */
  function AfterSites(sites: seq<Site>): Flags {
    if sites == [] then map[]
    else
      var site := sites[|sites| - 1];
      InstantiateNextFlag(AfterSites(sites[..|sites| - 1]), Decay(site.arg), 0, site.tag).0
  }

  /** The INDEX of the injector that the site gets. */
  function SiteIndex(sites: seq<Site>, k: nat): nat
    requires k < |sites|
  {
    InstantiateNextFlag(AfterSites(sites[..k]), Decay(sites[k].arg), 0, sites[k].tag).1
  }

  /** The decayed argument types of the sites of one tag, in order. */
  function TypesOf(sites: seq<Site>, tag: nat): seq<CppType> {
    if sites == [] then []
    else
      var site := sites[|sites| - 1];
      TypesOf(sites[..|sites| - 1], tag) + if site.tag == tag then [Decay(site.arg)] else []
  }

  /** The flags of `tag` are defined contiguously from zero, and flag `i` denotes the first `i + 1` types. */
  ghost predicate Registers(flags: Flags, types: seq<CppType>, tag: nat) {
    && (forall i: nat :: Flag(i, tag) in flags <==> i < |types|)
    && (forall i: nat :: i < |types| ==> flags[Flag(i, tag)] == types[..i + 1])
  }

  /** An injection takes the first free index and appends to the whole list. */
  lemma {:induction false} NextFlagIsFree(flags: Flags, types: seq<CppType>, t: CppType, index: nat, tag: nat)
    requires Registers(flags, types, tag) && index <= |types|
    requires index > 0 ==> Flag(index - 1, tag) in flags
    ensures InstantiateNextFlag(flags, t, index, tag) == (flags[Flag(|types|, tag) := types + [t]], |types|)
    decreases |types| - index
  {
    if index < |types| {
      NextFlagIsFree(flags, types, t, index + 1, tag);
    } else {
      assert types[..|types|] == types;
    }
  }

  lemma InjectionKeepsRegistry(flags: Flags, types: seq<CppType>, t: CppType, tag: nat)
    requires Registers(flags, types, tag)
    ensures Registers(flags[Flag(|types|, tag) := types + [t]], types + [t], tag)
  {
    var flags', types' := flags[Flag(|types|, tag) := types + [t]], types + [t];
    forall i: nat | i < |types'| ensures flags'[Flag(i, tag)] == types'[..i + 1] {
      if i < |types| {
        assert types'[..i + 1] == types[..i + 1];
      } else {
        assert types'[..i + 1] == types';
      }
    }
  }

  /** After any run of injections, for every tag: the flags are contiguous and list exactly the types
      injected under that tag, whatever happened under the others. */
  lemma {:induction false} RegistryAfterSites(sites: seq<Site>, tag: nat)
    ensures Registers(AfterSites(sites), TypesOf(sites, tag), tag)
  {
    if sites != [] {
      var before, site := sites[..|sites| - 1], sites[|sites| - 1];
      RegistryAfterSites(before, tag);
      RegistryAfterSites(before, site.tag);
      NextFlagIsFree(AfterSites(before), TypesOf(before, site.tag), Decay(site.arg), 0, site.tag);
      if site.tag == tag {
        InjectionKeepsRegistry(AfterSites(before), TypesOf(before, tag), Decay(site.arg), tag);
      }
    }
  }

  /** `LastFlagInstantation` ends at the last flag, or never when there is none. */
  lemma {:induction false} LastFlagIsLast(flags: Flags, types: seq<CppType>, index: nat, tag: nat)
    requires Registers(flags, types, tag) && (index == 0 || index < |types|)
    ensures LastFlag(flags, index, tag) == if types == [] then None else Some(|types| - 1)
    decreases |types| - index
  {
    if types != [] {
      assert Flag(index, tag) in flags;
      if index + 1 < |types| {
        LastFlagIsLast(flags, types, index + 1, tag);
      }
    }
  }

  lemma {:induction false} TypesGrow(sites: seq<Site>, k: nat, tag: nat)
    requires k <= |sites|
    ensures TypesOf(sites[..k], tag) <= TypesOf(sites, tag)
  {
    if k == |sites| {
      assert sites[..k] == sites;
    } else {
      assert sites[..|sites| - 1][..k] == sites[..k];
      TypesGrow(sites[..|sites| - 1], k, tag);
    }
  }

  /** A site's index is the number of sites of its tag before it, and the final list has its type there. */
  lemma SiteHasItsType(sites: seq<Site>, k: nat)
    requires k < |sites|
    ensures SiteIndex(sites, k) == |TypesOf(sites[..k], sites[k].tag)| < |TypesOf(sites, sites[k].tag)|
    ensures TypesOf(sites, sites[k].tag)[SiteIndex(sites, k)] == Decay(sites[k].arg)
  {
    var tag := sites[k].tag;
    RegistryAfterSites(sites[..k], tag);
    NextFlagIsFree(AfterSites(sites[..k]), TypesOf(sites[..k], tag), Decay(sites[k].arg), 0, tag);
    assert sites[..k + 1][..k] == sites[..k];
    TypesGrow(sites, k + 1, tag);
  }

  /** The sites of one tag. */
  lemma {:induction false} TypesCount(sites: seq<Site>, tag: nat)
    ensures |TypesOf(sites, tag)| == |set k | 0 <= k < |sites| && sites[k].tag == tag|
  {
    var mine := set k | 0 <= k < |sites| && sites[k].tag == tag;
    hide Decay;
    if sites == [] {
      assert mine == {};
    } else {
      var before, last := sites[..|sites| - 1], |sites| - 1;
      TypesCount(before, tag);
      var mine' := set k | 0 <= k < |before| && before[k].tag == tag;
      assert forall k :: 0 <= k < |before| ==> before[k] == sites[k];
      assert mine == mine' + if sites[last].tag == tag then {last} else {};
      assert last !in mine';
    }
  }

  /** A site's index is the number of earlier sites of its tag, so it tells the sites of a tag apart. */
  lemma IndexCounts(sites: seq<Site>, k: nat)
    requires k < |sites|
    ensures SiteIndex(sites, k) == |set i | 0 <= i < k && sites[i].tag == sites[k].tag|
  {
    SiteHasItsType(sites, k);
    TypesCount(sites[..k], sites[k].tag);
    assert (set i | 0 <= i < |sites[..k]| && sites[..k][i].tag == sites[k].tag)
        == set i | 0 <= i < k && sites[i].tag == sites[k].tag;
  }

  lemma IndexIncreases(sites: seq<Site>, k: nat, m: nat)
    requires k < m < |sites| && sites[k].tag == sites[m].tag
    ensures SiteIndex(sites, k) < SiteIndex(sites, m)
  {
    SiteHasItsType(sites, m);
    SiteHasItsType(sites, k);
    SiteHasItsType(sites[..m], k);
    assert sites[..m][..k] == sites[..k];
  }

  /** Every index below the number of sites of the tag belongs to one of them. */
  lemma {:induction false} IndexTaken(sites: seq<Site>, tag: nat, j: nat) returns (k: nat)
    requires j < |set k | 0 <= k < |sites| && sites[k].tag == tag|
    ensures k < |sites| && sites[k].tag == tag && SiteIndex(sites, k) == j
  {
    TypesCount(sites, tag);
    var before, last := sites[..|sites| - 1], |sites| - 1;
    TypesCount(before, tag);
    if j < |TypesOf(before, tag)| {
      k := IndexTaken(before, tag, j);
      assert before[..k] == sites[..k];
    } else {
      k := last;
      SiteHasItsType(sites, last);
    }
  }

  /** A tag has as many flags as sites, and flag `i` lists `i + 1` types. */
  lemma FlagCount(sites: seq<Site>, tag: nat, i: nat)
    ensures var flags := AfterSites(sites);
            && (Flag(i, tag) in flags <==> i < |set k | 0 <= k < |sites| && sites[k].tag == tag|)
            && (Flag(i, tag) in flags ==> |flags[Flag(i, tag)]| == i + 1)
  {
    TypesCount(sites, tag);
    RegistryAfterSites(sites, tag);
  }

  /** Position `j` of any list belongs to exactly one site of the tag, and has its decayed type. */
  lemma PositionOwner(sites: seq<Site>, tag: nat, i: nat, j: nat) returns (k: nat)
    requires j <= i && Flag(i, tag) in AfterSites(sites)
    ensures k < |sites| && sites[k].tag == tag && SiteIndex(sites, k) == j
    ensures forall m :: 0 <= m < |sites| && sites[m].tag == tag && SiteIndex(sites, m) == j ==> m == k
    ensures var list := AfterSites(sites)[Flag(i, tag)]; j < |list| && list[j] == Decay(sites[k].arg)
  {
    hide SiteIndex, Decay;
    TypesCount(sites, tag);
    RegistryAfterSites(sites, tag);
    k := IndexTaken(sites, tag, j);
    SiteHasItsType(sites, k);
    forall m | 0 <= m < |sites| && sites[m].tag == tag && SiteIndex(sites, m) == j ensures m == k {
      if m < k { IndexIncreases(sites, m, k); }
      if k < m { IndexIncreases(sites, k, m); }
    }
  }

  /** One more site defines exactly one more flag, under its own tag; every flag that was defined stays. */
  lemma OneMoreSite(sites: seq<Site>, site: Site)
    ensures var n := |set k | 0 <= k < |sites| && sites[k].tag == site.tag|;
            var before, after := AfterSites(sites), AfterSites(sites + [site]);
            && Flag(n, site.tag) !in before
            && after.Keys == before.Keys + {Flag(n, site.tag)}
            && (forall f :: f in before ==> after[f] == before[f])
            && (n > 0 ==> Flag(n - 1, site.tag) in before)
            && after[Flag(n, site.tag)]
            == (if n > 0 then before[Flag(n - 1, site.tag)] else []) + [Decay(site.arg)]
  {
    var types, sites' := TypesOf(sites, site.tag), sites + [site];
    assert sites'[..|sites|] == sites && sites'[|sites|] == site;
    assert AfterSites(sites') == InstantiateNextFlag(AfterSites(sites), Decay(site.arg), 0, site.tag).0;
    hide AfterSites, TypesOf, InstantiateNextFlag, Decay;
    TypesCount(sites, site.tag);
    RegistryAfterSites(sites, site.tag);
    NextFlagIsFree(AfterSites(sites), types, Decay(site.arg), 0, site.tag);
    assert types[..|types|] == types;
  }

  // ----- the size of the buffer

  /** The position of the first greatest element of `list[first..last]`, or `last` when the range is empty. */
  method MaxElementUnchecked(list: seq<nat>, first: nat, last: nat) returns (found: nat)
    requires first <= last <= |list|
    ensures first == last ==> found == last
    ensures first < last ==>
              && first <= found < last
              && (forall i :: first <= i < last ==> list[i] <= list[found])
              && (forall i :: first <= i < found ==> list[i] < list[found])
  {
    found := first;
    var it := first;
    if it != last {
      it := it + 1;
      while it != last
        invariant first <= found < it <= last
        invariant forall i :: first <= i < it ==> list[i] <= list[found]
        invariant forall i :: first <= i < found ==> list[i] < list[found]
      {
        if list[found] < list[it] {
          found := it;
        }
        it := it + 1;
      }
    }
  }

  function MaxOf(list: seq<nat>): nat
    requires list != []
  {
    if |list| == 1 then list[0]
    else
      var rest := MaxOf(list[1..]);
      if list[0] < rest then rest else list[0]
  }

  lemma {:induction false} MaxOfBounds(list: seq<nat>)
    requires list != []
    ensures MaxOf(list) in list && forall i :: 0 <= i < |list| ==> list[i] <= MaxOf(list)
  {
    if |list| > 1 {
      MaxOfBounds(list[1..]);
      assert forall i :: 1 <= i < |list| ==> list[i] == list[1..][i - 1];
    }
  }

  method MaxValue(list: seq<nat>) returns (max: nat)
    requires list != []
    ensures max == MaxOf(list)
  {
    MaxOfBounds(list);
    var result := MaxElementUnchecked(list, 0, |list|);
    max := list[result];
  }

  function Sizes(types: seq<CppType>, sizeOf: CppType -> nat): (sizes: seq<nat>)
    ensures |sizes| == |types| && forall i :: 0 <= i < |types| ==> sizes[i] == sizeOf(types[i])
  {
    seq(|types|, i requires 0 <= i < |types| => sizeOf(types[i]))
  }

  /** The constraint on the greatest size says that every alternative fits into the buffer. */
  lemma ConstraintMeansFits(types: seq<CppType>, sizeOf: CppType -> nat, size: nat)
    requires types != []
    ensures MaxOf(Sizes(types, sizeOf)) <= size <==> forall t :: t in types ==> sizeOf(t) <= size
  {
    var sizes := Sizes(types, sizeOf);
    MaxOfBounds(sizes);
    var i :| 0 <= i < |sizes| && sizes[i] == MaxOf(sizes);
    assert types[i] in types;
  }

  // ----- from the erased value to the variant

  datatype Datum = Whole(i: int) | Fraction(r: real) | Text(s: string)

  /** An erased value: the index, and the object constructed in the buffer with its type. */
  datatype Erased = Erased(index: nat, stored: CppType, value: Datum)

  datatype Variant = Variant(alternatives: seq<CppType>, index: nat, value: Datum)

  /** `IllFormed` is a compile-time rejection; `Reinterpreted` reads the buffer as a type it does not hold;
      `Unreachable` is the end of the search for the index. */
  datatype Outcome = Made(variant: Variant) | IllFormed | Reinterpreted | Unreachable

  /** What the use `k` of `variate` returns for the argument value. */
  function Erase(sites: seq<Site>, k: nat, value: Datum): Erased
    requires k < |sites|
  {
    Erased(SiteIndex(sites, k), Decay(sites[k].arg), value)
  }

  function ToVariantRecursive(i: nat, types: seq<CppType>, e: Erased): Outcome
    requires i < |types|
    decreases |types| - i
  {
    if e.index == i then
      if e.stored == types[i] then Made(Variant(types, i, e.value)) else Reinterpreted
    else if i < |types| - 1 then ToVariantRecursive(i + 1, types, e)
    else Unreachable
  }

  function MakeVariant(flags: Flags, tag: nat, size: nat, sizeOf: CppType -> nat, e: Erased): Outcome {
    match LastFlag(flags, 0, tag)
    case None => IllFormed
    case Some(last) =>
      var types := flags[Flag(last, tag)];
      if types != [] && MaxOf(Sizes(types, sizeOf)) <= size then ToVariantRecursive(0, types, e) else IllFormed
  }

  lemma {:induction false} IndexFound(i: nat, types: seq<CppType>, e: Erased)
    requires i <= e.index < |types| && types[e.index] == e.stored
    ensures ToVariantRecursive(i, types, e) == Made(Variant(types, e.index, e.value))
    decreases |types| - i
  {
    if i < e.index {
      IndexFound(i + 1, types, e);
    }
  }

  lemma VariantOfRegistry(flags: Flags, types: seq<CppType>, tag: nat, size: nat, sizeOf: CppType -> nat, e: Erased)
    requires Registers(flags, types, tag) && e.index < |types| && types[e.index] == e.stored
    ensures MakeVariant(flags, tag, size, sizeOf, e)
         == if forall t :: t in types ==> sizeOf(t) <= size then Made(Variant(types, e.index, e.value)) else IllFormed
  {
    LastFlagIsLast(flags, types, 0, tag);
    assert types[..|types|] == types;
    ConstraintMeansFits(types, sizeOf, size);
    IndexFound(0, types, e);
  }

  /** Whichever site a value comes from, it arrives in the variant of all the sites of its tag, under the
      site's own index, type and value. This holds exactly when every alternative fits the buffer; otherwise
      the program is ill-formed. */
  lemma RoundTrip(sites: seq<Site>, k: nat, size: nat, sizeOf: CppType -> nat, value: Datum)
    requires k < |sites|
    ensures var tag, types := sites[k].tag, TypesOf(sites, sites[k].tag);
            var outcome := MakeVariant(AfterSites(sites), tag, size, sizeOf, Erase(sites, k, value));
            && outcome == (if forall t :: t in types ==> sizeOf(t) <= size
                           then Made(Variant(types, SiteIndex(sites, k), value)) else IllFormed)
            && SiteIndex(sites, k) < |types| && types[SiteIndex(sites, k)] == Decay(sites[k].arg)
  {
    hide MakeVariant, Registers, AfterSites, TypesOf, SiteIndex, Decay;
    var tag := sites[k].tag;
    SiteHasItsType(sites, k);
    RegistryAfterSites(sites, tag);
    VariantOfRegistry(AfterSites(sites), TypesOf(sites, tag), tag, size, sizeOf, Erase(sites, k, value));
  }

  /** What every other position of that variant holds: the alternatives are the sites of the tag. */
  lemma VariantAlternatives(sites: seq<Site>, k: nat, size: nat, sizeOf: CppType -> nat, value: Datum)
    requires k < |sites|
    requires forall m :: 0 <= m < |sites| && sites[m].tag == sites[k].tag ==> sizeOf(Decay(sites[m].arg)) <= size
    ensures var outcome := MakeVariant(AfterSites(sites), sites[k].tag, size, sizeOf, Erase(sites, k, value));
            && outcome.Made?
            && outcome.variant.value == value
            && outcome.variant.index == |set i | 0 <= i < k && sites[i].tag == sites[k].tag|
            && |outcome.variant.alternatives| == |set m | 0 <= m < |sites| && sites[m].tag == sites[k].tag|
            && forall m :: 0 <= m < |sites| && sites[m].tag == sites[k].tag ==>
                 && SiteIndex(sites, m) < |outcome.variant.alternatives|
                 && outcome.variant.alternatives[SiteIndex(sites, m)] == Decay(sites[m].arg)
  {
    hide MakeVariant, AfterSites, TypesOf, SiteIndex, Decay, Erase;
    var tag := sites[k].tag;
    var types := TypesOf(sites, tag);
    TypesCount(sites, tag);
    IndexCounts(sites, k);
    RoundTrip(sites, k, size, sizeOf, value);
    forall m | 0 <= m < |sites| && sites[m].tag == tag
      ensures SiteIndex(sites, m) < |types| && types[SiteIndex(sites, m)] == Decay(sites[m].arg)
    {
      SiteHasItsType(sites, m);
    }
    forall t | t in types ensures sizeOf(t) <= size {
      var j :| 0 <= j < |types| && types[j] == t;
      var m := IndexTaken(sites, tag, j);
      assert types[SiteIndex(sites, m)] == Decay(sites[m].arg);
    }
  }

  /** What the search for the index finds in general. */
  lemma {:induction false} SearchOutcome(i: nat, types: seq<CppType>, e: Erased)
    requires i < |types|
    ensures ToVariantRecursive(i, types, e) ==
            if !(i <= e.index < |types|) then Unreachable
            else if types[e.index] != e.stored then Reinterpreted
            else Made(Variant(types, e.index, e.value))
    decreases |types| - i
  {
    if e.index != i && i + 1 < |types| {
      SearchOutcome(i + 1, types, e);
    }
  }

  /** Without a site of the tag, there is no variant to make. */
  lemma NoSiteIsIllFormed(sites: seq<Site>, tag: nat, size: nat, sizeOf: CppType -> nat, e: Erased)
    requires forall k :: 0 <= k < |sites| ==> sites[k].tag != tag
    ensures MakeVariant(AfterSites(sites), tag, size, sizeOf, e) == IllFormed
  {
    TypesCount(sites, tag);
    assert (set k | 0 <= k < |sites| && sites[k].tag == tag) == {};
    RegistryAfterSites(sites, tag);
    LastFlagIsLast(AfterSites(sites), [], 0, tag);
  }

  // ----- the example functions

  const LONG_TEXT := "a very very long test test"

  /** The return sites of `code3`, under some tag. */
  function Code3Sites(tag: nat): seq<Site> {
    [Site(tag, Float), Site(tag, Int), Site(tag, StdString)]
  }

  function Code3(tag: nat, ok: int): Erased {
    if ok <= 5 then Erase(Code3Sites(tag), 0, Fraction(1.5))
    else if ok > 5 && ok <= 10 then Erase(Code3Sites(tag), 1, Whole(42))
    else Erase(Code3Sites(tag), 2, Text(LONG_TEXT))
  }

  /** The variant written by hand. */
  function Comp3(ok: int): Variant {
    var alternatives := [Float, Int, StdString];
    if ok <= 5 then Variant(alternatives, 0, Fraction(1.5))
    else if ok > 5 && ok <= 10 then Variant(alternatives, 1, Whole(42))
    else Variant(alternatives, 2, Text(LONG_TEXT))
  }

  lemma Code3Types(tag: nat)
    ensures TypesOf(Code3Sites(tag), tag) == [Float, Int, StdString]
    ensures forall k :: 0 <= k < 3 ==> SiteIndex(Code3Sites(tag), k) == k
  {
    var sites := Code3Sites(tag);
    assert sites[..2] == [Site(tag, Float), Site(tag, Int)];
    assert sites[..2][..1] == [Site(tag, Float)] == sites[..1];
    assert sites[..1][..0] == [];
    assert TypesOf(sites[..0], tag) == [];
    assert TypesOf(sites[..1], tag) == [Float];
    assert TypesOf(sites[..2], tag) == [Float, Int];
    forall k | 0 <= k < 3 ensures SiteIndex(sites, k) == k {
      SiteHasItsType(sites, k);
    }
  }

  /** What `make_variant(code3, ok)` is for every `ok`. */
  lemma Code3Variant(tag: nat, sizeOf: CppType -> nat, ok: int)
    requires sizeOf(Float) <= 256 && sizeOf(Int) <= 256 && sizeOf(StdString) <= 256
    ensures var outcome := MakeVariant(AfterSites(Code3Sites(tag)), tag, 256, sizeOf, Code3(tag, ok));
            var alternatives := [Float, Int, StdString];
            && (ok <= 5 ==> outcome == Made(Variant(alternatives, 0, Fraction(1.5))))
            && (5 < ok <= 10 ==> outcome == Made(Variant(alternatives, 1, Whole(42))))
            && (10 < ok ==> outcome == Made(Variant(alternatives, 2, Text("a very very long test test"))))
  {
    Code3IsComp3(tag, sizeOf, ok);
  }

  /** `make_variant(code3, ok)` is `comp3(ok)` for every `ok`. */
  lemma Code3IsComp3(tag: nat, sizeOf: CppType -> nat, ok: int)
    requires sizeOf(Float) <= 256 && sizeOf(Int) <= 256 && sizeOf(StdString) <= 256
    ensures MakeVariant(AfterSites(Code3Sites(tag)), tag, 256, sizeOf, Code3(tag, ok)) == Made(Comp3(ok))
  {
    Code3Types(tag);
    if ok <= 5 {
      RoundTrip(Code3Sites(tag), 0, 256, sizeOf, Fraction(1.5));
    } else if ok <= 10 {
      RoundTrip(Code3Sites(tag), 1, 256, sizeOf, Whole(42));
    } else {
      RoundTrip(Code3Sites(tag), 2, 256, sizeOf, Text(LONG_TEXT));
    }
  }

  /** The return sites of `code2`: a float, and a string literal passed by reference. */
  function Code2Sites(tag: nat): seq<Site> {
    [Site(tag, Float), Site(tag, Reference(Array(Const(Char), |LONG_TEXT| + 1)))]
  }

  function Code2(tag: nat, ok: bool): Erased {
    if ok then Erase(Code2Sites(tag), 0, Fraction(1.5)) else Erase(Code2Sites(tag), 1, Text(LONG_TEXT))
  }

  /** `make_variant(code2, ok)` is a variant of a float and a pointer to constant characters. */
  lemma Code2Variant(tag: nat, sizeOf: CppType -> nat, ok: bool)
    requires sizeOf(Float) <= 256 && sizeOf(Pointer(Const(Char))) <= 256
    ensures MakeVariant(AfterSites(Code2Sites(tag)), tag, 256, sizeOf, Code2(tag, ok))
         == Made(Variant([Float, Pointer(Const(Char))], if ok then 0 else 1,
                         if ok then Fraction(1.5) else Text("a very very long test test")))
  {
    var sites := Code2Sites(tag);
    assert sites[..1][..0] == [];
    assert TypesOf(sites[..0], tag) == [];
    assert TypesOf(sites[..1], tag) == [Float];
    assert TypesOf(sites, tag) == [Float, Pointer(Const(Char))];
    SiteHasItsType(sites, 0);
    SiteHasItsType(sites, 1);
    RoundTrip(sites, if ok then 0 else 1, 256, sizeOf, if ok then Fraction(1.5) else Text(LONG_TEXT));
  }

  /** The sites of `code` and `code1` together, in the order of the file. */
  function CodeSites(tag: nat, tag1: nat): seq<Site> {
    [Site(tag, Int), Site(tag, StdString), Site(tag1, Int)]
  }

  /** `code` and `code1` have tags of their own: `make_variant(code, ok)` chooses between two alternatives
      and `make_variant(code1)` has only one. */
  lemma CodeVariants(tag: nat, tag1: nat, sizeOf: CppType -> nat)
    requires tag != tag1 && sizeOf(Int) <= 256 && sizeOf(StdString) <= 256
    ensures var sites := CodeSites(tag, tag1);
            var flags := AfterSites(sites);
            && MakeVariant(flags, tag, 256, sizeOf, Erase(sites, 0, Whole(42)))
            == Made(Variant([Int, StdString], 0, Whole(42)))
            && MakeVariant(flags, tag, 256, sizeOf, Erase(sites, 1, Text("a very very long test test")))
            == Made(Variant([Int, StdString], 1, Text("a very very long test test")))
            && MakeVariant(flags, tag1, 256, sizeOf, Erase(sites, 2, Whole(42)))
            == Made(Variant([Int], 0, Whole(42)))
  {
    hide MakeVariant, AfterSites, SiteIndex, Erase;
    CodeTypes(tag, tag1);
    RoundTrip(CodeSites(tag, tag1), 0, 256, sizeOf, Whole(42));
    RoundTrip(CodeSites(tag, tag1), 1, 256, sizeOf, Text("a very very long test test"));
    RoundTrip(CodeSites(tag, tag1), 2, 256, sizeOf, Whole(42));
  }

  lemma CodeTypes(tag: nat, tag1: nat)
    requires tag != tag1
    ensures var sites := CodeSites(tag, tag1);
            && TypesOf(sites, tag) == [Int, StdString] && TypesOf(sites, tag1) == [Int]
            && SiteIndex(sites, 0) == 0 && SiteIndex(sites, 1) == 1 && SiteIndex(sites, 2) == 0
  {
    var sites := CodeSites(tag, tag1);
    assert sites[..2] == [Site(tag, Int), Site(tag, StdString)];
    assert sites[..2][..1] == [Site(tag, Int)] == sites[..1];
    assert sites[..1][..0] == [] == sites[..0];
    assert TypesOf(sites[..0], tag) == [] == TypesOf(sites[..0], tag1);
    assert TypesOf(sites[..1], tag) == [Int] && TypesOf(sites[..1], tag1) == [];
    assert TypesOf(sites[..2], tag) == [Int, StdString] && TypesOf(sites[..2], tag1) == [];
    SiteHasItsType(sites, 0);
    SiteHasItsType(sites, 1);
    SiteHasItsType(sites, 2);
  }
}
