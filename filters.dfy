/**
 * File filters of the signing pipeline: which manifests to keep
 * (`ConfigTypeFilter`, `SignableFilter`), the order they are tried in
 * (`sort_by_access`) and `apply_filters`. The file system is a `Disk` value:
 * which paths are directories, which manifests are signable, which already
 * carry signatures.
 */
module Filters {
  import opened Common
  import opened SignPaths

  datatype ConfigTypeFilter = Include(types: seq<Bytes>) | Exclude(types: seq<Bytes>)
  datatype SignableFilter = IfSignable | IfHasSignatures
  datatype Filter = ConfigType(config: ConfigTypeFilter) | Signable(check: SignableFilter)

  /** What `is_dir`, `is_signable` and `has_signatures` would answer, per path. */
  datatype Disk = Disk(dirs: set<Bytes>, signable: set<Bytes>, signed: set<Bytes>)

  /** The answer of `matches`, or the panic it ran into. */
  datatype Verdict = Holds | Fails | Panics

  /** `get_ord`: filters that read files sort after those that do not. */
  function GetOrd(f: Filter): (r: nat)
    ensures r < 256
    ensures r == 0 <==> f.ConfigType?
    ensures r == 255 <==> f.Signable?
  {
    match f
    case ConfigType(_) => 0
    case Signable(_) => 255
  }

  /** A listed name denotes `sp`'s variant: `SignPath::new` accepts it as that variant. */
  predicate Denotes(name: Bytes, sp: SignPath, disk: Disk) {
    var n := New(name, name in disk.dirs);
    n.Created? && SameVariant(n.sp, sp)
  }

  predicate PanicsOn(name: Bytes, disk: Disk) {
    New(name, name in disk.dirs).Panicked?
  }

  datatype Search = Found | Exhausted | Aborted

  /**
   * The walk both arms of `ConfigTypeFilter::matches` make over the listed
   * names: in order, building a `SignPath` from each, stopping at the first of
   * the same variant or at the first panic.
   */
  function SearchTypes(types: seq<Bytes>, from: nat, sp: SignPath, disk: Disk): (r: Search)
    decreases |types| - from
  {
    if from >= |types| then Exhausted
    else if PanicsOn(types[from], disk) then Aborted
    else if Denotes(types[from], sp, disk) then Found
    else SearchTypes(types, from + 1, sp, disk)
  }

  /** `matches` for each filter. */
  function Matches(f: Filter, sp: SignPath, disk: Disk): (r: Verdict)
    ensures f.Signable? ==> r != Panics
  {
    match f
    case ConfigType(Exclude(types)) =>
      var s := SearchTypes(types, 0, sp, disk);
      if s.Aborted? then Panics else if s.Found? then Fails else Holds
    case ConfigType(Include(types)) =>
      var s := SearchTypes(types, 0, sp, disk);
      if s.Aborted? then Panics else if s.Found? then Holds else Fails
    case Signable(IfSignable) => if sp.path in disk.signable then Holds else Fails
    case Signable(IfHasSignatures) => if sp.path in disk.signed then Holds else Fails
  }

  lemma DenotesNotPanics(name: Bytes, sp: SignPath, disk: Disk)
    requires Denotes(name, sp, disk)
    ensures !PanicsOn(name, disk)
  {
  }

  /** What one listed name does to the walk: stop with a panic, stop with a match, or pass. */
  function Classify(name: Bytes, sp: SignPath, disk: Disk): (r: Search)
    ensures r == Aborted <==> PanicsOn(name, disk)
    ensures r == Found <==> !PanicsOn(name, disk) && Denotes(name, sp, disk)
  {
    if PanicsOn(name, disk) then Aborted
    else if Denotes(name, sp, disk) then Found
    else Exhausted
  }

  /** The first outcome in `cs` from `from` on that stops the walk, or `Exhausted`. */
  function FirstStop(cs: seq<Search>, from: nat): Search
    decreases |cs| - from
  {
    if from >= |cs| then Exhausted
    else if cs[from] != Exhausted then cs[from]
    else FirstStop(cs, from + 1)
  }

  /** The walk stops at `c` exactly when `c` comes before any other stop. */
  lemma {:induction false} FirstStopIs(cs: seq<Search>, from: nat, c: Search)
    requires c != Exhausted
    ensures FirstStop(cs, from) == c <==>
      exists j :: from <= j < |cs| && cs[j] == c && forall k :: from <= k < j ==> cs[k] == Exhausted
    decreases |cs| - from
  {
    if from < |cs| {
      FirstStopIs(cs, from + 1, c);
      if cs[from] == Exhausted && FirstStop(cs, from) == c {
        var j :| from + 1 <= j < |cs| && cs[j] == c && forall k :: from + 1 <= k < j ==> cs[k] == Exhausted;
        assert forall k :: from <= k < j ==> cs[k] == Exhausted;
      }
      if cs[from] != Exhausted && cs[from] != c {
        forall j | from <= j < |cs| && cs[j] == c
          ensures exists k :: from <= k < j && cs[k] != Exhausted
        {
          assert from < j;
        }
      }
    }
  }

  /** What each listed name does to the walk. */
  function Classes(types: seq<Bytes>, sp: SignPath, disk: Disk): (r: seq<Search>)
    ensures |r| == |types|
    ensures forall j :: 0 <= j < |types| ==> r[j] == Classify(types[j], sp, disk)
  {
    seq(|types|, j requires 0 <= j < |types| => Classify(types[j], sp, disk))
  }

  lemma {:induction false} SearchIsFirstStop(types: seq<Bytes>, from: nat, sp: SignPath, disk: Disk)
    ensures SearchTypes(types, from, sp, disk) == FirstStop(Classes(types, sp, disk), from)
    decreases |types| - from
  {
    if from < |types| {
      SearchIsFirstStop(types, from + 1, sp, disk);
    }
  }

  /** The search finds a name exactly when one denotes the variant before any name panics. */
  lemma SearchFound(types: seq<Bytes>, from: nat, sp: SignPath, disk: Disk)
    ensures SearchTypes(types, from, sp, disk) == Found <==>
      exists j :: from <= j < |types| && Denotes(types[j], sp, disk)
        && forall k :: from <= k < j ==> !PanicsOn(types[k], disk)
  {
    var cs := Classes(types, sp, disk);
    SearchIsFirstStop(types, from, sp, disk);
    FirstStopIs(cs, from, Found);
    if FirstStop(cs, from) == Found {
      var j :| from <= j < |cs| && cs[j] == Found && forall k :: from <= k < j ==> cs[k] == Exhausted;
      assert forall k :: from <= k < j ==> !PanicsOn(types[k], disk);
    } else {
      forall j | from <= j < |types| && Denotes(types[j], sp, disk)
        ensures exists k :: from <= k < j && PanicsOn(types[k], disk)
      {
        DenotesNotPanics(types[j], sp, disk);
        var i := FirstStopAtOrBefore(cs, from, j);
        assert cs[i] == Aborted;
      }
    }
  }

  /** The search panics exactly when a name panics before any name denotes the variant. */
  lemma SearchAborted(types: seq<Bytes>, from: nat, sp: SignPath, disk: Disk)
    ensures SearchTypes(types, from, sp, disk) == Aborted <==>
      exists j :: from <= j < |types| && PanicsOn(types[j], disk)
        && forall k :: from <= k < j ==> !Denotes(types[k], sp, disk)
  {
    var cs := Classes(types, sp, disk);
    SearchIsFirstStop(types, from, sp, disk);
    FirstStopIs(cs, from, Aborted);
    if FirstStop(cs, from) == Aborted {
      var j :| from <= j < |cs| && cs[j] == Aborted && forall k :: from <= k < j ==> cs[k] == Exhausted;
      assert forall k :: from <= k < j ==> !Denotes(types[k], sp, disk);
    } else {
      forall j | from <= j < |types| && PanicsOn(types[j], disk)
        ensures exists k :: from <= k < j && Denotes(types[k], sp, disk)
      {
        var i := FirstStopAtOrBefore(cs, from, j);
        assert cs[i] == Found;
      }
    }
  }

  /** Before `j`, and at `j` if it stops the walk, lies a first stop. */
  lemma {:induction false} FirstStopAtOrBefore(cs: seq<Search>, from: nat, j: nat) returns (i: nat)
    requires from <= j < |cs| && cs[j] != Exhausted
    ensures from <= i <= j && cs[i] != Exhausted && forall k :: from <= k < i ==> cs[k] == Exhausted
    decreases j - from
  {
    if cs[from] != Exhausted {
      i := from;
    } else {
      i := FirstStopAtOrBefore(cs, from + 1, j);
    }
  }

  /**
   * Without a panicking name, `Include` keeps exactly the variants some name
   * denotes and `Exclude` exactly the others; the two are opposite.
   */
  lemma IncludeExcludeSpec(types: seq<Bytes>, sp: SignPath, disk: Disk)
    requires forall j :: 0 <= j < |types| ==> !PanicsOn(types[j], disk)
    ensures Matches(ConfigType(Include(types)), sp, disk) == Holds <==>
      exists j :: 0 <= j < |types| && Denotes(types[j], sp, disk)
    ensures Matches(ConfigType(Exclude(types)), sp, disk) == Holds <==>
      forall j :: 0 <= j < |types| ==> !Denotes(types[j], sp, disk)
    ensures Matches(ConfigType(Include(types)), sp, disk) != Panics
    ensures Matches(ConfigType(Exclude(types)), sp, disk) != Panics
  {
    SearchFound(types, 0, sp, disk);
    SearchAborted(types, 0, sp, disk);
  }

  /** A name that is no manifest panics the filter unless an earlier name already decided it. */
  lemma UnknownNamePanics(types: seq<Bytes>, j: nat, sp: SignPath, disk: Disk)
    requires j < |types| && PanicsOn(types[j], disk)
    requires forall k :: 0 <= k < j ==> !Denotes(types[k], sp, disk)
    ensures Matches(ConfigType(Include(types)), sp, disk) == Panics
    ensures Matches(ConfigType(Exclude(types)), sp, disk) == Panics
  {
    SearchAborted(types, 0, sp, disk);
  }

  /** A bare manifest name that is not a directory denotes its own variant. */
  lemma ManifestNameDenotes(rank: nat, sp: SignPath, disk: Disk)
    requires rank < 4 && ManifestName(rank) !in disk.dirs
    ensures Denotes(ManifestName(rank), sp, disk) <==> Rank(sp) == rank
    ensures !PanicsOn(ManifestName(rank), disk)
  {
    NewOfManifest([], rank);
  }

  /** `filters.iter().all(..)`: every filter in order, stopping at the first that fails or panics. */
  function AllMatch(filters: seq<Filter>, from: nat, sp: SignPath, disk: Disk): (r: Verdict)
    decreases |filters| - from
  {
    if from >= |filters| then Holds
    else
      var v := Matches(filters[from], sp, disk);
      if v != Holds then v else AllMatch(filters, from + 1, sp, disk)
  }

  /** All filters hold exactly when each one does. */
  lemma {:induction false} AllMatchHolds(filters: seq<Filter>, from: nat, sp: SignPath, disk: Disk)
    ensures AllMatch(filters, from, sp, disk) == Holds <==>
      forall i :: from <= i < |filters| ==> Matches(filters[i], sp, disk) == Holds
    decreases |filters| - from
  {
    if from < |filters| {
      AllMatchHolds(filters, from + 1, sp, disk);
    }
  }

  /** A panic is reached only when every filter before it held. */
  lemma {:induction false} AllMatchPanics(filters: seq<Filter>, from: nat, sp: SignPath, disk: Disk)
    ensures AllMatch(filters, from, sp, disk) == Panics <==>
      exists i :: from <= i < |filters| && Matches(filters[i], sp, disk) == Panics
        && forall k :: from <= k < i ==> Matches(filters[k], sp, disk) == Holds
    decreases |filters| - from
  {
    if from < |filters| {
      AllMatchPanics(filters, from + 1, sp, disk);
      if AllMatch(filters, from, sp, disk) == Panics && Matches(filters[from], sp, disk) == Holds {
        var i :| from + 1 <= i < |filters| && Matches(filters[i], sp, disk) == Panics
          && forall k :: from + 1 <= k < i ==> Matches(filters[k], sp, disk) == Holds;
        assert forall k :: from <= k < i ==> Matches(filters[k], sp, disk) == Holds;
      }
    }
  }

  // ---- sort_by_access ----

  /** The filters whose `get_ord` is `ord`, in their order. */
  function OfOrd(filters: seq<Filter>, ord: nat): (r: seq<Filter>)
    ensures |r| <= |filters|
  {
    if filters == [] then []
    else (if GetOrd(filters[0]) == ord then [filters[0]] else []) + OfOrd(filters[1..], ord)
  }

  /** `sort_by_access`: the library's stable sort by `get_ord`. */
  function SortByAccess(filters: seq<Filter>): (r: seq<Filter>)
  {
    OfOrd(filters, 0) + OfOrd(filters, 255)
  }

  lemma {:induction false} OfOrdAppend(a: seq<Filter>, b: seq<Filter>, ord: nat)
    ensures OfOrd(a + b, ord) == OfOrd(a, ord) + OfOrd(b, ord)
  {
    if a == [] {
      assert a + b == b;
    } else {
      assert (a + b)[0] == a[0] && (a + b)[1..] == a[1..] + b;
      OfOrdAppend(a[1..], b, ord);
      var head := if GetOrd(a[0]) == ord then [a[0]] else [];
      assert head + (OfOrd(a[1..], ord) + OfOrd(b, ord)) == head + OfOrd(a[1..], ord) + OfOrd(b, ord);
    }
  }

  lemma {:induction false} OfOrdMembers(filters: seq<Filter>, ord: nat)
    ensures forall f :: f in OfOrd(filters, ord) ==> GetOrd(f) == ord
  {
    if filters != [] {
      OfOrdMembers(filters[1..], ord);
    }
  }

  lemma {:induction false} OfOrdSplit(filters: seq<Filter>)
    ensures multiset(OfOrd(filters, 0)) + multiset(OfOrd(filters, 255)) == multiset(filters)
  {
    if filters != [] {
      var f := filters[0];
      var rest := filters[1..];
      OfOrdSplit(rest);
      assert filters == [f] + rest;
      assert multiset(filters) == multiset{f} + multiset(rest);
      if f.ConfigType? {
        assert OfOrd(filters, 0) == [f] + OfOrd(rest, 0);
        assert OfOrd(filters, 255) == OfOrd(rest, 255);
      } else {
        assert OfOrd(filters, 0) == OfOrd(rest, 0);
        assert OfOrd(filters, 255) == [f] + OfOrd(rest, 255);
      }
    }
  }

  lemma {:induction false} OfOrdNone(filters: seq<Filter>, ord: nat)
    requires ord != 0 && ord != 255
    ensures OfOrd(filters, ord) == []
  {
    if filters != [] {
      OfOrdNone(filters[1..], ord);
    }
  }

  /** Selecting one order from filters that all have it changes nothing; any other order selects nothing. */
  lemma {:induction false} OfOrdUniform(filters: seq<Filter>, ord: nat, other: nat)
    requires forall f :: f in filters ==> GetOrd(f) == ord
    requires other != ord
    ensures OfOrd(filters, ord) == filters && OfOrd(filters, other) == []
  {
    if filters != [] {
      OfOrdUniform(filters[1..], ord, other);
      assert filters == [filters[0]] + filters[1..];
    }
  }

  lemma SortByAccessOrdered(filters: seq<Filter>)
    ensures forall i, j :: 0 <= i < j < |SortByAccess(filters)| ==>
      GetOrd(SortByAccess(filters)[i]) <= GetOrd(SortByAccess(filters)[j])
  {
    var cheap, costly := OfOrd(filters, 0), OfOrd(filters, 255);
    var r := cheap + costly;
    OfOrdMembers(filters, 0);
    OfOrdMembers(filters, 255);
    forall i, j | 0 <= i < j < |r|
      ensures GetOrd(r[i]) <= GetOrd(r[j])
    {
      if i < |cheap| {
        assert r[i] in cheap;
      } else {
        assert r[j] == costly[j - |cheap|] && r[j] in costly;
      }
    }
  }

  lemma SortByAccessStable(filters: seq<Filter>, ord: nat)
    ensures OfOrd(SortByAccess(filters), ord) == OfOrd(filters, ord)
  {
    var cheap, costly := OfOrd(filters, 0), OfOrd(filters, 255);
    OfOrdAppend(cheap, costly, ord);
    OfOrdMembers(filters, 0);
    OfOrdMembers(filters, 255);
    if ord == 0 {
      OfOrdUniform(cheap, 0, 255);
      OfOrdUniform(costly, 255, 0);
    } else if ord == 255 {
      OfOrdUniform(cheap, 0, 255);
      OfOrdUniform(costly, 255, 0);
    } else {
      OfOrdNone(filters, ord);
      OfOrdNone(cheap + costly, ord);
    }
  }

  /**
   * `sort_by_access` is a permutation, orders the filters by `get_ord`, and is
   * stable: the filters of each order keep their relative order.
   */
  lemma SortByAccessSpec(filters: seq<Filter>)
    ensures multiset(SortByAccess(filters)) == multiset(filters)
    ensures forall i, j :: 0 <= i < j < |SortByAccess(filters)| ==>
      GetOrd(SortByAccess(filters)[i]) <= GetOrd(SortByAccess(filters)[j])
    ensures forall ord :: OfOrd(SortByAccess(filters), ord) == OfOrd(filters, ord)
  {
    OfOrdSplit(filters);
    SortByAccessOrdered(filters);
    forall ord
      ensures OfOrd(SortByAccess(filters), ord) == OfOrd(filters, ord)
    {
      SortByAccessStable(filters, ord);
    }
  }

  /** Without panics, all filters hold exactly when each filter listed holds. */
  lemma AllMatchMembers(filters: seq<Filter>, sp: SignPath, disk: Disk)
    requires forall f :: f in filters ==> Matches(f, sp, disk) != Panics
    ensures AllMatch(filters, 0, sp, disk) != Panics
    ensures AllMatch(filters, 0, sp, disk) == Holds <==> forall f :: f in filters ==> Matches(f, sp, disk) == Holds
  {
    AllMatchHolds(filters, 0, sp, disk);
    AllMatchPanics(filters, 0, sp, disk);
  }

  /** Without panics, the order the filters are tried in does not change the verdict. */
  lemma SortedFiltersAgree(filters: seq<Filter>, sp: SignPath, disk: Disk)
    requires forall f :: f in filters ==> Matches(f, sp, disk) != Panics
    ensures AllMatch(SortByAccess(filters), 0, sp, disk) == AllMatch(filters, 0, sp, disk)
  {
    var r := SortByAccess(filters);
    OfOrdSplit(filters);
    assert forall f :: f in r <==> f in multiset(r);
    assert forall f :: f in r <==> f in filters;
    AllMatchMembers(filters, sp, disk);
    AllMatchMembers(r, sp, disk);
  }

  // ---- apply_filters ----

  datatype Applied = Kept(items: seq<SignPath>) | Abandoned

  /** What `apply_filters` leaves from index `from` on: the matching elements in order, or a panic. */
  function ApplyFrom(xs: seq<SignPath>, from: nat, filters: seq<Filter>, disk: Disk): (r: Applied)
    decreases |xs| - from
  {
    if from >= |xs| then Kept([])
    else
      var v := AllMatch(filters, 0, xs[from], disk);
      if v == Panics then Abandoned
      else
        var rest := ApplyFrom(xs, from + 1, filters, disk);
        if rest.Abandoned? then Abandoned
        else Kept((if v == Holds then [xs[from]] else []) + rest.items)
  }

  /** One filtered run followed by another: a panic in either abandons both. */
  function Prefixed(a: Applied, b: Applied): Applied {
    if a.Abandoned? || b.Abandoned? then Abandoned else Kept(a.items + b.items)
  }

  lemma PrefixedStep(done: seq<SignPath>, x: seq<SignPath>, rest: Applied)
    ensures Prefixed(Kept(done), Prefixed(Kept(x), rest)) == Prefixed(Kept(done + x), rest)
  {
    if rest.Kept? {
      assert done + (x + rest.items) == done + x + rest.items;
    }
  }

  /** Applying the filters panics exactly when some element's filters panic. */
  lemma {:induction false} ApplyAbandons(xs: seq<SignPath>, from: nat, filters: seq<Filter>, disk: Disk)
    ensures ApplyFrom(xs, from, filters, disk).Abandoned? <==>
      exists i :: from <= i < |xs| && AllMatch(filters, 0, xs[i], disk) == Panics
    decreases |xs| - from
  {
    if from < |xs| {
      ApplyAbandons(xs, from + 1, filters, disk);
    }
  }

  /** The kept elements are exactly those every filter matches, in their original order. */
  lemma {:induction false} ApplyKeeps(xs: seq<SignPath>, from: nat, filters: seq<Filter>, disk: Disk)
    requires ApplyFrom(xs, from, filters, disk).Kept?
    ensures forall y :: y in ApplyFrom(xs, from, filters, disk).items ==>
      y in xs[from..] && AllMatch(filters, 0, y, disk) == Holds
    ensures forall i :: from <= i < |xs| && AllMatch(filters, 0, xs[i], disk) == Holds ==>
      xs[i] in ApplyFrom(xs, from, filters, disk).items
    decreases |xs| - from
  {
    if from < |xs| {
      ApplyKeeps(xs, from + 1, filters, disk);
      assert xs[from..] == [xs[from]] + xs[from + 1..];
    }
  }

  /** Order is kept across a split of the input. */
  lemma {:induction false} ApplyConcat(xs: seq<SignPath>, ys: seq<SignPath>, from: nat, filters: seq<Filter>, disk: Disk)
    requires from <= |xs|
    ensures ApplyFrom(xs + ys, from, filters, disk)
      == Prefixed(ApplyFrom(xs, from, filters, disk), ApplyFrom(ys, 0, filters, disk))
    decreases |xs| - from
  {
    if from < |xs| {
      assert (xs + ys)[from] == xs[from];
      ApplyConcat(xs, ys, from + 1, filters, disk);
      var head := if AllMatch(filters, 0, xs[from], disk) == Holds then [xs[from]] else [];
      var a := ApplyFrom(xs, from + 1, filters, disk);
      var b := ApplyFrom(ys, 0, filters, disk);
      if a.Kept? && b.Kept? {
        assert head + a.items + b.items == head + (a.items + b.items);
      }
    } else {
      ApplyShift(xs, ys, 0, filters, disk);
    }
  }

  lemma {:induction false} ApplyShift(xs: seq<SignPath>, ys: seq<SignPath>, from: nat, filters: seq<Filter>, disk: Disk)
    requires from <= |ys|
    ensures ApplyFrom(xs + ys, |xs| + from, filters, disk) == ApplyFrom(ys, from, filters, disk)
    decreases |ys| - from
  {
    if from < |ys| {
      assert (xs + ys)[|xs| + from] == ys[from];
      ApplyShift(xs, ys, from + 1, filters, disk);
    }
  }

  /** With no filters every element is kept. */
  lemma {:induction false} ApplyNoFilters(xs: seq<SignPath>, from: nat, disk: Disk)
    requires from <= |xs|
    ensures ApplyFrom(xs, from, [], disk) == Kept(xs[from..])
    decreases |xs| - from
  {
    if from < |xs| {
      ApplyNoFilters(xs, from + 1, disk);
      assert xs[from..] == [xs[from]] + xs[from + 1..];
    }
  }

  /** A `Vec<SignPath>` that `apply_filters` drains. */
  class SignPathVec {
    var items: seq<SignPath>

    constructor(items: seq<SignPath>)
      ensures this.items == items
    {
      this.items := items;
    }

    /**
     * `apply_filters`: the receiver is drained; the returned replacement holds
     * the elements every filter matched, in order, unless a filter panicked.
     */
    method ApplyFilters(filters: seq<Filter>, disk: Disk) returns (replacement: seq<SignPath>, panicked: bool)
      modifies this
      ensures items == []
      ensures panicked <==> ApplyFrom(old(items), 0, filters, disk).Abandoned?
      ensures !panicked ==> replacement == ApplyFrom(old(items), 0, filters, disk).items
    {
      var drained := items;
      items := [];
      replacement := [];
      panicked := false;
      var i := 0;
      while i < |drained|
        invariant 0 <= i <= |drained| && items == []
        invariant ApplyFrom(drained, 0, filters, disk) == Prefixed(Kept(replacement), ApplyFrom(drained, i, filters, disk))
      {
        var v := AllMatch(filters, 0, drained[i], disk);
        if v == Panics {
          panicked := true;
          return;
        }
        var x := if v == Holds then [drained[i]] else [];
        PrefixedStep(replacement, x, ApplyFrom(drained, i + 1, filters, disk));
        replacement := replacement + x;
        i := i + 1;
      }
    }
  }
}
