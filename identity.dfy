/**
 * The in-memory identity store: identities keyed by byte strings, iterated in
 * ascending key order (a `BTreeMap`). Printing is modelled by the sequence of
 * reports it emits; the exact text layout is not modelled.
 */
module Identities {
  import opened Common
  import ByteOrder

  /** Usernames and emails of one identity; index 0 of each is the default. */
  datatype Identity = Identity(usernames: seq<Bytes>, emails: seq<Bytes>)

  /** One printed identity: its key, its defaults (index 0) and all its values. */
  datatype Report =
    | Shown(key: Bytes, defaultUsername: Bytes, defaultEmail: Bytes, identity: Identity)
    | NoMatchingIdentities

  /** What a printing call emitted, and whether it ended in a panic. */
  datatype Printout = Printout(reports: seq<Report>, panicked: bool) {
    /** Run `this`, then `next` unless `this` panicked. */
    function Then(next: Printout): Printout {
      if panicked then this else Printout(reports + next.reports, next.panicked)
    }
  }

  lemma ThenAssociative(a: Printout, b: Printout, c: Printout)
    ensures a.Then(b.Then(c)) == a.Then(b).Then(c)
  {
    if !a.panicked && !b.panicked {
      assert a.reports + (b.reports + c.reports) == (a.reports + b.reports) + c.reports;
    }
  }

  /** `identity_buf` of the parser: an identity being built in place. */
  class IdentityPerf {
    var usernames: seq<Bytes>
    var emails: seq<Bytes>

    constructor ()
      ensures usernames == [] && emails == []
    {
      usernames := [];
      emails := [];
    }

    function Value(): Identity
      reads this
    {
      Identity(usernames, emails)
    }

    /** Appends at the end: earlier entries, the default included, stay in place. */
    method AddUsername(username: Bytes)
      modifies this
      ensures usernames == old(usernames) + [username]
      ensures usernames[..|old(usernames)|] == old(usernames)
      ensures emails == old(emails)
    {
      usernames := usernames + [username];
    }

    method AddEmail(email: Bytes)
      modifies this
      ensures emails == old(emails) + [email]
      ensures emails[..|old(emails)|] == old(emails)
      ensures usernames == old(usernames)
    {
      emails := emails + [email];
    }
  }

  /** A single identity printed with `pretty_print`; `None` is the panic on `usernames[0]` or `emails[0]`. */
  function PrettyPrint(key: Bytes, v: Identity): (r: Option<Report>)
    ensures r.Some? <==> |v.usernames| > 0 && |v.emails| > 0
    ensures r.Some? ==> r.value.Shown? && r.value.key == key && r.value.identity == v
    ensures r.Some? ==> r.value.defaultUsername == v.usernames[0] && r.value.defaultEmail == v.emails[0]
  {
    if |v.usernames| == 0 || |v.emails| == 0 then None
    else Some(Shown(key, v.usernames[0], v.emails[0], v))
  }

  /** How many of the `queries` occur (by exact byte equality) in `values`. */
  function Count(queries: seq<Bytes>, values: seq<Bytes>): (n: nat)
    ensures n <= |queries|
    ensures n == 0 <==> forall i :: 0 <= i < |queries| ==> queries[i] !in values
  {
    if queries == [] then 0
    else (if queries[0] in values then 1 else 0) + Count(queries[1..], values)
  }

  lemma CountSnoc(queries: seq<Bytes>, q: Bytes, values: seq<Bytes>)
    ensures Count(queries + [q], values) == Count(queries, values) + (if q in values then 1 else 0)
  {
    if queries != [] {
      assert (queries + [q])[1..] == queries[1..] + [q];
      CountSnoc(queries[1..], q, values);
    } else {
      assert [q][1..] == [];
    }
  }

  /** Number of times `print_any_match` reports identity `v`: once per matching username query, once per matching email query. */
  function Hits(v: Identity, usernames: seq<Bytes>, emails: seq<Bytes>): nat {
    Count(usernames, v.usernames) + Count(emails, v.emails)
  }

  /** The reports `print_any_match` emits for one identity. */
  function KeyReports(key: Bytes, v: Identity, usernames: seq<Bytes>, emails: seq<Bytes>): Printout {
    Repeat(key, v, Hits(v, usernames, emails))
  }

  /** `n` calls of `pretty_print` on one identity: `n` reports, or a panic at the first. */
  function Repeat(key: Bytes, v: Identity, n: nat): Printout {
    if n == 0 then Printout([], false)
    else if PrettyPrint(key, v).None? then Printout([], true)
    else Printout(seq(n, _ => PrettyPrint(key, v).value), false)
  }

  lemma RepeatThen(key: Bytes, v: Identity, n: nat, n': nat)
    ensures Repeat(key, v, n).Then(Repeat(key, v, n')) == Repeat(key, v, n + n')
  {
    if n > 0 && n' > 0 && PrettyPrint(key, v).Some? {
      var rep := PrettyPrint(key, v).value;
      assert seq(n, _ => rep) + seq(n', _ => rep) == seq(n + n', _ => rep);
    }
  }

  /** The reports for the keys in `keys`, taken in ascending order, stopping at a panic. */
  ghost function MatchesFrom(m: map<Bytes, Identity>, keys: set<Bytes>, usernames: seq<Bytes>, emails: seq<Bytes>): Printout
    requires keys <= m.Keys
    decreases |keys|
  {
    if keys == {} then Printout([], false)
    else
      var k := ByteOrder.Min(keys);
      KeyReports(k, m[k], usernames, emails).Then(MatchesFrom(m, keys - {k}, usernames, emails))
  }

  /** Specification of `print_any_match`: matches in ascending key order, then the notice if there were none. */
  ghost function AnyMatch(m: map<Bytes, Identity>, usernames: seq<Bytes>, emails: seq<Bytes>): Printout {
    var p := MatchesFrom(m, m.Keys, usernames, emails);
    if !p.panicked && p.reports == [] then Printout([NoMatchingIdentities], false) else p
  }

  /** Every identity of `keys`, in ascending order, stopping at a panic. */
  ghost function PrintEach(m: map<Bytes, Identity>, keys: set<Bytes>): Printout
    requires keys <= m.Keys
    decreases |keys|
  {
    if keys == {} then Printout([], false)
    else
      var k := ByteOrder.Min(keys);
      var first := match PrettyPrint(k, m[k])
        case None => Printout([], true)
        case Some(rep) => Printout([rep], false);
      first.Then(PrintEach(m, keys - {k}))
  }

  /** `pretty_print_all` shows one report per identity, in the map's ascending key order, unless one is empty. */
  lemma {:induction false} PrintEachPanics(m: map<Bytes, Identity>, keys: set<Bytes>)
    requires keys <= m.Keys
    ensures PrintEach(m, keys).panicked <==> exists k :: k in keys && PrettyPrint(k, m[k]).None?
    decreases |keys|
  {
    if keys != {} {
      var k := ByteOrder.Min(keys);
      PrintEachPanics(m, keys - {k});
      if PrettyPrint(k, m[k]).Some? && exists k' :: k' in keys && PrettyPrint(k', m[k']).None? {
        var k' :| k' in keys && PrettyPrint(k', m[k']).None?;
        assert k' in keys - {k};
      }
    }
  }

  lemma {:induction false} PrintEachInOrder(m: map<Bytes, Identity>, keys: set<Bytes>)
    requires keys <= m.Keys
    ensures !PrintEach(m, keys).panicked ==>
      |PrintEach(m, keys).reports| == |ByteOrder.SortedKeys(keys)| &&
      forall i :: 0 <= i < |keys| ==>
        Some(PrintEach(m, keys).reports[i]) == PrettyPrint(ByteOrder.SortedKeys(keys)[i], m[ByteOrder.SortedKeys(keys)[i]])
    decreases |keys|
  {
    if keys != {} {
      var k := ByteOrder.Min(keys);
      PrintEachInOrder(m, keys - {k});
      var order := ByteOrder.SortedKeys(keys);
      var rest := PrintEach(m, keys - {k});
      assert order == [k] + ByteOrder.SortedKeys(keys - {k});
      if !PrintEach(m, keys).panicked {
        var all := PrintEach(m, keys).reports;
        assert all == [PrettyPrint(k, m[k]).value] + rest.reports;
        forall i | 0 <= i < |keys| ensures Some(all[i]) == PrettyPrint(order[i], m[order[i]]) {
          if i > 0 {
            assert all[i] == rest.reports[i - 1];
            assert order[i] == ByteOrder.SortedKeys(keys - {k})[i - 1];
          }
        }
      }
    }
  }

  /** All reports for one identity are its `pretty_print`, and there are some only if it has a hit. */
  lemma KeyReportsShape(key: Bytes, v: Identity, usernames: seq<Bytes>, emails: seq<Bytes>)
    ensures var r := KeyReports(key, v, usernames, emails);
      forall j :: 0 <= j < |r.reports| ==> Some(r.reports[j]) == PrettyPrint(key, v) && Hits(v, usernames, emails) > 0
  {
  }

  /** `r` shows a key of `keys`, with that key's identity, which has a hit. */
  predicate ShowsHit(m: map<Bytes, Identity>, keys: set<Bytes>, usernames: seq<Bytes>, emails: seq<Bytes>, r: Report)
    requires keys <= m.Keys
  {
    r.Shown? && r.key in keys && r.identity == m[r.key] && Hits(m[r.key], usernames, emails) > 0
  }

  /** Every report of the match walk shows a key of the walk, with that key's identity, which has a hit. */
  lemma {:induction false} MatchesShape(m: map<Bytes, Identity>, keys: set<Bytes>, usernames: seq<Bytes>, emails: seq<Bytes>)
    requires keys <= m.Keys
    ensures forall j :: 0 <= j < |MatchesFrom(m, keys, usernames, emails).reports| ==>
      ShowsHit(m, keys, usernames, emails, MatchesFrom(m, keys, usernames, emails).reports[j])
    decreases |keys|
  {
    if keys != {} {
      var k := ByteOrder.Min(keys);
      MatchesShape(m, keys - {k}, usernames, emails);
      KeyReportsShape(k, m[k], usernames, emails);
      var first := KeyReports(k, m[k], usernames, emails);
      var rest := MatchesFrom(m, keys - {k}, usernames, emails);
      var p := MatchesFrom(m, keys, usernames, emails);
      assert p == first.Then(rest);
      forall j | 0 <= j < |p.reports|
        ensures ShowsHit(m, keys, usernames, emails, p.reports[j])
      {
        if j < |first.reports| {
          assert p.reports[j] == first.reports[j];
        } else {
          assert p.reports[j] == rest.reports[j - |first.reports|];
        }
      }
    }
  }

  /** Report `a` may precede report `b`: not a later key. */
  predicate KeysAscending(a: Report, b: Report) {
    a.Shown? && b.Shown? ==> a.key == b.key || ByteOrder.LexLess(a.key, b.key)
  }

  /** Reports come out in ascending key order. */
  lemma {:induction false} MatchesAscending(m: map<Bytes, Identity>, keys: set<Bytes>, usernames: seq<Bytes>, emails: seq<Bytes>)
    requires keys <= m.Keys
    ensures forall i, j :: 0 <= i < j < |MatchesFrom(m, keys, usernames, emails).reports| ==>
      KeysAscending(MatchesFrom(m, keys, usernames, emails).reports[i], MatchesFrom(m, keys, usernames, emails).reports[j])
    decreases |keys|
  {
    if keys != {} {
      var k := ByteOrder.Min(keys);
      MatchesAscending(m, keys - {k}, usernames, emails);
      MatchesShape(m, keys - {k}, usernames, emails);
      KeyReportsShape(k, m[k], usernames, emails);
      var first := KeyReports(k, m[k], usernames, emails);
      var rest := MatchesFrom(m, keys - {k}, usernames, emails);
      var p := MatchesFrom(m, keys, usernames, emails);
      assert p == first.Then(rest);
      forall i, j | 0 <= i < j < |p.reports|
        ensures KeysAscending(p.reports[i], p.reports[j])
      {
        var n := |first.reports|;
        if j < n {
          assert p.reports[i] == first.reports[i] && p.reports[j] == first.reports[j];
        } else if i < n {
          assert p.reports[i] == first.reports[i];
          assert p.reports[j] == rest.reports[j - n];
          assert ShowsHit(m, keys - {k}, usernames, emails, rest.reports[j - n]);
        } else {
          assert p.reports[i] == rest.reports[i - n] && p.reports[j] == rest.reports[j - n];
        }
      }
    }
  }

  lemma RepeatCount(n: nat, x: Report)
    ensures multiset(seq(n, _ => x))[x] == n
  {
    if n > 0 {
      assert seq(n, _ => x) == seq(n - 1, _ => x) + [x];
      RepeatCount(n - 1, x);
    }
  }

  /**
   * Without a panic, an identity is reported exactly as many times as the
   * query usernames and emails it contains.
   */
  lemma {:induction false} MatchesCount(m: map<Bytes, Identity>, keys: set<Bytes>, usernames: seq<Bytes>, emails: seq<Bytes>, k: Bytes)
    requires keys <= m.Keys && k in keys
    requires !MatchesFrom(m, keys, usernames, emails).panicked
    ensures PrettyPrint(k, m[k]).Some? || Hits(m[k], usernames, emails) == 0
    ensures PrettyPrint(k, m[k]).Some? ==>
      multiset(MatchesFrom(m, keys, usernames, emails).reports)[PrettyPrint(k, m[k]).value] == Hits(m[k], usernames, emails)
    decreases |keys|
  {
    var least := ByteOrder.Min(keys);
    var first := KeyReports(least, m[least], usernames, emails);
    var rest := MatchesFrom(m, keys - {least}, usernames, emails);
    assert MatchesFrom(m, keys, usernames, emails).reports == first.reports + rest.reports;
    if k == least {
      if PrettyPrint(k, m[k]).Some? {
        var rep := PrettyPrint(k, m[k]).value;
        MatchesShape(m, keys - {least}, usernames, emails);
        forall j | 0 <= j < |rest.reports| ensures rest.reports[j] != rep {
          assert ShowsHit(m, keys - {least}, usernames, emails, rest.reports[j]);
        }
        if Hits(m[k], usernames, emails) > 0 {
          RepeatCount(Hits(m[k], usernames, emails), rep);
        }
      }
    } else {
      MatchesCount(m, keys - {least}, usernames, emails, k);
      if PrettyPrint(k, m[k]).Some? {
        assert PrettyPrint(k, m[k]).value !in first.reports;
      }
    }
  }

  /** The walk is silent and panic-free exactly when no identity has a hit. */
  lemma {:induction false} MatchesSilent(m: map<Bytes, Identity>, keys: set<Bytes>, usernames: seq<Bytes>, emails: seq<Bytes>)
    requires keys <= m.Keys
    ensures var p := MatchesFrom(m, keys, usernames, emails);
      (!p.panicked && p.reports == []) <==> forall k :: k in keys ==> Hits(m[k], usernames, emails) == 0
    decreases |keys|
  {
    if keys != {} {
      var least := ByteOrder.Min(keys);
      MatchesSilent(m, keys - {least}, usernames, emails);
    }
  }

  /** `print_any_match` prints the "No matching identities found" notice exactly when no identity matches a query. */
  lemma NoMatchNotice(m: map<Bytes, Identity>, usernames: seq<Bytes>, emails: seq<Bytes>)
    ensures AnyMatch(m, usernames, emails).reports == [NoMatchingIdentities]
        <==> forall k :: k in m ==> Hits(m[k], usernames, emails) == 0
  {
    MatchesSilent(m, m.Keys, usernames, emails);
    MatchesShape(m, m.Keys, usernames, emails);
    var p := MatchesFrom(m, m.Keys, usernames, emails);
    if p.reports != [] {
      assert p.reports[0].Shown?;
    }
  }

  /** `Identity "<key>" not found`. */
  function NotFoundMessage(key: Bytes): (r: Bytes)
    ensures |r| == |key| + 21 && r[10..10 + |key|] == key
  {
    NOT_FOUND_OPEN + key + NOT_FOUND_CLOSE
  }

  /** `Identity "`, as bytes. */
  const NOT_FOUND_OPEN: Bytes := [73, 100, 101, 110, 116, 105, 116, 121, 32, 34]
  /** `" not found`, as bytes. */
  const NOT_FOUND_CLOSE: Bytes := [34, 32, 110, 111, 116, 32, 102, 111, 117, 110, 100]

  /** The store: identities keyed by byte strings borrowed from the mapped file. */
  class LocalAuthorStoragePerf {
    const memmap: Bytes
    var identities: map<Bytes, Identity>

    constructor (memmap: Bytes)
      ensures this.memmap == memmap && identities == map[]
    {
      this.memmap := memmap;
      identities := map[];
    }

    /**
     * Insert unless present: an existing key is an error that leaves the map
     * unchanged; a new key adds exactly that entry.
     */
    method AddIdentity(key: Bytes, identity: IdentityPerf) returns (r: Result<(), string>)
      modifies this
      ensures key in old(identities) ==> r == Err("Key already exists") && identities == old(identities)
      ensures key !in old(identities) ==> r == Ok(())
      ensures key !in old(identities) ==> identities.Keys == old(identities).Keys + {key}
      ensures key !in old(identities) ==> identities[key] == identity.Value()
      ensures forall k :: k in old(identities) ==> k in identities && identities[k] == old(identities)[k]
      ensures r.Ok? ==> LookupId(key) == Some((key, identity.Value()))
    {
      if key in identities {
        r := Err("Key already exists");
      } else {
        identities := identities[key := identity.Value()];
        r := Ok(());
      }
    }

    /** The entry whose key equals `key` byte for byte. */
    function LookupId(key: Bytes): (r: Option<(Bytes, Identity)>)
      reads this
      ensures r.Some? <==> key in identities
      ensures r.Some? ==> r.value.0 == key && r.value.1 == identities[key]
    {
      if key in identities then Some((key, identities[key])) else None
    }

    /** `pretty_print_all`: every identity once, in ascending key order. */
    ghost function PrettyPrintAll(): Printout
      reads this
    {
      PrintEach(identities, identities.Keys)
    }

    /** `pretty_print_id`: the identity under `key`, or the not-found error. */
    function PrettyPrintId(key: Bytes): (r: Result<Printout, Bytes>)
      reads this
      ensures r.Err? <==> key !in identities
      ensures r.Err? ==> r.error == NotFoundMessage(key)
      ensures r.Ok? ==> (r.value.panicked <==> PrettyPrint(key, identities[key]).None?)
      ensures r.Ok? && !r.value.panicked ==> r.value.reports == [PrettyPrint(key, identities[key]).value]
    {
      if key !in identities then Err(NotFoundMessage(key))
      else
        var v := identities[key];
        if |v.usernames| == 0 || |v.emails| == 0 then Ok(Printout([], true))
        else Ok(Printout([Shown(key, v.usernames[0], v.emails[0], v)], false))
    }

    /**
     * `print_any_match`: walks the identities in ascending key order and
     * reports an identity once per query username and once per query email
     * it contains; with no report at all, emits the "No matching identities
     * found" notice.
     */
    method PrintAnyMatch(usernames: seq<Bytes>, emails: seq<Bytes>) returns (out: Printout)
      ensures out == AnyMatch(identities, usernames, emails)
    {
      var m := identities;
      var reports: seq<Report> := [];
      var count := 0;
      var remaining := m.Keys;
      while remaining != {}
        invariant remaining <= m.Keys
        invariant count == |reports|
        invariant Printout(reports, false).Then(MatchesFrom(m, remaining, usernames, emails))
               == MatchesFrom(m, m.Keys, usernames, emails)
        decreases |remaining|
      {
        var k := ByteOrder.LeastKey(remaining);
        var keyOut := ReportKey(k, m[k], usernames, emails);
        ThenAssociative(Printout(reports, false), keyOut, MatchesFrom(m, remaining - {k}, usernames, emails));
        if keyOut.panicked {
          return Printout(reports + keyOut.reports, true);
        }
        reports := reports + keyOut.reports;
        count := count + |keyOut.reports|;
        remaining := remaining - {k};
      }
      if count == 0 {
        reports := reports + [NoMatchingIdentities];
      }
      out := Printout(reports, false);
    }
  }

  /** The inner loops of `print_any_match` for one identity: usernames first, then emails. */
  method ReportKey(key: Bytes, v: Identity, usernames: seq<Bytes>, emails: seq<Bytes>) returns (out: Printout)
    ensures out == KeyReports(key, v, usernames, emails)
  {
    var byUsername := ReportEach(key, v, usernames, v.usernames);
    if byUsername.panicked {
      RepeatThen(key, v, Count(usernames, v.usernames), Count(emails, v.emails));
      return byUsername;
    }
    var byEmail := ReportEach(key, v, emails, v.emails);
    RepeatThen(key, v, Count(usernames, v.usernames), Count(emails, v.emails));
    out := Printout(byUsername.reports + byEmail.reports, byEmail.panicked);
  }

  /** One inner loop: a report of identity `v` for every query found among `values`. */
  method ReportEach(key: Bytes, v: Identity, queries: seq<Bytes>, values: seq<Bytes>) returns (out: Printout)
    ensures out == Repeat(key, v, Count(queries, values))
  {
    var reports: seq<Report> := [];
    for i := 0 to |queries|
      invariant Printout(reports, false) == Repeat(key, v, Count(queries[..i], values))
    {
      CountSnoc(queries[..i], queries[i], values);
      assert queries[..i + 1] == queries[..i] + [queries[i]];
      if queries[i] in values {
        if |v.usernames| == 0 || |v.emails| == 0 {
          assert Count(queries, values) > 0;
          return Printout([], true);
        }
        RepeatThen(key, v, Count(queries[..i], values), 1);
        reports := reports + [Shown(key, v.usernames[0], v.emails[0], v)];
      }
    }
    assert queries[..|queries|] == queries;
    out := Printout(reports, false);
  }
}
