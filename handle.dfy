/**
 * The pure parts of `sigrs sign`: parsing `--only-include`/`--only-exclude`
 * and `--dir-with-depth` values, the `--working-dir-recursive` depth, the
 * choice of username and email, and the tail of `get_signing_paths`
 * (deduplication through a `BTreeSet` and the filters). Arguments arrive as
 * values; the directory walk is replaced by the list of candidate paths it
 * produced.
 */
module Handle {
  import opened Common
  import Identities
  import StoreParser
  import StoreParserProperties
  import SignPaths
  import Filters

  // ---- str::split and str::split_once ----

  /** `pat` occurs in `s` starting at `i`. */
  predicate OccursAt(s: string, pat: string, i: nat) {
    i + |pat| <= |s| && s[i..i + |pat|] == pat
  }

  /** The first occurrence of `pat` in `s` at or after `from`. */
  function FindFrom(s: string, pat: string, from: nat): (r: Option<nat>)
    ensures r.Some? ==> from <= r.value && OccursAt(s, pat, r.value)
    decreases |s| - from
  {
    if from + |pat| > |s| then None
    else if s[from..from + |pat|] == pat then Some(from)
    else FindFrom(s, pat, from + 1)
  }

  lemma {:induction false} FindFromFirst(s: string, pat: string, from: nat)
    ensures FindFrom(s, pat, from).Some? ==>
      forall j :: from <= j < FindFrom(s, pat, from).value ==> !OccursAt(s, pat, j)
    ensures FindFrom(s, pat, from).None? ==> forall j :: from <= j ==> !OccursAt(s, pat, j)
    decreases |s| - from
  {
    if from + |pat| <= |s| {
      FindFromFirst(s, pat, from + 1);
    }
  }

  /** The search stops at the first occurrence. */
  lemma {:induction false} FindFromAt(s: string, pat: string, from: nat, at: nat)
    requires from <= at && OccursAt(s, pat, at)
    requires forall j :: from <= j < at ==> !OccursAt(s, pat, j)
    ensures FindFrom(s, pat, from) == Some(at)
    decreases at - from
  {
    if from < at {
      assert !OccursAt(s, pat, from);
      FindFromAt(s, pat, from + 1, at);
    }
  }

  /** The pieces of `s` from `from` on between non-overlapping occurrences of a non-empty `pat`. */
  function SplitFrom(s: string, pat: string, from: nat): (r: seq<string>)
    requires |pat| > 0 && from <= |s|
    ensures |r| >= 1
    decreases |s| - from
  {
    var m := FindFrom(s, pat, from);
    if m.None? then [s[from..]] else [s[from..m.value]] + SplitFrom(s, pat, m.value + |pat|)
  }

  /** Every character as a string of its own. */
  function Chars(s: string): (r: seq<string>)
    ensures |r| == |s|
  {
    if s == [] then [] else [[s[0]]] + Chars(s[1..])
  }

  /** `str::split`: an empty pattern separates every character and both ends. */
  function Split(s: string, pat: string): (r: seq<string>)
    ensures |r| >= 1
  {
    if pat == [] then [""] + Chars(s) + [""] else SplitFrom(s, pat, 0)
  }

  /** The pieces joined with `sep` between them. */
  function JoinWith(pieces: seq<string>, sep: string): string
    requires |pieces| >= 1
  {
    if |pieces| == 1 then pieces[0] else pieces[0] + sep + JoinWith(pieces[1..], sep)
  }

  /** `parse_only_include_exclude`: every piece between delimiters, empty ones included. */
  function ParseOnlyIncludeExclude(value: string, delimiter: string): (r: seq<string>)
    ensures |r| >= 1
  {
    Split(value, delimiter)
  }

  lemma {:induction false} SplitFromJoin(s: string, pat: string, from: nat)
    requires |pat| > 0 && from <= |s|
    ensures JoinWith(SplitFrom(s, pat, from), pat) == s[from..]
    decreases |s| - from
  {
    var m := FindFrom(s, pat, from);
    if m.Some? {
      var p := m.value;
      var rest := SplitFrom(s, pat, p + |pat|);
      var pieces := [s[from..p]] + rest;
      assert JoinWith(SplitFrom(s, pat, from), pat) == s[from..p] + pat + JoinWith(rest, pat) by {
        assert SplitFrom(s, pat, from) == pieces;
        assert pieces[1..] == rest;
      }
      SplitFromJoin(s, pat, p + |pat|);
      assert s[from..] == s[from..p] + pat + s[p + |pat|..] by {
        assert s[p..p + |pat|] == pat;
        assert s[from..] == s[from..p] + s[p..p + |pat|] + s[p + |pat|..];
      }
    }
  }

  lemma {:induction false} CharsJoin(s: string)
    ensures JoinWith(Chars(s) + [""], "") == s
  {
    if s != [] {
      CharsJoin(s[1..]);
      assert Chars(s) + [""] == [[s[0]]] + (Chars(s[1..]) + [""]);
      assert s == [s[0]] + s[1..];
    }
  }

  /** Joining the pieces with the delimiter gives back the value, for every delimiter. */
  lemma SplitJoin(value: string, delimiter: string)
    ensures JoinWith(ParseOnlyIncludeExclude(value, delimiter), delimiter) == value
  {
    if delimiter == [] {
      CharsJoin(value);
      assert ([""] + Chars(value) + [""])[1..] == Chars(value) + [""];
    } else {
      SplitFromJoin(value, delimiter, 0);
    }
  }

  lemma PieceOccurrence(s: string, pat: string, from: nat, m: nat, j: nat)
    requires from <= m <= |s| && OccursAt(s[from..m], pat, j)
    ensures OccursAt(s, pat, from + j) && from + j + |pat| <= m
  {
    var t := s[from..m][j..j + |pat|];
    assert forall k :: 0 <= k < |pat| ==> t[k] == s[from + j + k];
    assert t == s[from + j..from + j + |pat|];
  }

  lemma {:induction false} SplitFromPiecesFree(s: string, pat: string, from: nat)
    requires |pat| > 0 && from <= |s|
    ensures forall p, j :: p in SplitFrom(s, pat, from) ==> !OccursAt(p, pat, j)
    decreases |s| - from
  {
    var m := FindFrom(s, pat, from);
    FindFromFirst(s, pat, from);
    var end := if m.Some? then m.value else |s|;
    forall j | OccursAt(s[from..end], pat, j)
      ensures false
    {
      PieceOccurrence(s, pat, from, end, j);
    }
    assert s[from..end] == SplitFrom(s, pat, from)[0];
    if m.Some? {
      SplitFromPiecesFree(s, pat, m.value + |pat|);
      assert forall p :: p in SplitFrom(s, pat, from) ==>
        p == s[from..end] || p in SplitFrom(s, pat, m.value + |pat|);
    }
  }

  /** With a non-empty delimiter, no piece contains the delimiter. */
  lemma SplitPiecesFree(value: string, delimiter: string)
    requires delimiter != []
    ensures forall p, j :: p in ParseOnlyIncludeExclude(value, delimiter) ==> !OccursAt(p, delimiter, j)
  {
    SplitFromPiecesFree(value, delimiter, 0);
  }

  // ---- u8::from_str ----

  predicate IsDigit(c: char) {
    '0' <= c <= '9'
  }

  predicate AllDigits(t: string) {
    forall i :: 0 <= i < |t| ==> IsDigit(t[i])
  }

  function DigitsValue(t: string): nat
    requires AllDigits(t)
    decreases |t|
  {
    if t == [] then 0 else DigitsValue(t[..|t| - 1]) * 10 + (t[|t| - 1] as int - '0' as int)
  }

  /** What follows a leading `+`. */
  function UnsignedPart(s: string): string {
    if |s| > 0 && s[0] == '+' then s[1..] else s
  }

  /** The syntax of an unsigned decimal: an optional `+`, then one or more digits. */
  predicate U8Syntax(s: string) {
    UnsignedPart(s) != [] && AllDigits(UnsignedPart(s))
  }

  /**
   * `str::parse::<u8>`: an optional `+`, then at least one decimal digit, the
   * value at most 255; a `-` is no digit.
   */
  function ParseU8(s: string): (r: Option<nat>)
    ensures r.Some? <==> U8Syntax(s) && DigitsValue(UnsignedPart(s)) < 256
    ensures r.Some? ==> r.value == DigitsValue(UnsignedPart(s)) && r.value < 256
  {
    if |s| == 0 || (s[0] == '+' && |s| == 1) then None
    else
      var digits := if s[0] == '+' then s[1..] else s;
      if AllDigits(digits) && DigitsValue(digits) < 256 then Some(DigitsValue(digits)) else None
  }

  /** The shortest decimal spelling of `n`. */
  function Decimal(n: nat): (r: string)
    ensures |r| >= 1 && AllDigits(r)
  {
    var d := ['0' + ((n % 10) as char)];
    if n < 10 then d else Decimal(n / 10) + d
  }

  lemma {:induction false} DecimalValue(n: nat)
    ensures DigitsValue(Decimal(n)) == n
  {
    var d := ['0' + ((n % 10) as char)];
    if n >= 10 {
      DecimalValue(n / 10);
      assert (Decimal(n / 10) + d)[..|Decimal(n)| - 1] == Decimal(n / 10);
    }
  }

  /** Reading back a spelled-out number: exactly the values of a `u8` come back, with or without `+`. */
  lemma ParseU8Decimal(n: nat)
    ensures ParseU8(Decimal(n)) == (if n < 256 then Some(n) else None)
    ensures ParseU8("+" + Decimal(n)) == (if n < 256 then Some(n) else None)
  {
    DecimalValue(n);
    assert ("+" + Decimal(n))[1..] == Decimal(n);
  }

  /** Leading zeros are accepted and do not count: `007` reads as 7. */
  lemma ParseU8LeadingZeros(n: nat, zeros: nat)
    requires n < 256
    ensures ParseU8(seq(zeros, _ => '0') + Decimal(n)) == Some(n)
  {
    ZerosValue(zeros, Decimal(n));
    DecimalValue(n);
  }

  lemma {:induction false} ZerosValue(zeros: nat, t: string)
    requires AllDigits(t)
    ensures AllDigits(seq(zeros, _ => '0') + t) && DigitsValue(seq(zeros, _ => '0') + t) == DigitsValue(t)
    decreases |t|
  {
    var z := seq(zeros, _ => '0');
    if t == [] {
      assert z + t == z;
      ZerosOnly(zeros);
    } else {
      assert (z + t)[..|z + t| - 1] == z + t[..|t| - 1];
      ZerosValue(zeros, t[..|t| - 1]);
    }
  }

  lemma {:induction false} ZerosOnly(zeros: nat)
    ensures AllDigits(seq(zeros, _ => '0')) && DigitsValue(seq(zeros, _ => '0')) == 0
  {
    if zeros > 0 {
      assert seq(zeros, _ => '0')[..zeros - 1] == seq(zeros - 1, _ => '0');
      ZerosOnly(zeros - 1);
    }
  }

  /** A leading `-` is never accepted. */
  lemma ParseU8Negative(s: string)
    ensures ParseU8("-" + s).None?
  {
  }

  // ---- parse_dir_with_depth ----

  datatype DirWithDepth = DirWithDepth(depth: nat, dir: string)

  function FormatMessage(delimiter: string): string {
    "Value must be in the format <depth>" + delimiter + "<dir>. Example: 3" + delimiter + "some_dir"
  }

  /**
   * `parse_dir_with_depth`: split once at the first delimiter; the left part
   * must parse as a `u8`.
   */
  function ParseDirWithDepth(value: string, delimiter: string): (r: Result<DirWithDepth, string>)
    ensures FindFrom(value, delimiter, 0).None? ==> r == Err(FormatMessage(delimiter))
    ensures FindFrom(value, delimiter, 0).Some? ==>
      var m := FindFrom(value, delimiter, 0).value;
      (r.Ok? <==> ParseU8(value[..m]).Some?)
      && (r.Err? ==> r.error == "Invalid depth value: '" + value[..m] + "'")
    ensures r.Ok? ==> r.value.depth < 256 && |r.value.dir| + |delimiter| <= |value|
    ensures r.Ok? && |r.value.dir| + |delimiter| <= |value| ==>
      var k := |value| - |r.value.dir| - |delimiter|;
      ParseU8(value[..k]) == Some(r.value.depth)
      && value[k..k + |delimiter|] == delimiter && value[k + |delimiter|..] == r.value.dir
  {
    var m := FindFrom(value, delimiter, 0);
    if m.None? then Err(FormatMessage(delimiter))
    else
      var depthText, dir := value[..m.value], value[m.value + |delimiter|..];
      var depth := ParseU8(depthText);
      if depth.None? then Err("Invalid depth value: '" + depthText + "'")
      else Ok(DirWithDepth(depth.value, dir))
  }

  /**
   * A depth spelled out, a delimiter that does not start with a digit, and a
   * directory read back as that depth and that directory, whatever the
   * directory holds.
   */
  lemma DirWithDepthRoundTrip(n: nat, delimiter: string, dir: string)
    requires n < 256 && delimiter != [] && !IsDigit(delimiter[0])
    ensures ParseDirWithDepth(Decimal(n) + delimiter + dir, delimiter) == Ok(DirWithDepth(n, dir))
  {
    var dec := Decimal(n);
    var value := dec + delimiter + dir;
    assert value[|dec|..|dec| + |delimiter|] == delimiter;
    forall j | 0 <= j < |dec|
      ensures !OccursAt(value, delimiter, j)
    {
      assert value[j] == dec[j];
    }
    FindFromAt(value, delimiter, 0, |dec|);
    assert value[..|dec|] == dec;
    assert value[|dec| + |delimiter|..] == dir;
    ParseU8Decimal(n);
  }

  /** Without the delimiter the value names the expected format. */
  lemma NoDelimiterRejected(value: string, delimiter: string)
    requires forall j :: !OccursAt(value, delimiter, j)
    ensures ParseDirWithDepth(value, delimiter) == Err(FormatMessage(delimiter))
  {
    FindFromFirst(value, delimiter, 0);
  }

  /** The `--working-dir-recursive` depth: `-1` or less searches everything (255). */
  function WorkingDirDepth(depth: int): (r: nat)
    requires -128 <= depth < 128
    ensures r < 256
    ensures depth <= -1 ==> r == 255
    ensures depth >= 0 ==> r == depth
  {
    if depth <= -1 then 255 else depth
  }

  // ---- choosing the username and email ----

  datatype Signer = Signer(username: Bytes, email: Bytes)
  datatype SignerChoice = Chosen(signer: Signer) | Refused(message: string) | Panicked

  const INTERACTIVITY := "Interactivity coming soon"
  const NO_IDENTITY := "Identity does not exist"
  const NO_USERNAMES := "Identity does not contain any usernames"
  const NO_EMAILS := "Identity does not contain any emails"

  /**
   * The choice in `handle_sign`: `identity`, `email` and `username` are the
   * arguments, `memmap` what `get_memmap` returned. The store is read only
   * when a custom username or email is missing; a missing one falls back to
   * the identity's entry at index 0.
   */
  function SelectSigner(identity: Option<Bytes>, email: Option<Bytes>, username: Option<Bytes>,
                        memmap: Result<Bytes, string>): (r: SignerChoice)
    ensures identity.None? ==> r == Refused(INTERACTIVITY)
    ensures identity.Some? && (email.None? || username.None?) && memmap.Err? ==> r == Refused(memmap.error)
    ensures identity.Some? && (email.None? || username.None?) && memmap.Ok? ==>
      (StoreParser.ParseStore(memmap.value).Err? ==> r == Panicked)
    ensures r.Chosen? && username.Some? ==> r.signer.username == username.value
    ensures r.Chosen? && email.Some? ==> r.signer.email == email.value
  {
    if identity.None? then Refused(INTERACTIVITY)
    else if email.Some? && username.Some? then Chosen(Signer(username.value, email.value))
    else if memmap.Err? then Refused(memmap.error)
    else
      var las := StoreParser.ParseStore(memmap.value);
      if las.Err? then Panicked
      else if identity.value !in las.value then Refused(NO_IDENTITY)
      else WithDefaults(las.value[identity.value], email, username)
  }

  /**
   * A missing custom value falls back to the identity's first entry; the
   * usernames are looked at before the emails.
   */
  function WithDefaults(id: Identities.Identity, email: Option<Bytes>, username: Option<Bytes>): (r: SignerChoice)
    ensures username.None? && id.usernames == [] ==> r == Refused(NO_USERNAMES)
    ensures (username.Some? || id.usernames != []) && email.None? && id.emails == [] ==> r == Refused(NO_EMAILS)
    ensures (username.Some? || id.usernames != []) && (email.Some? || id.emails != []) ==>
      r == Chosen(Signer(
        if username.Some? then username.value else id.usernames[0],
        if email.Some? then email.value else id.emails[0]))
  {
    if username.None? && |id.usernames| == 0 then Refused(NO_USERNAMES)
    else if email.None? && |id.emails| == 0 then Refused(NO_EMAILS)
    else
      var u := if username.Some? then username.value else id.usernames[0];
      var e := if email.Some? then email.value else id.emails[0];
      Chosen(Signer(u, e))
  }

  /** With both custom values the store is never consulted, whatever it holds. */
  lemma CustomValuesSkipStore(key: Bytes, email: Bytes, username: Bytes, m1: Result<Bytes, string>, m2: Result<Bytes, string>)
    ensures SelectSigner(Some(key), Some(email), Some(username), m1) == Chosen(Signer(username, email))
    ensures SelectSigner(Some(key), Some(email), Some(username), m1)
      == SelectSigner(Some(key), Some(email), Some(username), m2)
  {
  }

  /** Once the store parses, the key and the defaults decide. */
  lemma SelectFromParsed(memmap: Bytes, m: map<Bytes, Identities.Identity>, key: Bytes, email: Option<Bytes>, username: Option<Bytes>)
    requires StoreParser.ParseStore(memmap) == Ok(m)
    requires email.None? || username.None?
    ensures key !in m ==> SelectSigner(Some(key), email, username, Ok(memmap)) == Refused(NO_IDENTITY)
    ensures key in m ==> SelectSigner(Some(key), email, username, Ok(memmap)) == WithDefaults(m[key], email, username)
  {
  }

  /**
   * From a store written as records, a key that is not recorded does not
   * exist, and a recorded one takes its defaults from the identity recorded
   * with it.
   */
  lemma SelectFromStore(entries: seq<StoreParserProperties.Entry>, key: Bytes, email: Option<Bytes>, username: Option<Bytes>)
    requires StoreParserProperties.WellFormed(entries)
    requires email.None? || username.None?
    ensures (forall i :: 0 <= i < |entries| ==> entries[i].key != key) ==>
      SelectSigner(Some(key), email, username, Ok(StoreParserProperties.Serialize(entries))) == Refused(NO_IDENTITY)
    ensures forall i :: 0 <= i < |entries| && entries[i].key == key ==>
      SelectSigner(Some(key), email, username, Ok(StoreParserProperties.Serialize(entries)))
        == WithDefaults(entries[i].identity, email, username)
  {
    var memmap := StoreParserProperties.Serialize(entries);
    StoreParserProperties.StoreRoundTrip(entries);
    SelectFromParsed(memmap, StoreParser.ParseStore(memmap).value, key, email, username);
  }

  // ---- get_signing_paths: BTreeSet deduplication and the filters ----

  /** Strictly ascending under `SignPath`'s order: what iterating a `BTreeSet` yields. */
  predicate Ascending(s: seq<SignPaths.SignPath>) {
    forall i, j :: 0 <= i < j < |s| ==> SignPaths.Cmp(s[i], s[j]) == Less
  }

  /** `BTreeSet::insert`: a value equal to one already present leaves the set as it is. */
  function InsertSorted(s: seq<SignPaths.SignPath>, x: SignPaths.SignPath): (r: seq<SignPaths.SignPath>)
    ensures |r| <= |s| + 1
  {
    if s == [] then [x]
    else
      var c := SignPaths.Cmp(s[0], x);
      if c == Less then [s[0]] + InsertSorted(s[1..], x)
      else if c == Equal then s
      else [x] + s
  }

  lemma {:induction false} InsertSortedMembers(s: seq<SignPaths.SignPath>, x: SignPaths.SignPath)
    ensures forall y :: y in InsertSorted(s, x) ==> y in s || y == x
    ensures x in InsertSorted(s, x) || exists y :: y in s && SignPaths.Eq(y, x)
    ensures forall y :: y in s ==> y in InsertSorted(s, x)
  {
    if s != [] {
      SignPaths.CmpIsTotalOrder(s[0], x, x);
      InsertSortedMembers(s[1..], x);
      assert s == [s[0]] + s[1..];
    }
  }

  lemma {:induction false} InsertSortedAscending(s: seq<SignPaths.SignPath>, x: SignPaths.SignPath)
    requires Ascending(s)
    ensures Ascending(InsertSorted(s, x))
  {
    if s != [] {
      var c := SignPaths.Cmp(s[0], x);
      if c == Less {
        InsertSortedAscending(s[1..], x);
        InsertSortedMembers(s[1..], x);
        var r := InsertSorted(s, x);
        forall j | 1 <= j < |r|
          ensures SignPaths.Cmp(r[0], r[j]) == Less
        {
          assert r[j] in InsertSorted(s[1..], x);
          if r[j] != x {
            assert r[j] in s[1..];
          }
        }
      } else if c == Greater {
        forall j | 0 <= j < |s|
          ensures SignPaths.Cmp(x, s[j]) == Less
        {
          SignPaths.CmpIsTotalOrder(s[0], x, s[j]);
          SignPaths.CmpIsTotalOrder(x, s[0], s[j]);
        }
      }
    }
  }

  /** What the candidate loops leave: the set so far and the error strings, or a panic of `SignPath::new`. */
  datatype Gathered = Gathered(unique: seq<SignPaths.SignPath>, errors: seq<string>) | GatherPanicked

  /** One candidate: a created `SignPath` is inserted, a refusal's message pushed. */
  function GatherOne(acc: Gathered, path: Bytes, disk: Filters.Disk): (r: Gathered)
    requires acc.Gathered?
    ensures r.GatherPanicked? <==> SignPaths.New(path, path in disk.dirs).Panicked?
    ensures r.Gathered? ==> r.errors == acc.errors + SignPaths.RejectionOf(SignPaths.New(path, path in disk.dirs))
  {
    var n := SignPaths.New(path, path in disk.dirs);
    if n.Created? then Gathered(InsertSorted(acc.unique, n.sp), acc.errors)
    else if n.Rejected? then Gathered(acc.unique, acc.errors + [n.message])
    else GatherPanicked
  }

  function GatherFrom(acc: Gathered, paths: seq<Bytes>, from: nat, disk: Filters.Disk): (r: Gathered)
    decreases |paths| - from
  {
    if from >= |paths| || acc.GatherPanicked? then acc
    else GatherFrom(GatherOne(acc, paths[from], disk), paths, from + 1, disk)
  }

  /** The set stays strictly ascending, so a `Vec` collected from it is too. */
  lemma {:induction false} GatherAscending(acc: Gathered, paths: seq<Bytes>, from: nat, disk: Filters.Disk)
    requires acc.Gathered? ==> Ascending(acc.unique)
    ensures GatherFrom(acc, paths, from, disk).Gathered? ==> Ascending(GatherFrom(acc, paths, from, disk).unique)
    decreases |paths| - from
  {
    if from < |paths| && acc.Gathered? {
      var n := SignPaths.New(paths[from], paths[from] in disk.dirs);
      if n.Created? {
        InsertSortedAscending(acc.unique, n.sp);
      }
      GatherAscending(GatherOne(acc, paths[from], disk), paths, from + 1, disk);
    }
  }

  /** What `SignPath::new` makes of candidate `i`. */
  function NewAt(paths: seq<Bytes>, i: nat, disk: Filters.Disk): SignPaths.NewOutcome
    requires i < |paths|
  {
    SignPaths.New(paths[i], paths[i] in disk.dirs)
  }

  /** `y` is the value `SignPath::new` created from a candidate at or after `from`. */
  predicate CreatedFrom(y: SignPaths.SignPath, paths: seq<Bytes>, from: nat, disk: Filters.Disk) {
    exists i :: from <= i < |paths| && NewAt(paths, i, disk) == SignPaths.Created(y)
  }

  /** `s` holds a value equal to `x` as a `SignPath`. */
  predicate HasEq(s: seq<SignPaths.SignPath>, x: SignPaths.SignPath) {
    exists y :: y in s && SignPaths.Eq(y, x)
  }

  /** The messages of the candidates `SignPath::new` rejected, in candidate order. */
  function Rejections(paths: seq<Bytes>, from: nat, disk: Filters.Disk): seq<string>
    decreases |paths| - from
  {
    if from >= |paths| then []
    else
      SignPaths.RejectionOf(NewAt(paths, from, disk)) + Rejections(paths, from + 1, disk)
  }

  lemma {:induction false} GatherPanics(acc: Gathered, paths: seq<Bytes>, from: nat, disk: Filters.Disk)
    requires acc.Gathered? && from <= |paths|
    ensures GatherFrom(acc, paths, from, disk).GatherPanicked? <==>
      exists i :: from <= i < |paths| && NewAt(paths, i, disk).Panicked?
    decreases |paths| - from
  {
    if from < |paths| {
      var next := GatherOne(acc, paths[from], disk);
      if next.Gathered? {
        GatherPanics(next, paths, from + 1, disk);
        if exists i :: from <= i < |paths| && NewAt(paths, i, disk).Panicked? {
          var i :| from <= i < |paths| && NewAt(paths, i, disk).Panicked?;
          assert i != from;
        }
      } else {
        assert NewAt(paths, from, disk).Panicked?;
      }
    }
  }

  /** One candidate that does not panic adds its own rejection message, if any, to the errors. */
  lemma GatherErrorsStep(acc: Gathered, paths: seq<Bytes>, from: nat, disk: Filters.Disk)
    requires acc.Gathered? && from < |paths| && !NewAt(paths, from, disk).Panicked?
    ensures GatherOne(acc, paths[from], disk).Gathered?
    ensures GatherOne(acc, paths[from], disk).errors + Rejections(paths, from + 1, disk)
      == acc.errors + Rejections(paths, from, disk)
  {
    var own := SignPaths.RejectionOf(NewAt(paths, from, disk));
    var rest := Rejections(paths, from + 1, disk);
    assert acc.errors + own + rest == acc.errors + (own + rest);
  }

  lemma {:induction false} GatherErrors(acc: Gathered, paths: seq<Bytes>, from: nat, disk: Filters.Disk)
    requires acc.Gathered? && from <= |paths|
    ensures GatherFrom(acc, paths, from, disk).Gathered? ==>
      GatherFrom(acc, paths, from, disk).errors == acc.errors + Rejections(paths, from, disk)
    decreases |paths| - from
  {
    if from == |paths| {
      assert acc.errors + [] == acc.errors;
    } else {
      var next := GatherOne(acc, paths[from], disk);
      if next.Gathered? {
        GatherErrors(next, paths, from + 1, disk);
        GatherErrorsStep(acc, paths, from, disk);
      }
    }
  }

  lemma {:induction false} GatherKeeps(acc: Gathered, paths: seq<Bytes>, from: nat, disk: Filters.Disk)
    requires acc.Gathered? && from <= |paths|
    ensures GatherFrom(acc, paths, from, disk).Gathered? ==>
      var g := GatherFrom(acc, paths, from, disk);
      && (forall y :: y in acc.unique ==> y in g.unique)
      && (forall y :: y in g.unique ==> y in acc.unique || CreatedFrom(y, paths, from, disk))
    decreases |paths| - from
  {
    if from < |paths| {
      var n := NewAt(paths, from, disk);
      var next := GatherOne(acc, paths[from], disk);
      if !n.Panicked? {
        GatherKeeps(next, paths, from + 1, disk);
        var g := GatherFrom(next, paths, from + 1, disk);
        if g.Gathered? && n.Created? {
          InsertSortedMembers(acc.unique, n.sp);
          forall y | y in g.unique
            ensures y in acc.unique || CreatedFrom(y, paths, from, disk)
          {
            if y !in acc.unique && !CreatedFrom(y, paths, from + 1, disk) {
              assert NewAt(paths, from, disk) == SignPaths.Created(y);
            }
          }
        }
      }
    }
  }

  lemma {:induction false} GatherComplete(acc: Gathered, paths: seq<Bytes>, from: nat, disk: Filters.Disk)
    requires acc.Gathered? && from <= |paths|
    ensures GatherFrom(acc, paths, from, disk).Gathered? ==>
      forall i :: from <= i < |paths| && NewAt(paths, i, disk).Created? ==>
        HasEq(GatherFrom(acc, paths, from, disk).unique, NewAt(paths, i, disk).sp)
    decreases |paths| - from
  {
    if from < |paths| {
      var n := NewAt(paths, from, disk);
      var next := GatherOne(acc, paths[from], disk);
      if !n.Panicked? {
        GatherComplete(next, paths, from + 1, disk);
        var g := GatherFrom(next, paths, from + 1, disk);
        if g.Gathered? && n.Created? {
          assert HasEq(g.unique, n.sp) by {
            InsertSortedMembers(acc.unique, n.sp);
            SignPaths.EqIsEquivalence(n.sp, n.sp, n.sp);
            GatherKeeps(next, paths, from + 1, disk);
            if n.sp in next.unique {
              assert n.sp in g.unique;
            } else {
              var y :| y in acc.unique && SignPaths.Eq(y, n.sp);
              assert y in g.unique;
            }
          }
        }
      }
    }
  }

  /**
   * The set `get_signing_paths` collects holds, up to `SignPath` equality,
   * every value created from a candidate and nothing else; its error list is
   * the rejection messages in candidate order; and a candidate that panics
   * `SignPath::new` panics the whole collection.
   */
  lemma GatherMembers(paths: seq<Bytes>, disk: Filters.Disk)
    ensures GatherFrom(Gathered([], []), paths, 0, disk).GatherPanicked? <==>
      exists i :: 0 <= i < |paths| && NewAt(paths, i, disk).Panicked?
    ensures GatherFrom(Gathered([], []), paths, 0, disk).Gathered? ==>
      var g := GatherFrom(Gathered([], []), paths, 0, disk);
      && g.errors == Rejections(paths, 0, disk)
      && Ascending(g.unique)
      && (forall y :: y in g.unique ==> CreatedFrom(y, paths, 0, disk))
      && (forall i :: 0 <= i < |paths| && NewAt(paths, i, disk).Created? ==>
            HasEq(g.unique, NewAt(paths, i, disk).sp))
  {
    GatherPanics(Gathered([], []), paths, 0, disk);
    GatherErrors(Gathered([], []), paths, 0, disk);
    GatherKeeps(Gathered([], []), paths, 0, disk);
    GatherComplete(Gathered([], []), paths, 0, disk);
    GatherAscending(Gathered([], []), paths, 0, disk);
    assert [] + Rejections(paths, 0, disk) == Rejections(paths, 0, disk);
  }

  /**
   * The candidate loops: every candidate path in the order the walks produced
   * them, into the set or, as its message, into the error list.
   */
  method Gather(paths: seq<Bytes>, disk: Filters.Disk) returns (unique: seq<SignPaths.SignPath>, errors: seq<string>, panicked: bool)
    ensures panicked <==> GatherFrom(Gathered([], []), paths, 0, disk).GatherPanicked?
    ensures !panicked ==> GatherFrom(Gathered([], []), paths, 0, disk) == Gathered(unique, errors)
    ensures !panicked ==> Ascending(unique)
  {
    GatherAscending(Gathered([], []), paths, 0, disk);
    unique, errors, panicked := [], [], false;
    var i := 0;
    while i < |paths|
      invariant 0 <= i <= |paths|
      invariant GatherFrom(Gathered([], []), paths, 0, disk) == GatherFrom(Gathered(unique, errors), paths, i, disk)
    {
      var n := SignPaths.New(paths[i], paths[i] in disk.dirs);
      if n.Panicked? {
        panicked := true;
        return;
      } else if n.Created? {
        unique := InsertSorted(unique, n.sp);
      } else {
        errors := errors + [n.message];
      }
      i := i + 1;
    }
  }

  /** The filters `get_signing_paths` builds, in the order it pushes them. */
  function BuildFilters(includeExclude: Option<Filters.ConfigTypeFilter>, signable: Option<Filters.SignableFilter>): (r: seq<Filters.Filter>)
    ensures |r| <= 2
  {
    (if includeExclude.Some? then [Filters.ConfigType(includeExclude.value)] else [])
    + (if signable.Some? then [Filters.Signable(signable.value)] else [])
  }

  /** The filters already come in `sort_by_access` order. */
  lemma BuiltFiltersSorted(includeExclude: Option<Filters.ConfigTypeFilter>, signable: Option<Filters.SignableFilter>)
    ensures Filters.SortByAccess(BuildFilters(includeExclude, signable)) == BuildFilters(includeExclude, signable)
  {
    var c := if includeExclude.Some? then [Filters.ConfigType(includeExclude.value)] else [];
    var s := if signable.Some? then [Filters.Signable(signable.value)] else [];
    Filters.OfOrdAppend(c, s, 0);
    Filters.OfOrdAppend(c, s, 255);
  }

  /**
   * The tail of `get_signing_paths` as written: the candidates are gathered,
   * the filters sorted and applied, but the vector `apply_filters` returns is
   * dropped and the drained one is returned.
   */
  method SigningPathsAsWritten(paths: seq<Bytes>, filters: seq<Filters.Filter>, disk: Filters.Disk)
    returns (signPaths: seq<SignPaths.SignPath>, errors: seq<string>, panicked: bool)
    ensures panicked <==> IntendedPaths(paths, filters, disk).Abandoned?
    ensures !panicked ==> signPaths == []
    ensures !panicked ==> errors == GatherFrom(Gathered([], []), paths, 0, disk).errors
  {
    var unique;
    unique, errors, panicked := Gather(paths, disk);
    if panicked {
      signPaths := [];
      return;
    }
    var pathVals := new Filters.SignPathVec(unique);
    var _, filterPanic := pathVals.ApplyFilters(Filters.SortByAccess(filters), disk);
    panicked := filterPanic;
    signPaths := pathVals.items;
  }

  /** What the evidently intended tail returns: the gathered set, filtered. */
  function IntendedPaths(paths: seq<Bytes>, filters: seq<Filters.Filter>, disk: Filters.Disk): Filters.Applied {
    var g := GatherFrom(Gathered([], []), paths, 0, disk);
    if g.GatherPanicked? then Filters.Abandoned
    else Filters.ApplyFrom(g.unique, 0, Filters.SortByAccess(filters), disk)
  }

  /** The corrected tail: the filtered vector is the one returned. */
  method SigningPaths(paths: seq<Bytes>, filters: seq<Filters.Filter>, disk: Filters.Disk)
    returns (signPaths: seq<SignPaths.SignPath>, errors: seq<string>, panicked: bool)
    ensures panicked <==> IntendedPaths(paths, filters, disk).Abandoned?
    ensures !panicked ==> signPaths == IntendedPaths(paths, filters, disk).items
    ensures !panicked ==> errors == GatherFrom(Gathered([], []), paths, 0, disk).errors
  {
    var unique;
    unique, errors, panicked := Gather(paths, disk);
    if panicked {
      signPaths := [];
      return;
    }
    var pathVals := new Filters.SignPathVec(unique);
    signPaths, panicked := pathVals.ApplyFilters(Filters.SortByAccess(filters), disk);
  }

  lemma {:induction false} ApplyAscending(xs: seq<SignPaths.SignPath>, from: nat, filters: seq<Filters.Filter>, disk: Filters.Disk)
    requires Ascending(xs) && from <= |xs|
    requires Filters.ApplyFrom(xs, from, filters, disk).Kept?
    ensures Ascending(Filters.ApplyFrom(xs, from, filters, disk).items)
    ensures forall y :: y in Filters.ApplyFrom(xs, from, filters, disk).items ==> y in xs[from..]
    decreases |xs| - from
  {
    if from < |xs| {
      ApplyAscending(xs, from + 1, filters, disk);
      var rest := Filters.ApplyFrom(xs, from + 1, filters, disk).items;
      var r := Filters.ApplyFrom(xs, from, filters, disk).items;
      assert xs[from..] == [xs[from]] + xs[from + 1..];
      if r != rest {
        forall j | 1 <= j < |r|
          ensures SignPaths.Cmp(r[0], r[j]) == Less
        {
          assert r[j] in rest;
          var k :| from + 1 <= k < |xs| && xs[k] == r[j];
        }
      }
    }
  }

  /**
   * The corrected tail returns paths every filter matched, strictly ascending,
   * so no two of them are equal as `SignPath`s.
   */
  lemma IntendedPathsSpec(paths: seq<Bytes>, filters: seq<Filters.Filter>, disk: Filters.Disk)
    requires IntendedPaths(paths, filters, disk).Kept?
    ensures Ascending(IntendedPaths(paths, filters, disk).items)
    ensures forall y :: y in IntendedPaths(paths, filters, disk).items ==>
      CreatedFrom(y, paths, 0, disk) && Filters.AllMatch(Filters.SortByAccess(filters), 0, y, disk) == Filters.Holds
    ensures GatherFrom(Gathered([], []), paths, 0, disk).Gathered?
    ensures forall y :: y in GatherFrom(Gathered([], []), paths, 0, disk).unique ==>
      (y in IntendedPaths(paths, filters, disk).items <==>
        Filters.AllMatch(Filters.SortByAccess(filters), 0, y, disk) == Filters.Holds)
  {
    var g := GatherFrom(Gathered([], []), paths, 0, disk);
    GatherMembers(paths, disk);
    ApplyAscending(g.unique, 0, Filters.SortByAccess(filters), disk);
    Filters.ApplyKeeps(g.unique, 0, Filters.SortByAccess(filters), disk);
  }

  /**
   * The input that shows the dropped result: a single `Cargo.toml` and no
   * filters. The corrected tail returns it; as written the list is empty.
   */
  lemma DroppedResultWitness()
    ensures IntendedPaths([SignPaths.CARGO_TOML], [], Filters.Disk({}, {}, {}))
      == Filters.Kept([SignPaths.CargoToml(SignPaths.CARGO_TOML, None, None)])
  {
    var disk := Filters.Disk({}, {}, {});
    var cargo := SignPaths.CargoToml(SignPaths.CARGO_TOML, None, None);
    SignPaths.NewOfManifest([], 0);
    assert GatherOne(Gathered([], []), SignPaths.CARGO_TOML, disk) == Gathered([cargo], []);
    assert GatherFrom(Gathered([], []), [SignPaths.CARGO_TOML], 0, disk)
      == GatherFrom(Gathered([cargo], []), [SignPaths.CARGO_TOML], 1, disk);
    assert Filters.SortByAccess([]) == [];
    Filters.ApplyNoFilters([cargo], 0, disk);
  }
}
