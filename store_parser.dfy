/**
 * The identity-store parser: one forward scan over the mapped store file,
 * line by line. A line is classified by its first byte:
 *   `#`  a comment, ignored;
 *   `K`  `K:"key"` pushes a pending key;
 *   `U`  `U:"u1" "u2" ...` appends usernames to the identity being built;
 *   `E`  `E:"e1" ...` appends emails, then binds the identity to the most
 *        recently pushed key (if any) and starts a new identity.
 * Any other first byte, an index past the end of a line and a duplicate key
 * are fatal (a panic in the program); they are modelled as `Fatal` values.
 */
module StoreParser {
  import opened Common
  import opened Identities

  const QUOTE: byte := 34
  const NEWLINE: byte := 10
  const POUND: byte := 35
  const K_MARKER: byte := 75
  const U_MARKER: byte := 85
  const E_MARKER: byte := 69

  /** The panics of the scan. */
  datatype Fatal =
    | IndexOutOfBounds   // a quote scan ran past the end of its line
    | DuplicateKey       // `unwrap` of "Key already exists"
    | UnknownLineMarker  // `unimplemented!()` on any other first byte

  /** Index of the first `b` in `s` at or after `from`. */
  function FindAt(s: Bytes, from: nat, b: byte): (r: Option<nat>)
    ensures r.Some? ==> from <= r.value < |s| && s[r.value] == b
    decreases |s| - from
  {
    if from >= |s| then None
    else if s[from] == b then Some(from)
    else FindAt(s, from + 1, b)
  }

  /** The key of a `K` line: from offset 3 up to the first following quote. */
  function KeyOfLine(line: Bytes): Result<Bytes, Fatal> {
    match FindAt(line, 3, QUOTE)
    case None => Err(IndexOutOfBounds)
    case Some(c) => Ok(line[3..c])
  }

  /**
   * Where the next quoted value of `line` lies, scanning from `cursor`: after
   * the first quote, up to the second; `None` when either quote is missing.
   */
  function NextValue(line: Bytes, cursor: nat): (r: Option<(nat, nat)>)
    ensures r.Some? ==> cursor < r.value.0 <= r.value.1 < |line|
  {
    var open := FindAt(line, cursor, QUOTE);
    if open.None? then None
    else
      var close := FindAt(line, open.value + 1, QUOTE);
      if close.None? then None else Some((open.value + 1, close.value))
  }

  /**
   * The quoted values of a `U` or `E` line from `cursor` on: stop at the end
   * of the line or at a newline; otherwise skip to an opening quote, take the
   * bytes up to the closing quote, and continue after it.
   */
  function QuotedValues(line: Bytes, cursor: nat): Result<seq<Bytes>, Fatal>
    decreases |line| - cursor
  {
    if cursor >= |line| || line[cursor] == NEWLINE then Ok([])
    else
      var next := NextValue(line, cursor);
      if next.None? then Err(IndexOutOfBounds)
      else
        var rest := QuotedValues(line, next.value.1 + 1);
        if rest.Err? then rest
        else Ok([line[next.value.0..next.value.1]] + rest.value)
  }

  /** The parser's buffers: the pending-key stack, the identity being built, and the map. */
  datatype Pending = Pending(keys: seq<Bytes>, usernames: seq<Bytes>, emails: seq<Bytes>, identities: map<Bytes, Identity>)

  const Start := Pending([], [], [], map[])

  /** A slice that ends with a newline, as every line the scan takes does. */
  predicate EndsLine(line: Bytes) {
    |line| > 0 && line[|line| - 1] == NEWLINE
  }

  /** The effect of one line on the buffers. */
  function Step(st: Pending, line: Bytes): Result<Pending, Fatal>
    requires EndsLine(line)
  {
    var marker := line[0];
    if marker == POUND then Ok(st)
    else if marker == K_MARKER then
      var key := KeyOfLine(line);
      if key.Err? then Err(key.error) else Ok(st.(keys := st.keys + [key.value]))
    else if marker == U_MARKER then
      var vs := QuotedValues(line, 2);
      if vs.Err? then Err(vs.error) else Ok(st.(usernames := st.usernames + vs.value))
    else if marker == E_MARKER then
      var vs := QuotedValues(line, 2);
      if vs.Err? then Err(vs.error)
      else if st.keys == [] then Ok(st.(usernames := [], emails := []))
      else
        var key := st.keys[|st.keys| - 1];
        if key in st.identities then Err(DuplicateKey)
        else Ok(Pending(st.keys[..|st.keys| - 1], [], [], st.identities[key := Identity(st.usernames, st.emails + vs.value)]))
    else Err(UnknownLineMarker)
  }

  /** The scan from offset `s`, line by line; bytes after the last newline are not examined. */
  function Scan(memmap: Bytes, s: nat, st: Pending): Result<Pending, Fatal>
    decreases |memmap| - s
  {
    var p := FindAt(memmap, s, NEWLINE);
    if p.None? then Ok(st)
    else
      var next := Step(st, memmap[s..p.value + 1]);
      if next.Err? then next else Scan(memmap, p.value + 1, next.value)
  }

  /** `process_las` on the whole store: the map left when the scan ends. */
  function ParseStore(memmap: Bytes): Result<map<Bytes, Identity>, Fatal> {
    var last := Scan(memmap, 0, Start);
    if last.Err? then Err(last.error) else Ok(last.value.identities)
  }

  /** `memmap[s..].iter().position(..)`, as an absolute index. */
  method FindFrom(memmap: Bytes, s: nat, b: byte) returns (r: Option<nat>)
    ensures r == FindAt(memmap, s, b)
  {
    var i := s;
    while i < |memmap| && memmap[i] != b
      invariant s <= i
      invariant FindAt(memmap, i, b) == FindAt(memmap, s, b)
    {
      i := i + 1;
    }
    r := if i < |memmap| then Some(i) else None;
  }

  /** The `K` branch: scan from offset 3 to the closing quote. */
  method ScanKey(line: Bytes) returns (r: Result<Bytes, Fatal>)
    ensures r == KeyOfLine(line)
  {
    var cursor := 3;
    while cursor < |line| && line[cursor] != QUOTE
      invariant 3 <= cursor
      invariant FindAt(line, cursor, QUOTE) == FindAt(line, 3, QUOTE)
    {
      cursor := cursor + 1;
    }
    if cursor >= |line| {
      return Err(IndexOutOfBounds);
    }
    r := Ok(line[3..cursor]);
  }

  /** The two inner scans of a `U` or `E` line: the bounds of the next quoted value. */
  method NextQuoted(line: Bytes, cursor: nat) returns (r: Option<(nat, nat)>)
    ensures r == NextValue(line, cursor)
  {
    var open := FindFrom(line, cursor, QUOTE);
    if open.None? {
      return None;
    }
    var start := open.value + 1;
    var close := FindFrom(line, start, QUOTE);
    if close.None? {
      return None;
    }
    r := Some((start, close.value));
  }

  /** Prefix the values already taken to the outcome of the rest of the line. */
  function Prepend(taken: seq<Bytes>, r: Result<seq<Bytes>, Fatal>): Result<seq<Bytes>, Fatal> {
    match r
    case Err(e) => Err(e)
    case Ok(vs) => Ok(taken + vs)
  }

  lemma PrependStep(line: Bytes, cursor: nat, start: nat, end: nat, taken: seq<Bytes>)
    requires cursor < |line| && line[cursor] != NEWLINE && NextValue(line, cursor) == Some((start, end))
    ensures Prepend(taken, QuotedValues(line, cursor)) == Prepend(taken + [line[start..end]], QuotedValues(line, end + 1))
  {
    if QuotedValues(line, end + 1).Ok? {
      var vs := QuotedValues(line, end + 1).value;
      assert taken + ([line[start..end]] + vs) == (taken + [line[start..end]]) + vs;
    }
  }

  /** The values loop of a `U` line: from cursor 2, each quoted value is appended to `usernames`. */
  method ReadUsernames(line: Bytes, buf: IdentityPerf) returns (r: Result<(), Fatal>)
    requires |line| >= 2
    modifies buf
    ensures r.Ok? <==> QuotedValues(line, 2).Ok?
    ensures r.Err? ==> r.error == QuotedValues(line, 2).error
    ensures r.Ok? ==> buf.usernames == old(buf.usernames) + QuotedValues(line, 2).value
    ensures buf.emails == old(buf.emails)
  {
    var cursor := 2;
    ghost var taken: seq<Bytes> := [];
    assert QuotedValues(line, 2).Ok? ==> taken + QuotedValues(line, 2).value == QuotedValues(line, 2).value;
    while cursor < |line| && line[cursor] != NEWLINE
      invariant 2 <= cursor <= |line|
      invariant Prepend(taken, QuotedValues(line, cursor)) == QuotedValues(line, 2)
      invariant buf.usernames == old(buf.usernames) + taken && buf.emails == old(buf.emails)
      decreases |line| - cursor
    {
      var bounds := NextQuoted(line, cursor);
      if bounds.None? {
        return Err(IndexOutOfBounds);
      }
      var start, close := bounds.value.0, bounds.value.1;
      buf.AddUsername(line[start..close]);
      PrependStep(line, cursor, start, close, taken);
      taken := taken + [line[start..close]];
      cursor := close + 1;
    }
    r := Ok(());
  }

  /** The values loop of an `E` line: from cursor 2, each quoted value is appended to `emails`. */
  method ReadEmails(line: Bytes, buf: IdentityPerf) returns (r: Result<(), Fatal>)
    requires |line| >= 2
    modifies buf
    ensures r.Ok? <==> QuotedValues(line, 2).Ok?
    ensures r.Err? ==> r.error == QuotedValues(line, 2).error
    ensures r.Ok? ==> buf.emails == old(buf.emails) + QuotedValues(line, 2).value
    ensures buf.usernames == old(buf.usernames)
  {
    var cursor := 2;
    ghost var taken: seq<Bytes> := [];
    assert QuotedValues(line, 2).Ok? ==> taken + QuotedValues(line, 2).value == QuotedValues(line, 2).value;
    while cursor < |line| && line[cursor] != NEWLINE
      invariant 2 <= cursor <= |line|
      invariant Prepend(taken, QuotedValues(line, cursor)) == QuotedValues(line, 2)
      invariant buf.emails == old(buf.emails) + taken && buf.usernames == old(buf.usernames)
      decreases |line| - cursor
    {
      var bounds := NextQuoted(line, cursor);
      if bounds.None? {
        return Err(IndexOutOfBounds);
      }
      var start, close := bounds.value.0, bounds.value.1;
      buf.AddEmail(line[start..close]);
      PrependStep(line, cursor, start, close, taken);
      taken := taken + [line[start..close]];
      cursor := close + 1;
    }
    r := Ok(());
  }

  /**
   * One turn of the scan on a complete line: dispatch on its first byte and
   * update the key stack, the identity buffer (a new one after an `E` line)
   * and the map, as `Step` says.
   */
  method ApplyLine(line: Bytes, keyBuf: seq<Bytes>, las: LocalAuthorStoragePerf, buf: IdentityPerf)
    returns (r: Result<seq<Bytes>, Fatal>, nextBuf: IdentityPerf)
    requires EndsLine(line)
    modifies las, buf
    ensures fresh(nextBuf) || nextBuf == buf
    ensures match Step(Pending(keyBuf, old(buf.usernames), old(buf.emails), old(las.identities)), line)
      case Err(e) => r == Err(e)
      case Ok(next) =>
        r == Ok(next.keys) && nextBuf.usernames == next.usernames && nextBuf.emails == next.emails
        && las.identities == next.identities
  {
    nextBuf := buf;
    var marker := line[0];
    if marker == POUND {
      r := Ok(keyBuf);
    } else if marker == K_MARKER {
      var key := ScanKey(line);
      if key.Err? {
        return Err(key.error), nextBuf;
      }
      r := Ok(keyBuf + [key.value]);
    } else if marker == U_MARKER {
      var read := ReadUsernames(line, buf);
      if read.Err? {
        return Err(read.error), nextBuf;
      }
      r := Ok(keyBuf);
    } else if marker == E_MARKER {
      var read := ReadEmails(line, buf);
      if read.Err? {
        return Err(read.error), nextBuf;
      }
      r := Ok(keyBuf);
      if keyBuf != [] {
        var key := keyBuf[|keyBuf| - 1];
        r := Ok(keyBuf[..|keyBuf| - 1]);
        var added := las.AddIdentity(key, buf);
        if added.Err? {
          return Err(DuplicateKey), nextBuf;
        }
      }
      nextBuf := new IdentityPerf();
    } else {
      r := Err(UnknownLineMarker);
    }
  }

  /**
   * `process_las`: the forward scan with its pending-key stack, identity
   * buffer and identity map; it fails exactly where the scan panics.
   */
  method ProcessLas(memmap: Bytes) returns (r: Result<LocalAuthorStoragePerf, Fatal>)
    ensures ParseStore(memmap).Err? ==> r.Err? && r.error == ParseStore(memmap).error
    ensures ParseStore(memmap).Ok? ==> r.Ok? && r.value.identities == ParseStore(memmap).value && r.value.memmap == memmap
  {
    var keyBuf: seq<Bytes> := [];
    var las := new LocalAuthorStoragePerf(memmap);
    var identityBuf := new IdentityPerf();
    var s := 0;
    while true
      invariant fresh(las) && fresh(identityBuf)
      invariant las.memmap == memmap
      invariant Scan(memmap, s, Pending(keyBuf, identityBuf.usernames, identityBuf.emails, las.identities))
             == Scan(memmap, 0, Start)
      decreases |memmap| - s
    {
      var newlinePos := FindFrom(memmap, s, NEWLINE);
      if newlinePos.None? {
        break;
      }
      var line := memmap[s..newlinePos.value + 1];
      s := newlinePos.value + 1;
      var pendingKeys, nextBuf := ApplyLine(line, keyBuf, las, identityBuf);
      if pendingKeys.Err? {
        return Err(pendingKeys.error);
      }
      keyBuf, identityBuf := pendingKeys.value, nextBuf;
    }
    return Ok(las);
  }
}

/** Properties of the identity-store scan. */
module StoreParserProperties {
  import opened Common
  import opened Identities
  import opened StoreParser

  // ---- Finding a byte ----

  /** `FindAt` finds the first occurrence, and `None` means there is none. */
  lemma {:induction false} FindAtFirst(s: Bytes, from: nat, b: byte)
    ensures FindAt(s, from, b).Some? ==> forall j :: from <= j < FindAt(s, from, b).value ==> s[j] != b
    ensures FindAt(s, from, b).None? <==> forall j :: from <= j < |s| ==> s[j] != b
    decreases |s| - from
  {
    if from < |s| && s[from] != b {
      FindAtFirst(s, from + 1, b);
    }
  }

  /** The first `b` at or after `from` is at `j`. */
  lemma {:induction false} FindAtIs(s: Bytes, from: nat, j: nat, b: byte)
    requires from <= j < |s| && s[j] == b
    requires forall i :: from <= i < j ==> s[i] != b
    ensures FindAt(s, from, b) == Some(j)
    decreases j - from
  {
    if from < j {
      FindAtIs(s, from + 1, j, b);
    }
  }

  lemma {:induction false} FindAtShift(pre: Bytes, m: Bytes, s: nat, b: byte)
    ensures FindAt(pre + m, |pre| + s, b)
         == if FindAt(m, s, b).None? then None else Some(|pre| + FindAt(m, s, b).value)
    decreases |m| - s
  {
    if s < |m| {
      assert (pre + m)[|pre| + s] == m[s];
      if m[s] != b {
        FindAtShift(pre, m, s + 1, b);
      }
    }
  }

  lemma {:induction false} FindAtPrefix(x: Bytes, y: Bytes, s: nat, b: byte)
    requires FindAt(x, s, b).Some?
    ensures FindAt(x + y, s, b) == FindAt(x, s, b)
    decreases |x| - s
  {
    assert (x + y)[s] == x[s];
    if x[s] != b {
      FindAtPrefix(x, y, s + 1, b);
    }
  }

  // ---- Keys ----

  /**
   * The key of a `K` line is the run of bytes from offset 3 up to the first
   * quote after it; a line with no quote there is fatal.
   */
  lemma KeyOfLineSpec(line: Bytes)
    ensures KeyOfLine(line).Ok? <==> exists j :: 3 <= j < |line| && line[j] == QUOTE
    ensures KeyOfLine(line).Err? ==> KeyOfLine(line).error == IndexOutOfBounds
    ensures KeyOfLine(line).Ok? ==>
      var key := KeyOfLine(line).value;
      3 + |key| < |line| && key == line[3..3 + |key|] && line[3 + |key|] == QUOTE && QUOTE !in key
  {
    FindAtFirst(line, 3, QUOTE);
    if KeyOfLine(line).Ok? {
      var key := KeyOfLine(line).value;
      assert forall i :: 0 <= i < |key| ==> key[i] == line[3 + i];
    }
  }

  /** Bytes 1 and 2 of a `K` line are never examined. */
  lemma KeyIgnoresBytesOneAndTwo(a: Bytes, b: Bytes)
    requires |a| == |b| && |a| >= 3 && a[3..] == b[3..]
    ensures KeyOfLine(a) == KeyOfLine(b)
  {
    FindAtShift(a[..3], a[3..], 0, QUOTE);
    FindAtShift(b[..3], b[3..], 0, QUOTE);
    assert a == a[..3] + a[3..] && b == b[..3] + b[3..];
    if KeyOfLine(a).Ok? {
      assert a[3..FindAt(a, 3, QUOTE).value] == b[3..FindAt(b, 3, QUOTE).value];
    }
  }

  // ---- Quoted values ----

  lemma NextValueShift(pre: Bytes, line: Bytes, c: nat)
    ensures NextValue(pre + line, |pre| + c)
         == if NextValue(line, c).None? then None
            else Some((|pre| + NextValue(line, c).value.0, |pre| + NextValue(line, c).value.1))
  {
    FindAtShift(pre, line, c, QUOTE);
    var open := FindAt(line, c, QUOTE);
    if open.Some? {
      FindAtShift(pre, line, open.value + 1, QUOTE);
    }
  }

  lemma {:induction false} QuotedValuesShift(pre: Bytes, line: Bytes, c: nat)
    ensures QuotedValues(pre + line, |pre| + c) == QuotedValues(line, c)
    decreases |line| - c
  {
    if c < |line| {
      assert (pre + line)[|pre| + c] == line[c];
      if line[c] != NEWLINE {
        NextValueShift(pre, line, c);
        var next := NextValue(line, c);
        if next.Some? {
          QuotedValuesShift(pre, line, next.value.1 + 1);
          assert (pre + line)[|pre| + next.value.0..|pre| + next.value.1] == line[next.value.0..next.value.1];
        }
      }
    }
  }

  /** A filler byte before an opening quote is skipped. */
  lemma SkipFiller(line: Bytes, c: nat)
    requires c + 1 < |line| && line[c] != NEWLINE && line[c] != QUOTE && line[c + 1] == QUOTE
    ensures QuotedValues(line, c) == QuotedValues(line, c + 1)
  {
    assert FindAt(line, c, QUOTE) == FindAt(line, c + 1, QUOTE);
  }

  /** Where the next value lies: between two quotes, with no quote inside or before it. */
  lemma NextValueSpec(line: Bytes, cursor: nat)
    requires NextValue(line, cursor).Some?
    ensures var next := NextValue(line, cursor).value;
      line[next.0 - 1] == QUOTE && line[next.1] == QUOTE && QUOTE !in line[next.0..next.1]
      && forall i :: cursor <= i < next.0 - 1 ==> line[i] != QUOTE
  {
    var open := FindAt(line, cursor, QUOTE).value;
    FindAtFirst(line, cursor, QUOTE);
    FindAtFirst(line, open + 1, QUOTE);
  }

  /** The `n` bytes of `m` from offset `i`. */
  function Window(m: Bytes, i: nat, n: nat): Bytes
    requires i + n <= |m|
  {
    m[i..i + n]
  }

  /** `s` occurs in `m` at some offset. */
  predicate SliceOf(s: Bytes, m: Bytes) {
    exists i: nat :: i + |s| <= |m| && Window(m, i, |s|) == s
  }

  /** Every value read from a line is a slice of the line without a quote byte. */
  lemma {:induction false} QuotedValuesAreSlices(line: Bytes, c: nat)
    requires QuotedValues(line, c).Ok?
    ensures forall v :: v in QuotedValues(line, c).value ==> QUOTE !in v && SliceOf(v, line)
    decreases |line| - c
  {
    if c < |line| && line[c] != NEWLINE {
      var next := NextValue(line, c).value;
      NextValueSpec(line, c);
      QuotedValuesAreSlices(line, next.1 + 1);
      var v := line[next.0..next.1];
      assert Window(line, next.0, |v|) == v;
    }
  }

  // ---- Lines ----

  /** `a` from `i` on and `b` from `j` on hold the same bytes. */
  predicate SameFrom(a: Bytes, i: nat, b: Bytes, j: nat) {
    i <= |a| && j <= |b| && |a| - i == |b| - j && forall k :: i <= k < |a| ==> a[k] == b[k - i + j]
  }

  /** The newline search sees only the bytes from its start on. */
  lemma {:induction false} FindAtSame(a: Bytes, i: nat, b: Bytes, j: nat, x: byte)
    requires SameFrom(a, i, b, j)
    ensures FindAt(a, i, x).None? <==> FindAt(b, j, x).None?
    ensures FindAt(a, i, x).Some? ==> FindAt(a, i, x).value - i == FindAt(b, j, x).value - j
    decreases |a| - i
  {
    if i < |a| && a[i] != x {
      FindAtSame(a, i + 1, b, j + 1, x);
    }
  }

  /** One line of the scan: the step on the line, then the rest unless the step failed. */
  lemma ScanUnfold(m: Bytes, s: nat, st: Pending, p: nat)
    requires FindAt(m, s, NEWLINE) == Some(p)
    ensures var next := Step(st, m[s..p + 1]);
      Scan(m, s, st) == if next.Err? then next else Scan(m, p + 1, next.value)
  {
  }

  /** Without a further newline the scan ends in the state it has. */
  lemma ScanEnds(m: Bytes, s: nat, st: Pending)
    requires FindAt(m, s, NEWLINE).None?
    ensures Scan(m, s, st) == Ok(st)
  {
  }

  /** The scan from an offset sees only the bytes from that offset on. */
  lemma {:induction false} ScanSame(a: Bytes, i: nat, b: Bytes, j: nat, st: Pending)
    requires SameFrom(a, i, b, j)
    ensures Scan(a, i, st) == Scan(b, j, st)
    decreases |a| - i
  {
    FindAtSame(a, i, b, j, NEWLINE);
    var p := FindAt(a, i, NEWLINE);
    if p.None? {
      ScanEnds(a, i, st);
      ScanEnds(b, j, st);
    } else {
      var q := FindAt(b, j, NEWLINE).value;
      var line := a[i..p.value + 1];
      var next := Step(st, line);
      assert Scan(a, i, st) == if next.Err? then next else Scan(a, p.value + 1, next.value) by {
        ScanUnfold(a, i, st, p.value);
      }
      assert Scan(b, j, st) == if next.Err? then next else Scan(b, q + 1, next.value) by {
        assert b[j..q + 1] == line;
        ScanUnfold(b, j, st, q);
      }
      if next.Ok? {
        ScanSame(a, p.value + 1, b, q + 1, next.value);
      }
    }
  }

  lemma ScanShift(pre: Bytes, m: Bytes, s: nat, st: Pending)
    requires s <= |m|
    ensures Scan(pre + m, |pre| + s, st) == Scan(m, s, st)
  {
    ScanSame(pre + m, |pre| + s, m, s, st);
  }

  /** Continue the scan on `rest` from the state `r` left, unless it failed. */
  function AndThen(r: Result<Pending, Fatal>, rest: Bytes): Result<Pending, Fatal> {
    if r.Err? then r else Scan(rest, 0, r.value)
  }

  /** Complete lines: nothing, or bytes that end with a newline. */
  predicate WholeLines(x: Bytes) {
    x == [] || x[|x| - 1] == NEWLINE
  }

  /** Scanning complete lines followed by more bytes: first the lines, then the rest. */
  lemma {:induction false} ScanAppendFrom(x: Bytes, y: Bytes, s: nat, st: Pending)
    requires s <= |x| && WholeLines(x)
    ensures Scan(x + y, s, st) == AndThen(Scan(x, s, st), y)
    decreases |x| - s
  {
    if s == |x| {
      ScanShift(x, y, 0, st);
    } else {
      FindAtFirst(x, s, NEWLINE);
      var p := FindAt(x, s, NEWLINE).value;
      var line := x[s..p + 1];
      var next := Step(st, line);
      assert Scan(x + y, s, st) == if next.Err? then next else Scan(x + y, p + 1, next.value) by {
        FindAtPrefix(x, y, s, NEWLINE);
        assert (x + y)[s..p + 1] == line;
        ScanUnfold(x + y, s, st, p);
      }
      assert Scan(x, s, st) == if next.Err? then next else Scan(x, p + 1, next.value) by {
        ScanUnfold(x, s, st, p);
      }
      if next.Ok? {
        ScanAppendFrom(x, y, p + 1, next.value);
      }
    }
  }

  lemma ScanAppend(x: Bytes, y: Bytes, st: Pending)
    requires WholeLines(x)
    ensures Scan(x + y, 0, st) == AndThen(Scan(x, 0, st), y)
  {
    ScanAppendFrom(x, y, 0, st);
  }

  /** A complete line: it ends with its newline and holds no other. */
  predicate IsLine(line: Bytes) {
    EndsLine(line) && forall i :: 0 <= i < |line| - 1 ==> line[i] != NEWLINE
  }

  /** Scanning a single line is one `Step`. */
  lemma SingleLine(line: Bytes, st: Pending)
    requires IsLine(line)
    ensures Scan(line, 0, st) == Step(st, line)
  {
    FindAtIs(line, 0, |line| - 1, NEWLINE);
    assert line[0..|line|] == line;
  }

  /** A comment line contributes nothing, wherever it stands between lines. */
  lemma CommentLineIgnored(before: Bytes, comment: Bytes, after: Bytes)
    requires WholeLines(before) && IsLine(comment) && comment[0] == POUND
    ensures ParseStore(before + comment + after) == ParseStore(before + after)
  {
    ScanAppend(before, comment + after, Start);
    ScanAppend(before, after, Start);
    assert before + comment + after == before + (comment + after);
    var first := Scan(before, 0, Start);
    if first.Ok? {
      ScanAppend(comment, after, first.value);
      SingleLine(comment, first.value);
    }
  }

  /** Bytes after the last newline are never examined. */
  lemma TrailingBytesIgnored(m: Bytes, tail: Bytes)
    requires WholeLines(m) && NEWLINE !in tail
    ensures ParseStore(m + tail) == ParseStore(m)
  {
    ScanAppend(m, tail, Start);
    var first := Scan(m, 0, Start);
    if first.Ok? {
      FindAtFirst(tail, 0, NEWLINE);
    }
  }

  /** A line whose first byte is not `#`, `K`, `U` or `E` (an empty line included) is fatal. */
  lemma UnknownMarkerFatal(before: Bytes, line: Bytes, after: Bytes)
    requires WholeLines(before) && Scan(before, 0, Start).Ok?
    requires IsLine(line) && line[0] !in {POUND, K_MARKER, U_MARKER, E_MARKER}
    ensures ParseStore(before + line + after) == Err(UnknownLineMarker)
  {
    var first := Scan(before, 0, Start).value;
    ScanAppend(before, line + after, Start);
    assert before + line + after == before + (line + after);
    ScanAppend(line, after, first);
    SingleLine(line, first);
  }

  lemma EmptyLineFatal(before: Bytes, after: Bytes)
    requires WholeLines(before) && Scan(before, 0, Start).Ok?
    ensures ParseStore(before + [NEWLINE] + after) == Err(UnknownLineMarker)
  {
    UnknownMarkerFatal(before, [NEWLINE], after);
  }

  // ---- Records ----

  const COLON: byte := 58
  const SPACE: byte := 32

  /** A value the store can hold inside quotes on one line. */
  predicate Plain(v: Bytes) {
    QUOTE !in v && NEWLINE !in v
  }

  predicate AllPlain(vs: seq<Bytes>) {
    forall i :: 0 <= i < |vs| ==> Plain(vs[i])
  }

  function Quoted(v: Bytes): Bytes {
    [QUOTE] + v + [QUOTE]
  }

  /** `"v1" "v2" ...`: the values of a `U` or `E` line, separated by spaces. */
  function ValuesText(vs: seq<Bytes>): Bytes
    decreases |vs|
  {
    if vs == [] then []
    else if |vs| == 1 then Quoted(vs[0])
    else Quoted(vs[0]) + ([SPACE] + ValuesText(vs[1..]))
  }

  /** `K:"key"` and its newline. */
  function KeyLine(key: Bytes): Bytes {
    [K_MARKER, COLON] + Quoted(key) + [NEWLINE]
  }

  /** `U:"u1" "u2"` or `E:"e1"`, with its newline. */
  function ValuesLine(marker: byte, vs: seq<Bytes>): Bytes {
    [marker, COLON] + (ValuesText(vs) + [NEWLINE])
  }

  /** The three lines of one identity record. */
  function Record(key: Bytes, v: Identity): Bytes {
    KeyLine(key) + (ValuesLine(U_MARKER, v.usernames) + ValuesLine(E_MARKER, v.emails))
  }

  lemma {:induction false} ValuesTextPlain(vs: seq<Bytes>)
    requires AllPlain(vs)
    ensures NEWLINE !in ValuesText(vs)
    decreases |vs|
  {
    if |vs| > 1 {
      ValuesTextPlain(vs[1..]);
    }
  }

  /** A quoted plain value at the cursor is read, then reading goes on after it. */
  lemma QuotedConsume(v: Bytes, rest: Bytes)
    requires Plain(v)
    ensures var r := QuotedValues(rest, 0);
      QuotedValues(Quoted(v) + rest, 0) == if r.Err? then r else Ok([v] + r.value)
  {
    var line := Quoted(v) + rest;
    FindAtIs(line, 1, |v| + 1, QUOTE);
    assert NextValue(line, 0) == Some((1 as nat, (|v| + 1) as nat));
    assert line[1..|v| + 1] == v;
    QuotedValuesShift(Quoted(v), rest, 0);
  }

  lemma ValuesTextHead(vs: seq<Bytes>)
    requires vs != []
    ensures |ValuesText(vs)| > 0 && ValuesText(vs)[0] == QUOTE
  {
  }

  /** A space before the next opening quote is skipped. */
  lemma SpaceSkipped(tail: Bytes)
    requires |tail| > 0 && tail[0] == QUOTE
    ensures QuotedValues([SPACE] + tail, 0) == QuotedValues(tail, 0)
  {
    SkipFiller([SPACE] + tail, 0);
    QuotedValuesShift([SPACE], tail, 0);
  }

  /** A quoted plain value, a space and the next quoted value. */
  lemma SpacedConsume(v: Bytes, tail: Bytes)
    requires Plain(v) && |tail| > 0 && tail[0] == QUOTE
    ensures var r := QuotedValues(tail, 0);
      QuotedValues(Quoted(v) + ([SPACE] + tail), 0) == if r.Err? then r else Ok([v] + r.value)
  {
    QuotedConsume(v, [SPACE] + tail);
    SpaceSkipped(tail);
  }

  lemma ConsAppend(vs: seq<Bytes>, w: seq<Bytes>)
    requires vs != []
    ensures [vs[0]] + (vs[1..] + w) == vs + w
  {
    assert vs == [vs[0]] + vs[1..];
  }

  lemma Regroup(a: Bytes, b: Bytes, c: Bytes, d: Bytes)
    ensures (a + (b + c)) + d == a + (b + (c + d))
  {
  }

  /** Values written by `ValuesText` are read back in order, then reading goes on with `rest`. */
  lemma {:induction false} ValuesTextThen(vs: seq<Bytes>, rest: Bytes)
    requires AllPlain(vs)
    ensures var r := QuotedValues(rest, 0);
      QuotedValues(ValuesText(vs) + rest, 0) == if r.Err? then r else Ok(vs + r.value)
    decreases |vs|
  {
    var r := QuotedValues(rest, 0);
    if vs == [] {
      assert ValuesText(vs) + rest == rest;
      if r.Ok? {
        assert vs + r.value == r.value;
      }
    } else {
      var v := vs[0];
      assert Plain(v);
      if |vs| == 1 {
        QuotedConsume(v, rest);
        assert ValuesText(vs) + rest == Quoted(v) + rest;
        assert [v] == vs;
      } else {
        ValuesTextThen(vs[1..], rest);
        ValuesTextHead(vs[1..]);
        var tail := ValuesText(vs[1..]) + rest;
        assert ValuesText(vs) == Quoted(v) + ([SPACE] + ValuesText(vs[1..]));
        Regroup(Quoted(v), [SPACE], ValuesText(vs[1..]), rest);
        SpacedConsume(v, tail);
        if r.Ok? {
          ConsAppend(vs, r.value);
        }
      }
    }
  }

  lemma ValuesTextParses(vs: seq<Bytes>)
    requires AllPlain(vs)
    ensures QuotedValues(ValuesText(vs) + [NEWLINE], 0) == Ok(vs)
  {
    ValuesTextThen(vs, [NEWLINE]);
    assert QuotedValues([NEWLINE], 0) == Ok([]);
    assert vs + [] == vs;
  }

  /** A `U` or `E` line written from plain values reads back as those values, in order. */
  lemma ValuesLineParses(marker: byte, vs: seq<Bytes>)
    requires AllPlain(vs) && marker != NEWLINE
    ensures IsLine(ValuesLine(marker, vs))
    ensures QuotedValues(ValuesLine(marker, vs), 2) == Ok(vs)
  {
    ValuesTextPlain(vs);
    ValuesTextParses(vs);
    QuotedValuesShift([marker, COLON], ValuesText(vs) + [NEWLINE], 0);
  }

  /** A `K` line written from a plain key reads back as that key. */
  lemma KeyLineParses(key: Bytes)
    requires Plain(key)
    ensures IsLine(KeyLine(key))
    ensures KeyOfLine(KeyLine(key)) == Ok(key)
  {
    var line := KeyLine(key);
    FindAtIs(line, 3, 3 + |key|, QUOTE);
    assert line[3..3 + |key|] == key;
  }

  /** Complete lines that scan to `st`, then more: scanning goes on from `st`. */
  lemma ThenOk(x: Bytes, y: Bytes, st0: Pending, st: Pending)
    requires WholeLines(x) && Scan(x, 0, st0) == Ok(st)
    ensures Scan(x + y, 0, st0) == Scan(y, 0, st)
  {
    ScanAppend(x, y, st0);
  }

  /** A key line pushes its key. */
  lemma KeyLineScan(key: Bytes, st: Pending)
    requires Plain(key)
    ensures WholeLines(KeyLine(key))
    ensures Scan(KeyLine(key), 0, st) == Ok(st.(keys := st.keys + [key]))
  {
    KeyLineParses(key);
    SingleLine(KeyLine(key), st);
  }

  /**
   * A `U` line and an `E` line with empty buffers: the most recently pushed key
   * is popped and bound to the usernames and emails, unless it is bound already.
   */
  lemma PairScan(v: Identity, st: Pending)
    requires AllPlain(v.usernames) && AllPlain(v.emails)
    requires st.usernames == [] && st.emails == [] && st.keys != []
    ensures var key := st.keys[|st.keys| - 1];
      Scan(ValuesLine(U_MARKER, v.usernames) + ValuesLine(E_MARKER, v.emails), 0, st)
      == if key in st.identities then Err(DuplicateKey)
         else Ok(Pending(st.keys[..|st.keys| - 1], [], [], st.identities[key := v]))
  {
    var uLine, eLine := ValuesLine(U_MARKER, v.usernames), ValuesLine(E_MARKER, v.emails);
    ValuesLineParses(U_MARKER, v.usernames);
    ValuesLineParses(E_MARKER, v.emails);
    ScanAppend(uLine, eLine, st);
    SingleLine(uLine, st);
    var st2 := st.(usernames := v.usernames);
    assert [] + v.usernames == v.usernames;
    SingleLine(eLine, st2);
    assert [] + v.emails == v.emails;
  }

  /**
   * A well-formed record binds its key to its usernames and emails, in line
   * order; a key bound before is fatal.
   */
  lemma RecordScan(key: Bytes, v: Identity, st: Pending)
    requires Plain(key) && AllPlain(v.usernames) && AllPlain(v.emails)
    requires st.usernames == [] && st.emails == []
    ensures key !in st.identities ==> Scan(Record(key, v), 0, st) == Ok(Pending(st.keys, [], [], st.identities[key := v]))
    ensures key in st.identities ==> Scan(Record(key, v), 0, st) == Err(DuplicateKey)
  {
    var st1 := st.(keys := st.keys + [key]);
    KeyLineScan(key, st);
    ThenOk(KeyLine(key), ValuesLine(U_MARKER, v.usernames) + ValuesLine(E_MARKER, v.emails), st, st1);
    PairScan(v, st1);
    assert (st.keys + [key])[..|st.keys|] == st.keys;
  }

  // ---- Whole stores ----

  datatype Entry = Entry(key: Bytes, identity: Identity)

  predicate WellFormed(entries: seq<Entry>) {
    (forall i :: 0 <= i < |entries| ==>
      Plain(entries[i].key) && AllPlain(entries[i].identity.usernames) && AllPlain(entries[i].identity.emails))
    && (forall i, j :: 0 <= i < j < |entries| ==> entries[i].key != entries[j].key)
  }

  /** A store file holding one record per entry, in order. */
  function Serialize(entries: seq<Entry>): Bytes
    decreases |entries|
  {
    if entries == [] then [] else Record(entries[0].key, entries[0].identity) + Serialize(entries[1..])
  }

  /** The map after inserting the entries in order. */
  function Bind(m: map<Bytes, Identity>, entries: seq<Entry>): map<Bytes, Identity>
    decreases |entries|
  {
    if entries == [] then m else Bind(m[entries[0].key := entries[0].identity], entries[1..])
  }

  lemma {:induction false} BindSpec(m: map<Bytes, Identity>, entries: seq<Entry>)
    requires forall i, j :: 0 <= i < j < |entries| ==> entries[i].key != entries[j].key
    ensures forall i :: 0 <= i < |entries| ==> entries[i].key in Bind(m, entries) && Bind(m, entries)[entries[i].key] == entries[i].identity
    ensures forall k :: k in Bind(m, entries) <==> k in m || exists i :: 0 <= i < |entries| && entries[i].key == k
    ensures forall k :: k in m && (forall i :: 0 <= i < |entries| ==> entries[i].key != k) ==> Bind(m, entries)[k] == m[k]
    decreases |entries|
  {
    if entries != [] {
      var e := entries[0];
      var rest := entries[1..];
      BindSpec(m[e.key := e.identity], rest);
      assert Bind(m, entries) == Bind(m[e.key := e.identity], rest);
      forall k | k in Bind(m, entries) ensures k in m || exists i :: 0 <= i < |entries| && entries[i].key == k {
        if k !in m && k != e.key {
          var i :| 0 <= i < |rest| && rest[i].key == k;
          assert entries[i + 1].key == k;
        }
      }
      forall k | k in m || exists i :: 0 <= i < |entries| && entries[i].key == k ensures k in Bind(m, entries) {
        if k !in m && k != e.key {
          var i :| 0 <= i < |entries| && entries[i].key == k;
          assert rest[i - 1].key == k;
        }
      }
      forall i | 0 <= i < |entries| ensures entries[i].key in Bind(m, entries) && Bind(m, entries)[entries[i].key] == entries[i].identity {
        if i > 0 {
          assert rest[i - 1] == entries[i];
        }
      }
      forall k | k in m && (forall i :: 0 <= i < |entries| ==> entries[i].key != k) ensures Bind(m, entries)[k] == m[k] {
        assert entries[0].key != k;
        assert forall i :: 0 <= i < |rest| ==> rest[i] == entries[i + 1];
      }
    }
  }

  lemma RecordWholeLines(key: Bytes, v: Identity)
    ensures WholeLines(Record(key, v))
  {
    var e := ValuesLine(E_MARKER, v.emails);
    assert e[|e| - 1] == NEWLINE;
    var r := Record(key, v);
    assert r[|r| - 1] == e[|e| - 1];
  }

  lemma {:induction false} SerializeWholeLines(entries: seq<Entry>)
    ensures WholeLines(Serialize(entries))
    decreases |entries|
  {
    if entries != [] {
      var r := Record(entries[0].key, entries[0].identity);
      RecordWholeLines(entries[0].key, entries[0].identity);
      SerializeWholeLines(entries[1..]);
      var t := Serialize(entries[1..]);
      if t != [] {
        assert (r + t)[|r + t| - 1] == t[|t| - 1];
      } else {
        assert r + t == r;
      }
    }
  }

  lemma {:induction false} SerializeScan(entries: seq<Entry>, st: Pending)
    requires WellFormed(entries)
    requires st.usernames == [] && st.emails == []
    requires forall i :: 0 <= i < |entries| ==> entries[i].key !in st.identities
    ensures Scan(Serialize(entries), 0, st) == Ok(Pending(st.keys, [], [], Bind(st.identities, entries)))
    decreases |entries|
  {
    if entries == [] {
      assert Serialize(entries) == [];
    } else {
      var e := entries[0];
      var rest := entries[1..];
      RecordScan(e.key, e.identity, st);
      var st1 := Pending(st.keys, [], [], st.identities[e.key := e.identity]);
      assert WellFormed(rest) by {
        assert forall i :: 0 <= i < |rest| ==> rest[i] == entries[i + 1];
      }
      assert forall i :: 0 <= i < |rest| ==> rest[i].key !in st1.identities by {
        assert forall i :: 0 <= i < |rest| ==> rest[i] == entries[i + 1];
      }
      SerializeScan(rest, st1);
      RecordWholeLines(e.key, e.identity);
      ScanAppend(Record(e.key, e.identity), Serialize(rest), st);
    }
  }

  /**
   * Round trip: a store written record by record from distinct plain entries
   * parses to exactly those entries.
   */
  lemma StoreRoundTrip(entries: seq<Entry>)
    requires WellFormed(entries)
    ensures ParseStore(Serialize(entries)).Ok?
    ensures var m := ParseStore(Serialize(entries)).value;
      (forall i :: 0 <= i < |entries| ==> entries[i].key in m && m[entries[i].key] == entries[i].identity)
      && (forall k :: k in m ==> exists i :: 0 <= i < |entries| && entries[i].key == k)
  {
    assert ParseStore(Serialize(entries)) == Ok(Bind(map[], entries)) by {
      SerializeScan(entries, Start);
    }
    BindSpec(map[], entries);
  }

  lemma {:induction false} BindKeeps(m: map<Bytes, Identity>, entries: seq<Entry>, k: Bytes)
    requires k in m
    ensures k in Bind(m, entries)
    decreases |entries|
  {
    if entries != [] {
      BindKeeps(m[entries[0].key := entries[0].identity], entries[1..], k);
    }
  }

  lemma {:induction false} BindHas(m: map<Bytes, Identity>, entries: seq<Entry>, i: nat)
    requires i < |entries|
    ensures entries[i].key in Bind(m, entries)
    decreases i
  {
    var m' := m[entries[0].key := entries[0].identity];
    if i == 0 {
      BindKeeps(m', entries[1..], entries[0].key);
    } else {
      BindHas(m', entries[1..], i - 1);
    }
  }

  /** Complete lines that scan to `st`, then lines that fail from `st`: the whole scan fails alike. */
  lemma ThenFatal(x: Bytes, y: Bytes, after: Bytes, st0: Pending, st: Pending)
    requires WholeLines(x) && WholeLines(y)
    requires Scan(x, 0, st0) == Ok(st) && Scan(y, 0, st).Err?
    ensures Scan(x + y + after, 0, st0) == Scan(y, 0, st)
  {
    ScanAppend(y, after, st);
    ScanAppend(x, y + after, st0);
    assert x + y + after == x + (y + after);
  }

  /** A second record under a key already written makes the whole parse fatal. */
  lemma DuplicateKeyFatal(entries: seq<Entry>, i: nat, v: Identity, after: Bytes)
    requires WellFormed(entries) && i < |entries|
    requires AllPlain(v.usernames) && AllPlain(v.emails)
    ensures ParseStore(Serialize(entries) + Record(entries[i].key, v) + after) == Err(DuplicateKey)
  {
    var key := entries[i].key;
    SerializeScan(entries, Start);
    SerializeWholeLines(entries);
    BindHas(map[], entries, i);
    var st := Pending([], [], [], Bind(map[], entries));
    RecordScan(key, v, st);
    RecordWholeLines(key, v);
    ThenFatal(Serialize(entries), Record(key, v), after, Start, st);
  }

  // ---- Malformed lines ----

  /** Bytes up to the newline with no quote in them: nothing more can be read. */
  lemma NoQuoteLeft(filler: Bytes)
    requires |filler| > 0 && QUOTE !in filler && NEWLINE !in filler
    ensures QuotedValues(filler + [NEWLINE], 0) == Err(IndexOutOfBounds)
  {
    var line := filler + [NEWLINE];
    FindAtFirst(line, 0, QUOTE);
  }

  /** A value line whose values cannot be read: the line is fatal, whatever the state. */
  lemma ValueLineFails(st: Pending, marker: byte, body: Bytes)
    requires marker == U_MARKER || marker == E_MARKER
    requires EndsLine(body) && QuotedValues(body, 0).Err?
    ensures Step(st, [marker, COLON] + body) == Err(QuotedValues(body, 0).error)
  {
    QuotedValuesShift([marker, COLON], body, 0);
  }

  /** A value line whose last quote is never closed is fatal. */
  lemma UnclosedValueFatal(st: Pending, marker: byte, vs: seq<Bytes>, v: Bytes)
    requires marker == U_MARKER || marker == E_MARKER
    requires AllPlain(vs) && Plain(v)
    ensures Step(st, [marker, COLON] + (ValuesText(vs) + ([QUOTE] + v + [NEWLINE]))) == Err(IndexOutOfBounds)
  {
    var rest := [QUOTE] + v + [NEWLINE];
    FindAtFirst(rest, 1, QUOTE);
    assert QuotedValues(rest, 0) == Err(IndexOutOfBounds);
    ValuesTextThen(vs, rest);
    ValueLineFails(st, marker, ValuesText(vs) + rest);
  }

  /**
   * Anything but a newline after the last closing quote of a value line (a
   * trailing space, say) sends the reader past the newline: fatal.
   */
  lemma TrailingFillerFatal(st: Pending, marker: byte, vs: seq<Bytes>, filler: Bytes)
    requires marker == U_MARKER || marker == E_MARKER
    requires AllPlain(vs)
    requires |filler| > 0 && QUOTE !in filler && NEWLINE !in filler
    ensures Step(st, [marker, COLON] + (ValuesText(vs) + (filler + [NEWLINE]))) == Err(IndexOutOfBounds)
  {
    NoQuoteLeft(filler);
    ValuesTextThen(vs, filler + [NEWLINE]);
    ValueLineFails(st, marker, ValuesText(vs) + (filler + [NEWLINE]));
  }

  /** A key line whose quote is never closed is fatal. */
  lemma UnclosedKeyFatal(st: Pending, key: Bytes)
    requires Plain(key)
    ensures Step(st, [K_MARKER, COLON, QUOTE] + key + [NEWLINE]) == Err(IndexOutOfBounds)
  {
    FindAtFirst([K_MARKER, COLON, QUOTE] + key + [NEWLINE], 3, QUOTE);
  }

  // ---- The key stack and the identity buffer ----

  /** Usernames from consecutive `U` lines accumulate, in order. */
  lemma UsernameLinesAccumulate(st: Pending, us1: seq<Bytes>, us2: seq<Bytes>)
    requires AllPlain(us1) && AllPlain(us2)
    ensures Scan(ValuesLine(U_MARKER, us1) + ValuesLine(U_MARKER, us2), 0, st)
      == Ok(st.(usernames := st.usernames + us1 + us2))
  {
    var x, y := ValuesLine(U_MARKER, us1), ValuesLine(U_MARKER, us2);
    ValuesLineParses(U_MARKER, us1);
    ValuesLineParses(U_MARKER, us2);
    ScanAppend(x, y, st);
    SingleLine(x, st);
    SingleLine(y, st.(usernames := st.usernames + us1));
  }

  /**
   * An `E` line with no key waiting closes nothing: its values and the
   * usernames before it are dropped, and parsing goes on as if neither line
   * were there.
   */
  lemma OrphanLinesDropped(us: seq<Bytes>, es: seq<Bytes>, rest: Bytes)
    requires AllPlain(us) && AllPlain(es)
    ensures ParseStore(ValuesLine(U_MARKER, us) + ValuesLine(E_MARKER, es) + rest) == ParseStore(rest)
  {
    var x, y := ValuesLine(U_MARKER, us), ValuesLine(E_MARKER, es);
    ValuesLineParses(U_MARKER, us);
    ValuesLineParses(E_MARKER, es);
    ScanAppend(x, y, Start);
    SingleLine(x, Start);
    SingleLine(y, Start.(usernames := [] + us));
    assert Scan(x + y, 0, Start) == Ok(Start);
    assert (x + y)[|x + y| - 1] == y[|y| - 1];
    ScanAppend(x + y, rest, Start);
  }

  /**
   * Keys are a stack: a record nested after a key line takes the inner key,
   * and the `U`/`E` pair after it goes to the outer key.
   */
  lemma NestedRecord(outer: Bytes, inner: Bytes, vo: Identity, vi: Identity)
    requires outer != inner && Plain(outer) && Plain(inner)
    requires AllPlain(vo.usernames) && AllPlain(vo.emails) && AllPlain(vi.usernames) && AllPlain(vi.emails)
    ensures ParseStore(KeyLine(outer) + Record(inner, vi)
      + (ValuesLine(U_MARKER, vo.usernames) + ValuesLine(E_MARKER, vo.emails)))
      == Ok(map[inner := vi, outer := vo])
  {
    var k, r := KeyLine(outer), Record(inner, vi);
    var ue := ValuesLine(U_MARKER, vo.usernames) + ValuesLine(E_MARKER, vo.emails);
    var st1 := Start.(keys := [outer]);
    KeyLineScan(outer, Start);
    assert Start.keys + [outer] == [outer];
    ThenOk(k, r + ue, Start, st1);
    RecordScan(inner, vi, st1);
    RecordWholeLines(inner, vi);
    var st2 := Pending([outer], [], [], map[inner := vi]);
    ThenOk(r, ue, st1, st2);
    PairScan(vo, st2);
    assert k + r + ue == k + (r + ue);
  }

  // ---- Everything parsed comes from the input ----

  /** A byte string that occurs in `m` and holds no quote. */
  predicate Drawn(v: Bytes, m: Bytes) {
    QUOTE !in v && SliceOf(v, m)
  }

  predicate AllDrawn(vs: seq<Bytes>, m: Bytes) {
    forall v :: v in vs ==> Drawn(v, m)
  }

  predicate StateDrawn(st: Pending, m: Bytes) {
    AllDrawn(st.keys, m) && AllDrawn(st.usernames, m) && AllDrawn(st.emails, m)
    && forall k :: k in st.identities ==>
      Drawn(k, m) && AllDrawn(st.identities[k].usernames, m) && AllDrawn(st.identities[k].emails, m)
  }

  lemma SliceWithin(v: Bytes, m: Bytes, s: nat, n: nat)
    requires s + n <= |m| && SliceOf(v, m[s..s + n])
    ensures SliceOf(v, m)
  {
    var line := m[s..s + n];
    var i: nat :| i + |v| <= |line| && Window(line, i, |v|) == v;
    assert forall j :: 0 <= j < |v| ==> v[j] == line[i + j] == m[s + i + j];
    assert Window(m, s + i, |v|) == v;
  }

  lemma StepDrawn(st: Pending, m: Bytes, s: nat, n: nat)
    requires s + n <= |m| && EndsLine(m[s..s + n])
    requires StateDrawn(st, m) && Step(st, m[s..s + n]).Ok?
    ensures StateDrawn(Step(st, m[s..s + n]).value, m)
  {
    var line := m[s..s + n];
    var marker := line[0];
    if marker == K_MARKER {
      KeyOfLineSpec(line);
      var key := KeyOfLine(line).value;
      assert Window(line, 3, |key|) == key;
      SliceWithin(key, m, s, n);
    } else if marker == U_MARKER || marker == E_MARKER {
      QuotedValuesAreSlices(line, 2);
      forall v | v in QuotedValues(line, 2).value ensures SliceOf(v, m) {
        SliceWithin(v, m, s, n);
      }
    }
  }

  lemma {:induction false} ScanDrawn(m: Bytes, s: nat, st: Pending)
    requires StateDrawn(st, m) && Scan(m, s, st).Ok?
    ensures StateDrawn(Scan(m, s, st).value, m)
    decreases |m| - s
  {
    var p := FindAt(m, s, NEWLINE);
    if p.Some? {
      StepDrawn(st, m, s, p.value + 1 - s);
      ScanDrawn(m, p.value + 1, Step(st, m[s..p.value + 1]).value);
    }
  }

  /**
   * Every key, username and email of a parsed store is a run of bytes of the
   * store itself (the Rust map borrows from the mapped file) and holds no quote.
   */
  lemma ParsedFromInput(m: Bytes)
    requires ParseStore(m).Ok?
    ensures forall k :: k in ParseStore(m).value ==>
      Drawn(k, m) && AllDrawn(ParseStore(m).value[k].usernames, m) && AllDrawn(ParseStore(m).value[k].emails, m)
  {
    ScanDrawn(m, 0, Start);
  }
}
