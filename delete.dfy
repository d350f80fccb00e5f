/**
 * `sigrs delete`: the store file is read as text, split into lines, and
 * written back without the three-line record(s) whose key names the identity.
 * Comment lines and the other records are kept verbatim; any other line is
 * dropped. The file is rewritten only when some record matched.
 */
module StoreDelete {
  import opened Common
  import ConfigPath

  predicate StartsWith(s: string, prefix: string) {
    |prefix| <= |s| && s[..|prefix|] == prefix
  }

  // ---- `str::lines` ----

  /** The first `'\n'` at or after `from`. */
  function NewlineAt(s: string, from: nat): (r: Option<nat>)
    ensures r.Some? ==> from <= r.value < |s| && s[r.value] == '\n'
    ensures r.Some? ==> forall i :: from <= i < r.value ==> s[i] != '\n'
    ensures r.None? ==> forall i :: from <= i < |s| ==> s[i] != '\n'
    decreases |s| - from
  {
    if from >= |s| then None else if s[from] == '\n' then Some(from) else NewlineAt(s, from + 1)
  }

  predicate EndsWithCr(l: string) {
    |l| > 0 && l[|l| - 1] == '\r'
  }

  /** A line ending may be `"\r\n"`: one carriage return before the newline is dropped. */
  function StripCr(l: string): (r: string)
    ensures EndsWithCr(l) ==> l == r + "\r"
    ensures !EndsWithCr(l) ==> r == l
  {
    if EndsWithCr(l) then l[..|l| - 1] else l
  }

  /**
   * Rust's `str::lines`: pieces split at `'\n'`, each stripped of one trailing
   * `'\r'` if it had a newline; a final newline does not start an empty line.
   */
  function Lines(s: string): seq<string>
    decreases |s|
  {
    if s == [] then []
    else
      var p := NewlineAt(s, 0);
      if p.None? then [s] else [StripCr(s[..p.value])] + Lines(s[p.value + 1..])
  }

  /** Each line followed by a newline: the text `Lines` splits. */
  function Unlines(ls: seq<string>): (r: string)
    ensures ls != [] ==> |r| > 0 && r[|r| - 1] == '\n'
  {
    if ls == [] then "" else ls[0] + "\n" + Unlines(ls[1..])
  }

  /** A line as `str::lines` can return it unchanged after it is written back. */
  predicate Clean(l: string) {
    '\n' !in l && !EndsWithCr(l)
  }

  predicate AllClean(ls: seq<string>) {
    forall i :: 0 <= i < |ls| ==> Clean(ls[i])
  }

  /** Round trip: lines written with newlines split back into the same lines. */
  lemma {:induction false} LinesOfUnlines(ls: seq<string>)
    requires AllClean(ls)
    ensures Lines(Unlines(ls)) == ls
  {
    if ls != [] {
      var l, s := ls[0], Unlines(ls);
      assert Clean(l);
      assert s == l + ("\n" + Unlines(ls[1..]));
      assert s[|l|] == '\n';
      assert forall i :: 0 <= i < |l| ==> s[i] == l[i] && l[i] != '\n';
      assert NewlineAt(s, 0) == Some(|l|);
      assert s[..|l|] == l;
      assert s[|l| + 1..] == Unlines(ls[1..]);
      LinesOfUnlines(ls[1..]);
    }
  }

  /** No line `Lines` returns holds a newline. */
  lemma {:induction false} LinesHaveNoNewline(s: string)
    ensures forall i :: 0 <= i < |Lines(s)| ==> '\n' !in Lines(s)[i]
    decreases |s|
  {
    if s != [] {
      var p := NewlineAt(s, 0);
      if p.Some? {
        LinesHaveNoNewline(s[p.value + 1..]);
        assert forall j :: 0 <= j < p.value ==> s[..p.value][j] == s[j];
      }
    }
  }

  // ---- Key comparison ----

  /** The characters `trim_matches(&['K', ':', '"'])` strips. */
  predicate Trimmable(c: char) {
    c == 'K' || c == ':' || c == '"'
  }

  /** The first index at or after `i` whose character is kept, or `|s|`. */
  function FirstKept(s: string, i: nat): (r: nat)
    requires i <= |s|
    ensures i <= r <= |s|
    decreases |s| - i
  {
    if i < |s| && Trimmable(s[i]) then FirstKept(s, i + 1) else i
  }

  /** One past the last index below `j`, and at or after `lo`, whose character is kept; or `lo`. */
  function EndKept(s: string, lo: nat, j: nat): (r: nat)
    requires lo <= j <= |s|
    ensures lo <= r <= j
    decreases j - lo
  {
    if j > lo && Trimmable(s[j - 1]) then EndKept(s, lo, j - 1) else j
  }

  /** `line.trim_matches(&['K', ':', '"'])`: the key a `K:` line is compared by. */
  function TrimKey(line: string): string {
    var a := FirstKept(line, 0);
    line[a..EndKept(line, a, |line|)]
  }

  lemma {:induction false} FirstKeptSpec(s: string, i: nat)
    requires i <= |s|
    ensures forall k :: i <= k < FirstKept(s, i) ==> Trimmable(s[k])
    ensures FirstKept(s, i) < |s| ==> !Trimmable(s[FirstKept(s, i)])
    decreases |s| - i
  {
    if i < |s| && Trimmable(s[i]) {
      FirstKeptSpec(s, i + 1);
    }
  }

  lemma {:induction false} EndKeptSpec(s: string, lo: nat, j: nat)
    requires lo <= j <= |s|
    ensures forall k :: EndKept(s, lo, j) <= k < j ==> Trimmable(s[k])
    ensures EndKept(s, lo, j) > lo ==> !Trimmable(s[EndKept(s, lo, j) - 1])
    decreases j - lo
  {
    if j > lo && Trimmable(s[j - 1]) {
      EndKeptSpec(s, lo, j - 1);
    }
  }

  /**
   * The trimmed key is the run of the line left between a trimmable prefix and
   * a trimmable suffix, and it begins and ends with a kept character.
   */
  lemma TrimKeySpec(line: string)
    ensures var a := FirstKept(line, 0); var b := EndKept(line, a, |line|);
      TrimKey(line) == line[a..b]
      && (forall i :: 0 <= i < a ==> Trimmable(line[i]))
      && (forall i :: b <= i < |line| ==> Trimmable(line[i]))
      && (a < b ==> !Trimmable(line[a]) && !Trimmable(line[b - 1]))
  {
    FirstKeptSpec(line, 0);
    EndKeptSpec(line, FirstKept(line, 0), |line|);
  }

  /** The key written as `K:"key"` compares as itself when it starts and ends with a kept character. */
  lemma TrimQuotedKey(key: string)
    requires key == [] || (!Trimmable(key[0]) && !Trimmable(key[|key| - 1]))
    ensures TrimKey("K:\"" + key + "\"") == key
  {
    var line := "K:\"" + key + "\"";
    var n := |line|;
    assert line[0] == 'K' && line[1] == ':' && line[2] == '"';
    assert FirstKept(line, 0) == FirstKept(line, 1) == FirstKept(line, 2) == FirstKept(line, 3);
    if key == [] {
      assert FirstKept(line, 3) == FirstKept(line, 4) == 4;
    } else {
      assert line[3] == key[0];
      assert FirstKept(line, 3) == 3;
      assert line[n - 2] == key[|key| - 1];
      assert EndKept(line, 3, n) == EndKept(line, 3, n - 1) == n - 1;
      assert line[3..n - 1] == key;
    }
  }

  /** A stored key that begins with `K` loses it: `K:"Kate"` compares as `ate`. */
  lemma KateComparesAsAte()
    ensures TrimKey("K:\"Kate\"") == "ate"
  {
    var line := "K:\"Kate\"";
    assert FirstKept(line, 0) == 4;
    assert EndKept(line, 4, 8) == 7;
    assert line[4..7] == "ate";
  }

  // ---- The rewrite loop ----

  /** What the loop has produced: the new text and whether a record matched; or a panic. */
  datatype Pass = Pass(out: string, found: bool) | Broken

  /** `text` emitted before the rest of the pass. */
  function Emit(text: string, p: Pass): (r: Pass)
    ensures r.Broken? <==> p.Broken?
    ensures r.Pass? ==> r.found == p.found && |r.out| == |text| + |p.out|
  {
    if p.Broken? then p else Pass(text + p.out, p.found)
  }

  /** A pass done so far followed by the rest of the lines. */
  function Join(done: Pass, rest: Pass): Pass {
    if done.Broken? || rest.Broken? then Broken
    else Pass(done.out + rest.out, done.found || rest.found)
  }

  /** The three lines of a kept record, each followed by a newline. */
  function RecordText(keyLine: string, usernameLine: string, emailLine: string): string {
    keyLine + "\n" + usernameLine + "\n" + emailLine + "\n"
  }

  /** The `while let` loop of `handle_delete` from line `i` on. */
  function RewriteFrom(lines: seq<string>, i: nat, identity: string): Pass
    decreases |lines| - i
  {
    if i >= |lines| then Pass("", false)
    else
      var line := lines[i];
      if StartsWith(line, "#") then Emit(line + "\n", RewriteFrom(lines, i + 1, identity))
      else if StartsWith(line, "K:") then
        if i + 2 >= |lines| then Broken
        else if TrimKey(line) != identity then
          Emit(RecordText(line, lines[i + 1], lines[i + 2]), RewriteFrom(lines, i + 3, identity))
        else
          var rest := RewriteFrom(lines, i + 3, identity);
          if rest.Broken? then rest else Pass(rest.out, true)
      else RewriteFrom(lines, i + 1, identity)
  }

  lemma JoinEmit(done: Pass, text: string, rest: Pass)
    requires done.Pass?
    ensures Join(done, Emit(text, rest)) == Join(Pass(done.out + text, done.found), rest)
  {
    if rest.Pass? {
      assert done.out + (text + rest.out) == done.out + text + rest.out;
    }
  }

  /** One turn of the loop that emits `text` and moves on to line `next`. */
  lemma EmitStep(lines: seq<string>, i: nat, next: nat, identity: string, done: Pass, text: string)
    requires done.Pass? && i < next
    requires RewriteFrom(lines, i, identity) == Emit(text, RewriteFrom(lines, next, identity))
    ensures Join(done, RewriteFrom(lines, i, identity)) == Join(Pass(done.out + text, done.found), RewriteFrom(lines, next, identity))
  {
    JoinEmit(done, text, RewriteFrom(lines, next, identity));
  }

  /** One turn of the loop that drops a matching record. */
  lemma DropStep(lines: seq<string>, i: nat, identity: string, done: Pass)
    requires done.Pass? && i + 2 < |lines| && StartsWith(lines[i], "K:") && !StartsWith(lines[i], "#")
    requires TrimKey(lines[i]) == identity
    ensures Join(done, RewriteFrom(lines, i, identity)) == Join(Pass(done.out, true), RewriteFrom(lines, i + 3, identity))
  {
  }

  /** One turn of the loop: the line at `i`, and the two after it for a `K:` line. */
  method Turn(lines: seq<string>, i: nat, identity: string, out: string, found: bool)
    returns (out': string, found': bool, i': nat, broken: bool)
    requires i < |lines|
    ensures !broken ==> i < i' <= |lines|
    ensures Join(Pass(out, found), RewriteFrom(lines, i, identity))
      == if broken then Broken else Join(Pass(out', found'), RewriteFrom(lines, i', identity))
  {
    out', found', i', broken := out, found, i + 1, false;
    var line := lines[i];
    if StartsWith(line, "#") {
      EmitStep(lines, i, i + 1, identity, Pass(out, found), line + "\n");
      out' := out + line + "\n";
    } else if StartsWith(line, "K:") {
      if i + 2 >= |lines| {
        broken := true;
        return;
      }
      var usernameLine, emailLine := lines[i + 1], lines[i + 2];
      if TrimKey(line) != identity {
        var text := RecordText(line, usernameLine, emailLine);
        EmitStep(lines, i, i + 3, identity, Pass(out, found), text);
        out' := out + text;
      } else {
        DropStep(lines, i, identity, Pass(out, found));
        found' := true;
      }
      i' := i + 3;
    }
  }

  /** The rewrite loop over the lines of the store, as `handle_delete` runs it. */
  method RewriteLines(lines: seq<string>, identity: string) returns (out: string, found: bool, broken: bool)
    ensures broken <==> RewriteFrom(lines, 0, identity).Broken?
    ensures !broken ==> RewriteFrom(lines, 0, identity) == Pass(out, found)
  {
    out, found, broken := "", false, false;
    var i: nat := 0;
    assert Join(Pass("", false), RewriteFrom(lines, 0, identity)) == RewriteFrom(lines, 0, identity);
    while i < |lines|
      invariant i <= |lines|
      invariant RewriteFrom(lines, 0, identity) == Join(Pass(out, found), RewriteFrom(lines, i, identity))
      decreases |lines| - i
    {
      out, found, i, broken := Turn(lines, i, identity, out, found);
      if broken {
        return;
      }
    }
    assert out + "" == out;
  }

  // ---- The store as the loop sees it ----

  /** A unit of the store for the rewrite: one comment line, one three-line record, or one other line. */
  datatype Item =
    | Comment(line: string)
    | Record(keyLine: string, usernameLine: string, emailLine: string)
    | Stray(line: string)

  function Cons(it: Item, rest: Option<seq<Item>>): Option<seq<Item>> {
    if rest.None? then None else Some([it] + rest.value)
  }

  /** The items of `lines` from line `i`; `None` when a `K:` line lacks its two following lines. */
  function ItemsFrom(lines: seq<string>, i: nat): Option<seq<Item>>
    decreases |lines| - i
  {
    if i >= |lines| then Some([])
    else
      var line := lines[i];
      if StartsWith(line, "#") then Cons(Comment(line), ItemsFrom(lines, i + 1))
      else if StartsWith(line, "K:") then
        if i + 2 >= |lines| then None
        else Cons(Record(line, lines[i + 1], lines[i + 2]), ItemsFrom(lines, i + 3))
      else Cons(Stray(line), ItemsFrom(lines, i + 1))
  }

  /** Whether `it` survives a delete of `identity`: comments and records under other keys do. */
  predicate Keeps(it: Item, identity: string) {
    it.Comment? || (it.Record? && TrimKey(it.keyLine) != identity)
  }

  predicate Hit(it: Item, identity: string) {
    it.Record? && TrimKey(it.keyLine) == identity
  }

  function Kept(items: seq<Item>, identity: string): (r: seq<Item>)
    ensures forall j :: 0 <= j < |r| ==> Keeps(r[j], identity)
    ensures |r| <= |items|
  {
    if items == [] then []
    else if Keeps(items[0], identity) then [items[0]] + Kept(items[1..], identity)
    else Kept(items[1..], identity)
  }

  predicate Matches(items: seq<Item>, identity: string) {
    exists j :: 0 <= j < |items| && Hit(items[j], identity)
  }

  /** The lines an item occupies once written. */
  function ItemLines(it: Item): seq<string> {
    match it
    case Comment(l) => [l]
    case Record(k, u, e) => [k, u, e]
    case Stray(_) => []
  }

  function AllItemLines(items: seq<Item>): seq<string> {
    if items == [] then [] else ItemLines(items[0]) + AllItemLines(items[1..])
  }

  function ItemText(it: Item): string {
    match it
    case Comment(l) => l + "\n"
    case Record(k, u, e) => RecordText(k, u, e)
    case Stray(_) => ""
  }

  function Render(items: seq<Item>): string {
    if items == [] then "" else ItemText(items[0]) + Render(items[1..])
  }

  lemma MatchesCons(it: Item, rest: seq<Item>, identity: string)
    ensures Matches([it] + rest, identity) <==> Hit(it, identity) || Matches(rest, identity)
  {
    var all := [it] + rest;
    if Hit(it, identity) {
      assert all[0] == it;
    }
    if Matches(rest, identity) {
      var j :| 0 <= j < |rest| && Hit(rest[j], identity);
      assert all[j + 1] == rest[j];
    }
    if Matches(all, identity) && !Hit(it, identity) {
      var j :| 0 <= j < |all| && Hit(all[j], identity);
      assert rest[j - 1] == all[j];
    }
  }

  /**
   * The loop against the reference: it panics exactly when the items cannot be
   * formed, and otherwise writes the kept items and reports whether any record
   * matched.
   */
  lemma {:induction false} RewriteIsFilter(lines: seq<string>, i: nat, identity: string)
    ensures RewriteFrom(lines, i, identity).Broken? <==> ItemsFrom(lines, i).None?
    ensures ItemsFrom(lines, i).Some? ==> var items := ItemsFrom(lines, i).value;
      RewriteFrom(lines, i, identity) == Pass(Render(Kept(items, identity)), Matches(items, identity))
    decreases |lines| - i
  {
    if i < |lines| {
      var line := lines[i];
      var next := if StartsWith(line, "#") || !StartsWith(line, "K:") then i + 1 else i + 3;
      if !(StartsWith(line, "K:") && !StartsWith(line, "#") && i + 2 >= |lines|) {
        RewriteIsFilter(lines, next, identity);
        var it := if StartsWith(line, "#") then Comment(line)
          else if StartsWith(line, "K:") then Record(line, lines[i + 1], lines[i + 2])
          else Stray(line);
        assert ItemsFrom(lines, i) == Cons(it, ItemsFrom(lines, next));
        if ItemsFrom(lines, next).Some? {
          var rest := ItemsFrom(lines, next).value;
          var all := [it] + rest;
          assert all[0] == it && all[1..] == rest;
          MatchesCons(it, rest, identity);
          if Keeps(it, identity) {
            assert Kept(all, identity) == [it] + Kept(rest, identity);
            var kept := [it] + Kept(rest, identity);
            assert kept[0] == it && kept[1..] == Kept(rest, identity);
            assert Render(kept) == ItemText(it) + Render(Kept(rest, identity));
          }
        }
      }
    }
  }

  /** How `handle_delete` ends once the store file is open. */
  datatype DeleteOutcome =
    | Rewritten(content: string)   // the file now holds `content`
    | Refused(message: string)     // an `Err` return; the file is untouched
    | Panicked                     // `unwrap` on unreadable text or a missing line, or `assert!` on an empty file

  const NOT_FOUND := "Identity does not exist"
  const IDENTITY_REQUIRED := "--identity required"

  /** `handle_delete` on the text of the store file. */
  function DeleteResult(content: string, identity: string): DeleteOutcome {
    if content == "" then Panicked
    else
      var p := RewriteFrom(Lines(content), 0, identity);
      if p.Broken? then Panicked
      else if !p.found then Refused(NOT_FOUND)
      else Rewritten(p.out)
  }

  /** The message for a store file that cannot be opened, with the `Debug` text of the error. */
  function OpenFailed(debug: string): string {
    "Problem opening config file: " + debug
  }

  /** The store file; `handle_delete` truncates it and writes the new text when a record matched. */
  class StoreFile {
    /** What `read_to_string` finds in the file: its text, or `None` when its bytes are not UTF-8. */
    var text: Option<string>

    constructor(text: Option<string>)
      ensures this.text == text
    {
      this.text := text;
    }

    /**
     * `handle_delete`: `configPath` and `configDir` are what `--config-path`
     * and `dirs::config_dir()` give `extract_config_path`, and `openError` the
     * `Debug` text of a failed `open`, if it failed.
     */
    method HandleDelete(identity: Option<string>, configPath: Option<Bytes>, configDir: Option<Bytes>,
                        openError: Option<string>) returns (r: DeleteOutcome)
      modifies this
      ensures identity.None? ==> r == Refused(IDENTITY_REQUIRED)
      ensures identity.Some? && ConfigPath.ExtractConfigPath(configPath, configDir).Err? ==>
        r == Refused(ConfigPath.ExtractConfigPath(configPath, configDir).error)
      ensures identity.Some? && ConfigPath.ExtractConfigPath(configPath, configDir).Ok? && openError.Some? ==>
        r == Refused(OpenFailed(openError.value))
      ensures identity.Some? && ConfigPath.ExtractConfigPath(configPath, configDir).Ok? && openError.None? ==>
        r == if old(text).None? then Panicked else DeleteResult(old(text).value, identity.value)
      ensures if r.Rewritten? then text == Some(r.content) else text == old(text)
    {
      if identity.None? {
        return Refused(IDENTITY_REQUIRED);
      }
      var path := ConfigPath.ExtractConfigPath(configPath, configDir);
      if path.Err? {
        return Refused(path.error);
      }
      if openError.Some? {
        return Refused(OpenFailed(openError.value));
      }
      // read_to_string(..).unwrap()
      if text.None? {
        return Panicked;
      }
      var content := text.value;
      // assert!(!file_content.is_empty())
      if content == "" {
        return Panicked;
      }
      var out, found, broken := RewriteLines(Lines(content), identity.value);
      if broken {
        return Panicked;
      }
      if !found {
        return Refused(NOT_FOUND);
      }
      text := Some(out);
      r := Rewritten(out);
    }
  }

  // ---- What a delete does ----

  /** `handle_delete` against the reference: the outcome for every content and identity. */
  lemma DeleteSpec(content: string, identity: string)
    ensures DeleteResult(content, identity) ==
      if content == "" then Panicked
      else
        var items := ItemsFrom(Lines(content), 0);
        if items.None? then Panicked
        else if Matches(items.value, identity) then Rewritten(Render(Kept(items.value, identity)))
        else Refused(NOT_FOUND)
  {
    RewriteIsFilter(Lines(content), 0, identity);
  }

  /** Every comment and every record under another key is kept; nothing else is. */
  lemma {:induction false} KeptSpec(items: seq<Item>, identity: string)
    ensures forall j :: 0 <= j < |items| && Keeps(items[j], identity) ==> items[j] in Kept(items, identity)
    ensures forall it :: it in Kept(items, identity) ==> it in items && Keeps(it, identity)
    ensures !Matches(Kept(items, identity), identity)
  {
    if items != [] {
      var rest := items[1..];
      KeptSpec(rest, identity);
      forall j | 0 <= j < |items| && Keeps(items[j], identity) ensures items[j] in Kept(items, identity) {
        if j > 0 {
          assert items[j] == rest[j - 1];
        }
      }
    }
  }

  lemma Regroup(x: string, y: string, z: string)
    ensures x + (y + z) == x + y + z
  {
  }

  lemma {:induction false} UnlinesAppend(a: seq<string>, b: seq<string>)
    ensures Unlines(a + b) == Unlines(a) + Unlines(b)
  {
    if a == [] {
      assert a + b == b;
    } else {
      UnlinesAppend(a[1..], b);
      assert (a + b)[0] == a[0] && (a + b)[1..] == a[1..] + b;
      Regroup(a[0] + "\n", Unlines(a[1..]), Unlines(b));
    }
  }

  lemma RecordTextLines(k: string, u: string, e: string)
    ensures RecordText(k, u, e) == Unlines([k, u, e])
  {
    assert [k, u, e][1..] == [u, e] && [u, e][1..] == [e] && [e][1..] == [];
    assert Unlines([e]) == e + "\n";
    assert Unlines([u, e]) == u + "\n" + (e + "\n");
    Regroup(u + "\n", e, "\n");
    Regroup(k + "\n", u + "\n" + e, "\n");
    Regroup(k + "\n", u + "\n", e);
    Regroup(k + "\n", u, "\n");
  }

  /** What is written is the kept items' lines, each followed by a newline. */
  lemma {:induction false} RenderIsUnlines(items: seq<Item>)
    ensures Render(items) == Unlines(AllItemLines(items))
  {
    if items != [] {
      var it := items[0];
      RenderIsUnlines(items[1..]);
      UnlinesAppend(ItemLines(it), AllItemLines(items[1..]));
      match it
      case Comment(l) =>
        assert Unlines([l]) == l + "\n" + "";
      case Record(k, u, e) =>
        RecordTextLines(k, u, e);
      case Stray(_) =>
    }
  }

  /** The items a parse can produce: comments begin with `#`, record key lines with `K:`. */
  predicate Shaped(it: Item) {
    match it
    case Comment(l) => StartsWith(l, "#")
    case Record(k, _, _) => StartsWith(k, "K:") && !StartsWith(k, "#")
    case Stray(_) => false
  }

  predicate CleanItem(it: Item) {
    forall j :: 0 <= j < |ItemLines(it)| ==> Clean(ItemLines(it)[j])
  }

  lemma {:induction false} ItemsFromClean(lines: seq<string>, i: nat)
    requires AllClean(lines) && ItemsFrom(lines, i).Some?
    ensures forall it :: it in ItemsFrom(lines, i).value ==> CleanItem(it)
    decreases |lines| - i
  {
    if i < |lines| {
      var line := lines[i];
      var next := if StartsWith(line, "#") || !StartsWith(line, "K:") then i + 1 else i + 3;
      ItemsFromClean(lines, next);
    }
  }

  lemma {:induction false} ItemsFromShaped(lines: seq<string>, i: nat)
    requires ItemsFrom(lines, i).Some?
    ensures forall it :: it in ItemsFrom(lines, i).value ==> it.Stray? || Shaped(it)
    decreases |lines| - i
  {
    if i < |lines| {
      var line := lines[i];
      var next := if StartsWith(line, "#") || !StartsWith(line, "K:") then i + 1 else i + 3;
      ItemsFromShaped(lines, next);
    }
  }

  lemma {:induction false} ItemLinesClean(items: seq<Item>)
    requires forall it :: it in items ==> CleanItem(it)
    ensures AllClean(AllItemLines(items))
  {
    if items != [] {
      ItemLinesClean(items[1..]);
      assert CleanItem(items[0]);
      assert items[0] in items;
    }
  }

  lemma {:induction false} ItemsFromShift(pre: seq<string>, lines: seq<string>, i: nat)
    ensures ItemsFrom(pre + lines, |pre| + i) == ItemsFrom(lines, i)
    decreases |lines| - i
  {
    if i < |lines| {
      var line := lines[i];
      assert (pre + lines)[|pre| + i] == line;
      var next := if StartsWith(line, "#") || !StartsWith(line, "K:") then i + 1 else i + 3;
      if next == i + 3 && i + 2 < |lines| {
        assert (pre + lines)[|pre| + i + 1] == lines[i + 1];
        assert (pre + lines)[|pre| + i + 2] == lines[i + 2];
      }
      ItemsFromShift(pre, lines, next);
    }
  }

  /** Written items read back as the same items. */
  lemma {:induction false} ItemsOfItemLines(items: seq<Item>)
    requires forall it :: it in items ==> Shaped(it)
    ensures ItemsFrom(AllItemLines(items), 0) == Some(items)
  {
    if items != [] {
      var it, rest := items[0], items[1..];
      assert it in items && Shaped(it);
      assert forall x :: x in rest ==> x in items;
      ItemsOfItemLines(rest);
      var lines := AllItemLines(items);
      ItemsFromShift(ItemLines(it), AllItemLines(rest), 0);
      assert [it] + rest == items;
      match it
      case Comment(l) =>
        assert lines[0] == l;
      case Record(k, u, e) =>
        assert lines[0] == k && lines[1] == u && lines[2] == e;
    }
  }

  /**
   * Deleting again after a rewrite finds nothing: every matching record went in
   * one pass. (An emptied file makes the second run panic instead.)
   */
  lemma DeleteTwice(content: string, identity: string)
    requires forall j :: 0 <= j < |Lines(content)| ==> !EndsWithCr(Lines(content)[j])
    requires DeleteResult(content, identity).Rewritten?
    ensures var out := DeleteResult(content, identity).content;
      DeleteResult(out, identity) == if out == "" then Panicked else Refused(NOT_FOUND)
  {
    var lines := Lines(content);
    DeleteSpec(content, identity);
    var items := ItemsFrom(lines, 0).value;
    var kept := Kept(items, identity);
    var out := Render(kept);
    LinesHaveNoNewline(content);
    assert AllClean(lines);
    ItemsFromClean(lines, 0);
    ItemsFromShaped(lines, 0);
    KeptSpec(items, identity);
    ItemLinesClean(kept);
    RenderIsUnlines(kept);
    LinesOfUnlines(AllItemLines(kept));
    ItemsOfItemLines(kept);
    DeleteSpec(out, identity);
  }

  /** A rewrite writes only lines of the old content, each followed by a newline. */
  lemma RewrittenLines(content: string, identity: string)
    requires DeleteResult(content, identity).Rewritten?
    ensures var out := DeleteResult(content, identity).content;
      exists ls :: out == Unlines(ls) && forall j :: 0 <= j < |ls| ==> ls[j] in Lines(content)
  {
    var lines := Lines(content);
    DeleteSpec(content, identity);
    var items := ItemsFrom(lines, 0).value;
    var kept := Kept(items, identity);
    RenderIsUnlines(kept);
    KeptSpec(items, identity);
    ItemsFromLines(lines, 0);
    KeptLinesFrom(kept, items, lines);
  }

  lemma {:induction false} ItemsFromLines(lines: seq<string>, i: nat)
    requires ItemsFrom(lines, i).Some?
    ensures forall it :: it in ItemsFrom(lines, i).value ==> forall j :: 0 <= j < |ItemLines(it)| ==> ItemLines(it)[j] in lines
    decreases |lines| - i
  {
    if i < |lines| {
      var line := lines[i];
      var next := if StartsWith(line, "#") || !StartsWith(line, "K:") then i + 1 else i + 3;
      ItemsFromLines(lines, next);
    }
  }

  lemma {:induction false} KeptLinesFrom(kept: seq<Item>, items: seq<Item>, lines: seq<string>)
    requires forall it :: it in kept ==> it in items
    requires forall it :: it in items ==> forall j :: 0 <= j < |ItemLines(it)| ==> ItemLines(it)[j] in lines
    ensures forall j :: 0 <= j < |AllItemLines(kept)| ==> AllItemLines(kept)[j] in lines
  {
    if kept != [] {
      KeptLinesFrom(kept[1..], items, lines);
      assert kept[0] in kept;
    }
  }
}
