/**
 * The parts of Rust's `std::path` on Unix that signing paths rely on: a path
 * is its bytes, seen as a sequence of components; `file_name` is the last
 * component when it is a name; `==` and `cmp` on paths compare components.
 */
module Paths {
  import opened Common
  import ByteOrder

  const SLASH: byte := 47
  const DOT: byte := 46

  /** `std::path::Component` on Unix (there is no prefix component). */
  datatype Component = RootDir | CurDir | ParentDir | Normal(name: Bytes)

  /** The first `/` at or after `from`. */
  function SlashAt(p: Bytes, from: nat): (r: Option<nat>)
    ensures r.Some? ==> from <= r.value < |p| && p[r.value] == SLASH
    decreases |p| - from
  {
    if from >= |p| then None else if p[from] == SLASH then Some(from) else SlashAt(p, from + 1)
  }

  /** The runs of bytes between slashes from `from` on, empty runs included; never empty. */
  function PiecesFrom(p: Bytes, from: nat): (r: seq<Bytes>)
    requires from <= |p|
    ensures |r| >= 1
    decreases |p| - from
  {
    var s := SlashAt(p, from);
    if s.None? then [p[from..]] else [p[from..s.value]] + PiecesFrom(p, s.value + 1)
  }

  function Pieces(p: Bytes): (r: seq<Bytes>)
    ensures |r| >= 1
  {
    PiecesFrom(p, 0)
  }

  lemma {:induction false} SlashAtNone(p: Bytes, from: nat)
    requires forall i :: from <= i < |p| ==> p[i] != SLASH
    ensures SlashAt(p, from).None?
    decreases |p| - from
  {
    if from < |p| {
      SlashAtNone(p, from + 1);
    }
  }

  lemma {:induction false} SlashAtAppend(x: Bytes, y: Bytes, from: nat)
    requires from <= |x|
    ensures SlashAt(x, from).Some? ==> SlashAt(x + y, from) == SlashAt(x, from)
    ensures SlashAt(x, from).None? ==> SlashAt(x + y, from) == SlashAt(x + y, |x|)
    decreases |x| - from
  {
    if from < |x| {
      assert (x + y)[from] == x[from];
      SlashAtAppend(x, y, from + 1);
    }
  }

  /** Pieces as components: empty pieces and `.` vanish, `..` is the parent. */
  function Named(pieces: seq<Bytes>): (r: seq<Component>)
    ensures forall i :: 0 <= i < |r| ==> r[i].ParentDir? || r[i].Normal?
    ensures |r| <= |pieces|
  {
    if pieces == [] then []
    else
      var x := pieces[0];
      if x == [] || x == [DOT] then Named(pieces[1..])
      else if x == [DOT, DOT] then [ParentDir] + Named(pieces[1..])
      else [Normal(x)] + Named(pieces[1..])
  }

  /**
   * `Path::components`: a leading `/` is the root; a leading `.` piece of a
   * relative path is kept as the current directory; elsewhere `.` and repeated
   * or trailing slashes are normalised away.
   */
  function Components(p: Bytes): (r: seq<Component>)
  {
    var ps := Pieces(p);
    if |p| > 0 && p[0] == SLASH then [RootDir] + Named(ps[1..])
    else if ps[0] == [DOT] then [CurDir] + Named(ps[1..])
    else Named(ps)
  }

  /** `Path::file_name`: the last component, when it is a name. */
  function FileName(p: Bytes): Option<Bytes> {
    var cs := Components(p);
    if cs != [] && cs[|cs| - 1].Normal? then Some(cs[|cs| - 1].name) else None
  }

  /** A named piece is neither empty, `.`, `..`, nor holds a slash. */
  predicate PlainName(x: Bytes) {
    x != [] && x != [DOT] && x != [DOT, DOT] && SLASH !in x
  }

  lemma {:induction false} NamedAppend(a: seq<Bytes>, b: seq<Bytes>)
    ensures Named(a + b) == Named(a) + Named(b)
  {
    if a == [] {
      assert a + b == b;
    } else {
      assert (a + b)[0] == a[0] && (a + b)[1..] == a[1..] + b;
      NamedAppend(a[1..], b);
    }
  }

  lemma JoinTail(dir: Bytes, name: Bytes)
    requires SLASH !in name
    ensures PiecesFrom(dir + [SLASH] + name, |dir| + 1) == [name]
  {
    var p := dir + [SLASH] + name;
    assert forall i :: |dir| + 1 <= i < |p| ==> p[i] == name[i - |dir| - 1];
    SlashAtNone(p, |dir| + 1);
    assert p[|dir| + 1..] == name;
  }

  /** With no slash left in `dir`, the joined path ends in two pieces. */
  lemma LastPiece(dir: Bytes, name: Bytes, from: nat)
    requires SLASH !in name && from <= |dir| && SlashAt(dir, from).None?
    ensures PiecesFrom(dir + [SLASH] + name, from) == [dir[from..], name]
  {
    var p := dir + [SLASH] + name;
    assert p == dir + ([SLASH] + name);
    SlashAtAppend(dir, [SLASH] + name, from);
    assert SlashAt(p, |dir|) == Some(|dir|);
    assert p[from..|dir|] == dir[from..];
    JoinTail(dir, name);
  }

  lemma {:induction false} PiecesFromJoin(dir: Bytes, name: Bytes, from: nat)
    requires SLASH !in name && from <= |dir|
    ensures PiecesFrom(dir + [SLASH] + name, from) == PiecesFrom(dir, from) + [name]
    decreases |dir| - from
  {
    var s := SlashAt(dir, from);
    if s.None? {
      LastPiece(dir, name, from);
    } else {
      var p := dir + [SLASH] + name;
      var i := s.value;
      assert SlashAt(p, from) == Some(i) && p[from..i] == dir[from..i] by {
        assert p == dir + ([SLASH] + name);
        SlashAtAppend(dir, [SLASH] + name, from);
      }
      assert PiecesFrom(p, from) == [dir[from..i]] + PiecesFrom(p, i + 1);
      assert PiecesFrom(dir, from) == [dir[from..i]] + PiecesFrom(dir, i + 1);
      PiecesFromJoin(dir, name, i + 1);
    }
  }

  lemma PiecesOfJoin(dir: Bytes, name: Bytes)
    requires SLASH !in name
    ensures Pieces(dir + [SLASH] + name) == Pieces(dir) + [name]
  {
    PiecesFromJoin(dir, name, 0);
  }

  /** Components ending in the pieces of a plain name end with that name. */
  lemma EndsWithName(prefix: seq<Component>, pieces: seq<Bytes>, name: Bytes)
    requires PlainName(name)
    ensures var r := prefix + Named(pieces + [name]); |r| > 0 && r[|r| - 1] == Normal(name)
  {
    NamedAppend(pieces, [name]);
    assert Named([name]) == [Normal(name)];
    assert prefix + Named(pieces + [name]) == (prefix + Named(pieces)) + [Normal(name)];
  }

  /** `dir.join(name)` for a plain name has that name as its file name. */
  lemma FileNameOfJoin(dir: Bytes, name: Bytes)
    requires PlainName(name)
    ensures FileName(dir + [SLASH] + name) == Some(name)
  {
    var p := dir + [SLASH] + name;
    var ps := Pieces(dir);
    assert Pieces(p) == ps + [name] by {
      PiecesOfJoin(dir, name);
    }
    if |p| > 0 && p[0] == SLASH {
      assert Components(p) == [RootDir] + Named(ps[1..] + [name]) by {
        assert (ps + [name])[1..] == ps[1..] + [name];
      }
      EndsWithName([RootDir], ps[1..], name);
    } else if (ps + [name])[0] == [DOT] {
      assert Components(p) == [CurDir] + Named(ps[1..] + [name]) by {
        assert (ps + [name])[1..] == ps[1..] + [name];
      }
      EndsWithName([CurDir], ps[1..], name);
    } else {
      assert Components(p) == [] + Named(ps + [name]);
      EndsWithName([], ps, name);
    }
  }

  /** A path of bytes without a slash is a single name, its own file name. */
  lemma FileNameOfName(name: Bytes)
    requires PlainName(name)
    ensures FileName(name) == Some(name)
  {
    SlashAtNone(name, 0);
    assert name[0..] == name;
    assert Pieces(name) == [name];
    assert Named([name]) == [Normal(name)];
    assert name[0] in name;
  }

  /** Trailing `/` and `/.` do not change a path. */
  lemma TrailingSlashIgnored(p: Bytes)
    requires |p| > 0
    ensures Components(p + [SLASH]) == Components(p)
    ensures Components(p + [SLASH, DOT]) == Components(p)
  {
    PiecesOfJoin(p, []);
    PiecesOfJoin(p, [DOT]);
    assert p + [SLASH] == p + [SLASH] + [];
    assert p + [SLASH, DOT] == p + [SLASH] + [DOT];
    var ps := Pieces(p);
    NamedAppend(ps[1..], [[]]);
    NamedAppend(ps, [[]]);
    NamedAppend(ps[1..], [[DOT]]);
    NamedAppend(ps, [[DOT]]);
    assert Named([[]]) == [] && Named([[DOT]]) == [];
    assert (ps + [[]])[1..] == ps[1..] + [[]];
    assert (ps + [[DOT]])[1..] == ps[1..] + [[DOT]];
    assert (ps + [[]])[0] == ps[0] && (ps + [[DOT]])[0] == ps[0];
    assert (p + [SLASH])[0] == p[0] && (p + [SLASH, DOT])[0] == p[0];
    assert ps + [[]] == ps + [[]];
  }

  // ---- Comparison ----

  function Rank(c: Component): nat {
    match c
    case RootDir => 1
    case CurDir => 2
    case ParentDir => 3
    case Normal(_) => 4
  }

  /** The derived `Ord` of `Component`: variant first, then names as bytes. */
  function CompareComponent(a: Component, b: Component): (r: Ordering)
    ensures r == Equal <==> a == b
  {
    if Rank(a) < Rank(b) then Less
    else if Rank(a) > Rank(b) then Greater
    else if a.Normal? && b.Normal? then ByteOrder.Compare(a.name, b.name)
    else Equal
  }

  /** `Iterator::cmp` over components: lexicographic, a proper prefix first. */
  function CompareComponents(a: seq<Component>, b: seq<Component>): (r: Ordering)
    ensures r == Equal <==> a == b
  {
    if a == [] && b == [] then Equal
    else if a == [] then Less
    else if b == [] then Greater
    else
      var c := CompareComponent(a[0], b[0]);
      if c != Equal then c
      else
        var rest := CompareComponents(a[1..], b[1..]);
        assert rest == Equal ==> a == [a[0]] + a[1..] && b == [b[0]] + b[1..];
        rest
  }

  /** `Path::cmp`. */
  function ComparePaths(a: Bytes, b: Bytes): (r: Ordering)
    ensures r == Equal <==> Components(a) == Components(b)
  {
    CompareComponents(Components(a), Components(b))
  }

  /** `Path::eq`: the same components. */
  predicate SamePath(a: Bytes, b: Bytes) {
    Components(a) == Components(b)
  }

  lemma ComponentReverse(a: Component, b: Component)
    ensures CompareComponent(b, a) == CompareComponent(a, b).Reverse()
  {
    if a.Normal? && b.Normal? {
      ByteOrder.LessTrichotomy(a.name, b.name);
    }
  }

  lemma ComponentTransitive(a: Component, b: Component, c: Component)
    requires CompareComponent(a, b) == Less && CompareComponent(b, c) == Less
    ensures CompareComponent(a, c) == Less
  {
    if a.Normal? && b.Normal? && c.Normal? {
      ByteOrder.LessTransitive(a.name, b.name, c.name);
    }
  }

  lemma {:induction false} ComponentsReverse(a: seq<Component>, b: seq<Component>)
    ensures CompareComponents(b, a) == CompareComponents(a, b).Reverse()
  {
    if a != [] && b != [] {
      ComponentReverse(a[0], b[0]);
      ComponentsReverse(a[1..], b[1..]);
    }
  }

  lemma {:induction false} ComponentsTransitive(a: seq<Component>, b: seq<Component>, c: seq<Component>)
    requires CompareComponents(a, b) == Less && CompareComponents(b, c) == Less
    ensures CompareComponents(a, c) == Less
  {
    if a != [] {
      var ab, bc := CompareComponent(a[0], b[0]), CompareComponent(b[0], c[0]);
      if ab == Less && bc == Less {
        ComponentTransitive(a[0], b[0], c[0]);
      } else if ab == Equal && bc == Equal {
        ComponentsTransitive(a[1..], b[1..], c[1..]);
      }
    }
  }

  /** Path comparison is a total order whose equality is `SamePath`. */
  lemma PathOrder(a: Bytes, b: Bytes, c: Bytes)
    ensures ComparePaths(b, a) == ComparePaths(a, b).Reverse()
    ensures ComparePaths(a, b) == Less && ComparePaths(b, c) == Less ==> ComparePaths(a, c) == Less
  {
    ComponentsReverse(Components(a), Components(b));
    if ComparePaths(a, b) == Less && ComparePaths(b, c) == Less {
      ComponentsTransitive(Components(a), Components(b), Components(c));
    }
  }
}
