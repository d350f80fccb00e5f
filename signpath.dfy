/**
 * `SignPath`: a manifest file to be signed, classified by its file name.
 * The file system's answers (is the path a directory, did opening, seeking or
 * reading succeed) are parameters; a path is the bytes of a Unix `PathBuf`.
 */
module SignPaths {
  import opened Common
  import Paths

  /** An open `std::fs::File`, known only by its identity. */
  datatype Handle = Handle(id: nat)

  /** The four manifest kinds, each with its path and what has been read of it. */
  datatype SignPath =
    | CargoToml(path: Bytes, file: Option<Handle>, fileContent: Option<string>)
    | PackageJson(path: Bytes, file: Option<Handle>, fileContent: Option<string>)
    | ComposerJson(path: Bytes, file: Option<Handle>, fileContent: Option<string>)
    | PyProjectToml(path: Bytes, file: Option<Handle>, fileContent: Option<string>)

  const CARGO_TOML: Bytes := [67, 97, 114, 103, 111, 46, 116, 111, 109, 108]
  const PACKAGE_JSON: Bytes := [112, 97, 99, 107, 97, 103, 101, 46, 106, 115, 111, 110]
  const COMPOSER_JSON: Bytes := [99, 111, 109, 112, 111, 115, 101, 114, 46, 106, 115, 111, 110]
  const PYPROJECT_TOML: Bytes := [112, 121, 112, 114, 111, 106, 101, 99, 116, 46, 116, 111, 109, 108]

  const DIR_PATH := "Expected file path, received dir path"
  const INVALID_FILE_NAME := "Invalid file name"
  const SEEK_FAILED := "Problem seeking start of file"
  const READ_FAILED := "Problem reading file"

  /** The variant's place in the order: Cargo 0, package.json 1, composer.json 2, pyproject 3. */
  function Rank(sp: SignPath): (r: nat)
    ensures r < 4
  {
    match sp
    case CargoToml(_, _, _) => 0
    case PackageJson(_, _, _) => 1
    case ComposerJson(_, _, _) => 2
    case PyProjectToml(_, _, _) => 3
  }

  /** The file name that selects each variant. */
  function ManifestName(rank: nat): Bytes
    requires rank < 4
  {
    if rank == 0 then CARGO_TOML
    else if rank == 1 then PACKAGE_JSON
    else if rank == 2 then COMPOSER_JSON
    else PYPROJECT_TOML
  }

  /** A value of variant `rank` at `path` with no file opened yet. */
  function Blank(rank: nat, path: Bytes): (r: SignPath)
    requires rank < 4
    ensures Rank(r) == rank && r.path == path && r.file.None? && r.fileContent.None?
  {
    if rank == 0 then CargoToml(path, None, None)
    else if rank == 1 then PackageJson(path, None, None)
    else if rank == 2 then ComposerJson(path, None, None)
    else PyProjectToml(path, None, None)
  }

  /** The variant a file name selects, if any. */
  function RankOfName(name: Bytes): (r: Option<nat>)
    ensures r.Some? ==> r.value < 4 && ManifestName(r.value) == name
    ensures r.None? ==> forall k :: 0 <= k < 4 ==> ManifestName(k) != name
  {
    if name == CARGO_TOML then Some(0)
    else if name == PACKAGE_JSON then Some(1)
    else if name == COMPOSER_JSON then Some(2)
    else if name == PYPROJECT_TOML then Some(3)
    else None
  }

  datatype NewOutcome = Created(sp: SignPath) | Rejected(message: string) | Panicked

  /** The error message an outcome contributes: one for a refusal, none otherwise. */
  function RejectionOf(n: NewOutcome): (r: seq<string>)
    ensures |r| <= 1 && (r != [] <==> n.Rejected?)
  {
    if n.Rejected? then [n.message] else []
  }

  /**
   * `SignPath::new`: a directory and a path without a file name are errors; one
   * of the four manifest names gives that variant with nothing opened; any
   * other name panics.
   */
  function New(path: Bytes, isDir: bool): (r: NewOutcome)
    ensures isDir ==> r == Rejected(DIR_PATH)
    ensures r.Created? ==> r.sp.path == path && r.sp.file.None? && r.sp.fileContent.None?
  {
    if isDir then Rejected(DIR_PATH)
    else
      var name := Paths.FileName(path);
      if name.None? then Rejected(INVALID_FILE_NAME)
      else
        var rank := RankOfName(name.value);
        if rank.None? then Panicked else Created(Blank(rank.value, path))
  }

  /**
   * How `new` classifies a file: no file name is an error, the variant is the
   * one whose manifest name is the file name, and any other name panics.
   */
  lemma NewSpec(path: Bytes, isDir: bool)
    ensures !isDir && Paths.FileName(path).None? ==> New(path, isDir) == Rejected(INVALID_FILE_NAME)
    ensures New(path, isDir).Created? ==> Paths.FileName(path) == Some(ManifestName(Rank(New(path, isDir).sp)))
    ensures New(path, isDir).Panicked? <==>
      !isDir && Paths.FileName(path).Some?
      && forall k :: 0 <= k < 4 ==> ManifestName(k) != Paths.FileName(path).value
  {
  }

  lemma NamesArePlain(rank: nat)
    requires rank < 4
    ensures Paths.PlainName(ManifestName(rank))
  {
  }

  /** Every manifest, alone or under any directory, is recognised as its own variant. */
  lemma NewOfManifest(dir: Bytes, rank: nat)
    requires rank < 4
    ensures New(ManifestName(rank), false) == Created(Blank(rank, ManifestName(rank)))
    ensures New(dir + [Paths.SLASH] + ManifestName(rank), false)
      == Created(Blank(rank, dir + [Paths.SLASH] + ManifestName(rank)))
  {
    NamesArePlain(rank);
    Paths.FileNameOfName(ManifestName(rank));
    Paths.FileNameOfJoin(dir, ManifestName(rank));
  }

  /** `get_path`: the stored path, whatever the variant. */
  function GetPath(sp: SignPath): (r: Bytes)
    ensures r == sp.path
  {
    match sp
    case CargoToml(p, _, _) => p
    case PackageJson(p, _, _) => p
    case ComposerJson(p, _, _) => p
    case PyProjectToml(p, _, _) => p
  }

  lemma GetPathOfNew(path: Bytes, isDir: bool)
    ensures New(path, isDir).Created? ==> GetPath(New(path, isDir).sp) == path
  {
  }

  /** The same variant and path with new file fields. */
  function WithFile(sp: SignPath, file: Option<Handle>, content: Option<string>): (r: SignPath)
    ensures Rank(r) == Rank(sp) && r.path == sp.path && r.file == file && r.fileContent == content
  {
    match sp
    case CargoToml(p, _, _) => CargoToml(p, file, content)
    case PackageJson(p, _, _) => PackageJson(p, file, content)
    case ComposerJson(p, _, _) => ComposerJson(p, file, content)
    case PyProjectToml(p, _, _) => PyProjectToml(p, file, content)
  }

  /** `add_file`: each of `file` and `file_content` is set only when still empty. */
  function AddFile(sp: SignPath, f: Handle, fc: string): (r: SignPath)
    ensures Rank(r) == Rank(sp) && r.path == sp.path
    ensures sp.file.Some? ==> r.file == sp.file
    ensures sp.file.None? ==> r.file == Some(f)
    ensures sp.fileContent.Some? ==> r.fileContent == sp.fileContent
    ensures sp.fileContent.None? ==> r.fileContent == Some(fc)
  {
    var file := if sp.file.None? then Some(f) else sp.file;
    var content := if sp.fileContent.None? then Some(fc) else sp.fileContent;
    WithFile(sp, file, content)
  }

  /** A second `add_file` changes nothing: the first values stay. */
  lemma AddFileNeverOverwrites(sp: SignPath, f: Handle, fc: string, g: Handle, gc: string)
    ensures AddFile(AddFile(sp, f, fc), g, gc) == AddFile(sp, f, fc)
  {
    var once := AddFile(sp, f, fc);
    var twice := AddFile(once, g, gc);
    assert Rank(twice) == Rank(once);
  }

  /** What the file system answers when `open_file_handle` tries the path. */
  datatype OpenAttempt =
    | Opened(handle: Handle, contents: string)
    | OpenFailed(pathShown: string, errorShown: string)
    | SeekFailed
    | ReadFailed

  /**
   * `open_file_handle`: nothing happens when a file is already attached;
   * otherwise the path is opened, rewound and read, and only a complete
   * success attaches the handle and the contents.
   */
  function OpenFileHandle(sp: SignPath, attempt: OpenAttempt): (r: Result<SignPath, string>)
    ensures sp.file.Some? ==> r == Ok(sp)
    ensures sp.file.None? && attempt.Opened? ==>
      r.Ok? && Rank(r.value) == Rank(sp) && r.value.path == sp.path
      && r.value.file == Some(attempt.handle) && r.value.fileContent == Some(attempt.contents)
    ensures sp.file.None? && attempt.OpenFailed? ==>
      r == Err("Problem opening '" + attempt.pathShown + "': " + attempt.errorShown)
    ensures sp.file.None? && attempt.SeekFailed? ==> r == Err(SEEK_FAILED)
    ensures sp.file.None? && attempt.ReadFailed? ==> r == Err(READ_FAILED)
  {
    if sp.file.Some? then Ok(sp)
    else
      match attempt
      case OpenFailed(shownPath, shownError) => Err("Problem opening '" + shownPath + "': " + shownError)
      case SeekFailed => Err(SEEK_FAILED)
      case ReadFailed => Err(READ_FAILED)
      case Opened(h, contents) => Ok(WithFile(sp, Some(h), Some(contents)))
  }

  /** Once opened, opening again is a no-op whatever the file system would say. */
  lemma OpenIdempotent(sp: SignPath, first: OpenAttempt, second: OpenAttempt)
    requires OpenFileHandle(sp, first).Ok?
    ensures OpenFileHandle(sp, first).value.file.Some?
    ensures OpenFileHandle(OpenFileHandle(sp, first).value, second) == OpenFileHandle(sp, first)
  {
  }

  /** `same_variant_as`. */
  function SameVariant(a: SignPath, b: SignPath): (r: bool)
    ensures r <==> Rank(a) == Rank(b)
  {
    (a.CargoToml? && b.CargoToml?)
    || (a.PackageJson? && b.PackageJson?)
    || (a.ComposerJson? && b.ComposerJson?)
    || (a.PyProjectToml? && b.PyProjectToml?)
  }

  lemma SameVariantEquivalence(a: SignPath, b: SignPath, c: SignPath)
    ensures SameVariant(a, a)
    ensures SameVariant(a, b) == SameVariant(b, a)
    ensures SameVariant(a, b) && SameVariant(b, c) ==> SameVariant(a, c)
  {
  }

  /** `PartialEq`: the same variant and equal paths; the file fields do not matter. */
  function Eq(a: SignPath, b: SignPath): (r: bool)
    ensures r <==> Rank(a) == Rank(b) && Paths.Components(a.path) == Paths.Components(b.path)
  {
    SameVariant(a, b) && Paths.SamePath(a.path, b.path)
  }

  function CompareRanks(x: nat, y: nat): (r: Ordering)
    ensures r == Equal <==> x == y
    ensures r == Less <==> x < y
  {
    if x < y then Less else if x > y then Greater else Equal
  }

  /** `Ord::cmp`: the variant's rank first, then the paths. */
  function Cmp(a: SignPath, b: SignPath): (r: Ordering)
    ensures Rank(a) != Rank(b) ==> (r == Less <==> Rank(a) < Rank(b)) && r != Equal
    ensures Rank(a) == Rank(b) ==> r == Paths.ComparePaths(a.path, b.path)
  {
    var byRank := CompareRanks(Rank(a), Rank(b));
    if byRank != Equal then byRank
    else if SameVariant(a, b) then Paths.ComparePaths(a.path, b.path)
    else Equal
  }

  /** `cmp` is a total order whose equality is `eq`. */
  lemma CmpIsTotalOrder(a: SignPath, b: SignPath, c: SignPath)
    ensures Cmp(a, b) == Equal <==> Eq(a, b)
    ensures Cmp(b, a) == Cmp(a, b).Reverse()
    ensures Cmp(a, b) == Less && Cmp(b, c) == Less ==> Cmp(a, c) == Less
  {
    Paths.PathOrder(a.path, b.path, c.path);
  }

  /** `eq` is an equivalence relation. */
  lemma EqIsEquivalence(a: SignPath, b: SignPath, c: SignPath)
    ensures Eq(a, a)
    ensures Eq(a, b) == Eq(b, a)
    ensures Eq(a, b) && Eq(b, c) ==> Eq(a, c)
  {
  }
}
