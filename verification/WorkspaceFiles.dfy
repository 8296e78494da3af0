/** The playground's workspace: paths, mutations and the stored record (web/src/workspace.ts). */
module WorkspaceFiles {
  import opened Text
  import opened Ordering
  import Json

  datatype File = File(path: string, content: string, version: int)

  datatype Workspace = Workspace(
    id: string, revision: int, files: seq<File>, activeFile: string, metadata: Option<Json.Value>)

  datatype Mutation =
    | Create(path: string, content: string) | Update(path: string, content: string)
    | Rename(from: string, to: string) | Delete(path: string) | Select(path: string)

  datatype Reason = Invalid | Incompatible

  type Outcome<T> = Result<T, Reason>

  // ----- paths -----

  function Slashes(path: string): (r: string)
    ensures |r| == |path| && forall i :: 0 <= i < |path| ==> r[i] == if path[i] == '\\' then '/' else path[i]
  {
    seq(|path|, i requires 0 <= i < |path| => if path[i] == '\\' then '/' else path[i])
  }

  predicate IsAsciiLetter(c: char) { 'a' <= c <= 'z' || 'A' <= c <= 'Z' }

  predicate IsSchemeChar(c: char) { IsAsciiLetter(c) || IsDigit(c) || c == '+' || c == '.' || c == '-' }

  /** Letters, digits, `+`, `.` and `-` up to a colon. */
  predicate HasScheme(s: string) {
    var colon := IndexOf(s, ':');
    0 < colon < |s| && IsAsciiLetter(s[0]) && forall i :: 0 <= i < colon ==> IsSchemeChar(s[i])
  }

  predicate IsControl(c: char) {
    var n := c as int;
    n <= 0x1f || 0x7f <= n <= 0x9f || 0x202a <= n <= 0x202e || 0x2066 <= n <= 0x2069
  }

  predicate EndsInMdl(s: string) { |s| >= 4 && s[|s| - 4..] == ".mdl" }

  /** A relative path to an .mdl file with ordinary segments. */
  predicate IsSafe(s: string) {
    && s != "" && s[0] != '/' && !HasScheme(s) && (forall i :: 0 <= i < |s| ==> !IsControl(s[i])) && EndsInMdl(s)
    && var segments := Split(s, '/');
       forall i :: 0 <= i < |segments| ==> segments[i] != "" && segments[i] != "." && segments[i] != ".."
  }

  function NormalizePath(path: string): Outcome<string> {
    var normalized := Slashes(path);
    if IsSafe(normalized) then Ok(normalized) else Err(Invalid)
  }

  /** The paths that normalisation leaves alone. */
  predicate IsNormal(path: string) { '\\' !in path && IsSafe(path) }

  /** Normalising yields a normal path and changes nothing the second time; exactly the normal
      paths are their own normal form. */
  lemma NormalizeIdempotent(path: string)
    ensures NormalizePath(path).Ok? ==> IsNormal(NormalizePath(path).value)
    ensures NormalizePath(path) == Ok(path) <==> IsNormal(path)
  {
    hide IsSafe;
    if '\\' !in path { assert Slashes(path) == path; }
    if '\\' in path {
      var i :| 0 <= i < |path| && path[i] == '\\';
      assert Slashes(path)[i] == '/';
    }
  }

  // ----- what a workspace must be -----

  ghost predicate DistinctPaths(files: seq<File>) {
    forall i, j :: 0 <= i < j < |files| ==> files[i].path != files[j].path
  }

  predicate HasPath(files: seq<File>, path: string) {
    exists i :: 0 <= i < |files| && files[i].path == path
  }

  ghost predicate ValidFile(f: File) { IsNormal(f.path) && f.version > 0 }

  ghost predicate Valid(w: Workspace) {
    && w.id != "" && w.revision > 0 && w.files != []
    && (forall i :: 0 <= i < |w.files| ==> ValidFile(w.files[i]))
    && DistinctPaths(w.files) && HasPath(w.files, w.activeFile)
  }

  // ----- mutations -----

  function FindFile(files: seq<File>, path: string): (r: Option<File>)
    ensures r.Some? <==> HasPath(files, path)
    ensures r.Some? ==> r.value in files && r.value.path == path
  {
    if files == [] then None
    else if files[0].path == path then Some(files[0])
    else
      assert HasPath(files[1..], path) ==> HasPath(files, path) by {
        if i :| 0 <= i < |files[1..]| && files[1..][i].path == path { assert files[i + 1].path == path; }
      }
      assert HasPath(files, path) ==> HasPath(files[1..], path) by {
        if i :| 0 <= i < |files| && files[i].path == path { assert files[1..][i - 1].path == path; }
      }
      FindFile(files[1..], path)
  }

  /** `files.map`, with `replacement` for the file at the path. */
  function Replace(files: seq<File>, path: string, replacement: File): (r: seq<File>)
    ensures |r| == |files|
    ensures forall i :: 0 <= i < |r| ==> r[i] == if files[i].path == path then replacement else files[i]
  {
    seq(|files|, i requires 0 <= i < |files| => if files[i].path == path then replacement else files[i])
  }

  function Remove(files: seq<File>, path: string): (r: seq<File>)
    ensures forall f :: f in r <==> f in files && f.path != path
  {
    if files == [] then []
    else if files[0].path == path then Remove(files[1..], path) else [files[0]] + Remove(files[1..], path)
  }

  /** The first file in the locale's order. */
  function FirstFile(locale: (string, string) -> bool, files: seq<File>): (r: File)
    requires files != []
    ensures r in files
  {
    SortBy((a: File, b: File) => locale(a.path, b.path), files)[0]
  }

  function Mutate(locale: (string, string) -> bool, w: Workspace, m: Mutation): Outcome<Workspace> {
    var revision := w.revision + 1;
    match m
    case Create(rawPath, content) =>
      (match NormalizePath(rawPath)
       case Err(e) => Err(e)
       case Ok(path) =>
         if HasPath(w.files, path) then Err(Invalid)
         else Ok(w.(revision := revision, files := w.files + [File(path, content, 1)], activeFile := path)))
    case Update(rawPath, content) =>
      (match NormalizePath(rawPath)
       case Err(e) => Err(e)
       case Ok(path) =>
         match FindFile(w.files, path)
         case None => Err(Invalid)
         case Some(file) =>
           var updated := file.(content := content, version := file.version + 1);
           Ok(w.(revision := revision, files := Replace(w.files, path, updated))))
    case Rename(rawFrom, rawTo) =>
      (match (NormalizePath(rawFrom), NormalizePath(rawTo))
       case (Ok(from), Ok(to)) =>
         (match FindFile(w.files, from)
          case None => Err(Invalid)
          case Some(file) =>
            if from == to || HasPath(w.files, to) then Err(Invalid)
            else
              var renamed := file.(path := to, version := file.version + 1);
              Ok(w.(revision := revision, files := Replace(w.files, from, renamed),
                    activeFile := if w.activeFile == from then to else w.activeFile)))
       case _ => Err(Invalid))
    case Delete(rawPath) =>
      (match NormalizePath(rawPath)
       case Err(e) => Err(e)
       case Ok(path) =>
         if !HasPath(w.files, path) || |w.files| == 1 then Err(Invalid)
         else
           var files := Remove(w.files, path);
           if files == [] then Err(Invalid)
           else
             Ok(w.(revision := revision, files := files,
                   activeFile := if w.activeFile == path then FirstFile(locale, files).path else w.activeFile)))
    case Select(rawPath) =>
      (match NormalizePath(rawPath)
       case Err(e) => Err(e)
       case Ok(path) =>
         if !HasPath(w.files, path) then Err(Invalid) else Ok(w.(revision := revision, activeFile := path)))
  }

  function MutateBatch(locale: (string, string) -> bool, w: Workspace, ms: seq<Mutation>): Outcome<Workspace>
    decreases |ms|
  {
    if ms == [] then Ok(w)
    else match Mutate(locale, w, ms[0]) case Ok(next) => MutateBatch(locale, next, ms[1..]) case Err(e) => Err(e)
  }

  // ----- what mutations do -----

  /** Content and version at a path. */
  function At(w: Workspace, path: string): Option<(string, int)> {
    match FindFile(w.files, path) case Some(f) => Some((f.content, f.version)) case None => None
  }

  lemma AtIs(w: Workspace, i: nat)
    requires DistinctPaths(w.files) && i < |w.files|
    ensures At(w, w.files[i].path) == Some((w.files[i].content, w.files[i].version))
    ensures FindFile(w.files, w.files[i].path) == Some(w.files[i])
  {
    hide FindFile;
    var f := FindFile(w.files, w.files[i].path);
    assert HasPath(w.files, w.files[i].path);
    var j :| 0 <= j < |w.files| && w.files[j] == f.value;
    assert i == j;
  }

  lemma Absent(w: Workspace, path: string)
    requires !HasPath(w.files, path)
    ensures At(w, path) == None
  {
  }

  /** Two workspaces agree at a path when the same file is there, or none is. */
  lemma SameAt(v: Workspace, w: Workspace, path: string)
    requires DistinctPaths(v.files) && DistinctPaths(w.files)
    requires forall f: File :: f.path == path ==> (f in v.files <==> f in w.files)
    ensures At(v, path) == At(w, path)
  {
    hide FindFile, DistinctPaths;
    if HasPath(v.files, path) {
      var f := FindFile(v.files, path).value;
      FoundIs(w, f);
    } else if HasPath(w.files, path) {
      FoundIs(v, FindFile(w.files, path).value);
    }
  }

  lemma FoundIs(w: Workspace, f: File)
    requires DistinctPaths(w.files) && f in w.files
    ensures FindFile(w.files, f.path) == Some(f) && HasPath(w.files, f.path)
  {
    hide FindFile;
    var i :| 0 <= i < |w.files| && w.files[i] == f;
    AtIs(w, i);
  }

  /** The content at each path after a mutation that succeeds. */
  function Expected(w: Workspace, m: Mutation, path: string): Option<(string, int)> {
    match m
    case Create(raw, content) => if NormalizePath(raw) == Ok(path) then Some((content, 1)) else At(w, path)
    case Update(raw, content) =>
      if NormalizePath(raw) == Ok(path) && At(w, path).Some? then Some((content, At(w, path).value.1 + 1))
      else At(w, path)
    case Rename(from, to) =>
      var source := NormalizePath(from);
      if NormalizePath(to) == Ok(path) && source.Ok? && At(w, source.value).Some? then
        Some((At(w, source.value).value.0, At(w, source.value).value.1 + 1))
      else if source == Ok(path) then None
      else At(w, path)
    case Delete(raw) => if NormalizePath(raw) == Ok(path) then None else At(w, path)
    case Select(_) => At(w, path)
  }

  lemma CreateMeans(w: Workspace, path: string, content: string, v: Workspace)
    requires Valid(w) && IsNormal(path) && !HasPath(w.files, path)
    requires v == w.(revision := w.revision + 1, files := w.files + [File(path, content, 1)], activeFile := path)
    ensures Valid(v)
    ensures forall p :: At(v, p) == if p == path then Some((content, 1)) else At(w, p)
  {
    hide IsNormal, FindFile;
    assert v.files[|w.files|].path == path;
    assert DistinctPaths(v.files);
    forall p ensures At(v, p) == if p == path then Some((content, 1)) else At(w, p) {
      if p == path { AtIs(v, |w.files|); } else { SameAt(v, w, p); }
    }
  }

  function Replaced(w: Workspace, path: string, replacement: File, p: string): Option<(string, int)> {
    if p == replacement.path then Some((replacement.content, replacement.version))
    else if p == path then None else At(w, p)
  }

  lemma ReplaceMeans(w: Workspace, path: string, file: File, replacement: File, v: Workspace)
    requires Valid(w) && file in w.files && file.path == path && ValidFile(replacement)
    requires replacement.path == path || !HasPath(w.files, replacement.path)
    requires v == w.(revision := w.revision + 1, files := Replace(w.files, path, replacement),
      activeFile := if w.activeFile == path then replacement.path else w.activeFile)
    ensures Valid(v)
    ensures forall p :: At(v, p) == Replaced(w, path, replacement, p)
  {
    hide IsNormal, FindFile, Replace;
    var k :| 0 <= k < |w.files| && w.files[k] == file;
    assert v.files[k] == replacement;
    forall i | 0 <= i < |w.files| && i != k
      ensures v.files[i] == w.files[i] && w.files[i].path != replacement.path && w.files[i].path != path
    {
    }
    assert DistinctPaths(v.files);
    if w.activeFile != path {
      var a :| 0 <= a < |w.files| && w.files[a].path == w.activeFile;
      assert v.files[a].path == w.activeFile;
    }
    forall p ensures At(v, p) == Replaced(w, path, replacement, p) {
      if p == replacement.path {
        AtIs(v, k);
      } else if p == path {
        Absent(v, p);
      } else {
        SameAt(v, w, p);
      }
    }
  }

  lemma HasPathStep(files: seq<File>, path: string)
    requires files != []
    ensures HasPath(files, path) <==> files[0].path == path || HasPath(files[1..], path)
  {
    if i :| 0 <= i < |files[1..]| && files[1..][i].path == path { assert files[i + 1].path == path; }
    if i :| 0 <= i < |files| && files[i].path == path { assert i > 0 ==> files[1..][i - 1].path == path; }
  }

  lemma FirstPathOnce(files: seq<File>)
    requires files != [] && DistinctPaths(files)
    ensures DistinctPaths(files[1..]) && !HasPath(files[1..], files[0].path)
  {
    forall i | 0 <= i < |files[1..]| ensures files[1..][i].path != files[0].path {
      assert files[1..][i] == files[i + 1];
    }
  }

  lemma PrependFile(f: File, files: seq<File>)
    requires DistinctPaths(files) && !HasPath(files, f.path)
    ensures DistinctPaths([f] + files)
  {
  }

  lemma {:induction false} RemoveKeepsOrder(files: seq<File>, path: string)
    requires DistinctPaths(files)
    ensures DistinctPaths(Remove(files, path))
    ensures |files| > 1 ==> Remove(files, path) != []
    ensures HasPath(files, path) <==> |Remove(files, path)| == |files| - 1
    ensures !HasPath(files, path) ==> Remove(files, path) == files
  {
    hide HasPath, DistinctPaths;
    if files != [] {
      FirstPathOnce(files);
      HasPathStep(files, path);
      RemoveKeepsOrder(files[1..], path);
      if files[0].path != path {
        RemovedStaysAbsent(files[1..], path, files[0].path);
        PrependFile(files[0], Remove(files[1..], path));
        assert files == [files[0]] + files[1..];
      }
    } else {
      Nothing(path);
    }
  }

  lemma Nothing(path: string)
    ensures !HasPath([], path) && DistinctPaths([])
  {
  }

  lemma RemovedStaysAbsent(files: seq<File>, path: string, other: string)
    requires !HasPath(files, other)
    ensures !HasPath(Remove(files, path), other)
  {
    var rest := Remove(files, path);
    forall i | 0 <= i < |rest| ensures rest[i].path != other {
      assert rest[i] in files;
      var j :| 0 <= j < |files| && files[j] == rest[i];
    }
  }

  lemma RemoveMeans(locale: (string, string) -> bool, w: Workspace, path: string, v: Workspace)
    requires Valid(w) && HasPath(w.files, path) && Remove(w.files, path) != []
    requires v == w.(revision := w.revision + 1, files := Remove(w.files, path),
      activeFile := if w.activeFile == path then FirstFile(locale, Remove(w.files, path)).path else w.activeFile)
    ensures Valid(v)
    ensures forall p :: At(v, p) == if p == path then None else At(w, p)
  {
    hide IsNormal, FindFile, Remove, FirstFile;
    RemoveKeepsOrder(w.files, path);
    forall i | 0 <= i < |v.files| ensures ValidFile(v.files[i]) { assert v.files[i] in w.files; }
    if w.activeFile == path {
      var f := FirstFile(locale, v.files);
      var i :| 0 <= i < |v.files| && v.files[i] == f;
    } else {
      var i :| 0 <= i < |w.files| && w.files[i].path == w.activeFile;
      assert w.files[i] in v.files;
      var j :| 0 <= j < |v.files| && v.files[j] == w.files[i];
    }
    forall p ensures At(v, p) == if p == path then None else At(w, p) {
      if p == path {
        assert forall f :: f in v.files ==> f.path != path;
        assert !HasPath(v.files, p);
        Absent(v, p);
      } else {
        SameAt(v, w, p);
      }
    }
  }

  /** A mutation that succeeds keeps the workspace valid, raises its revision by one, keeps its
      identity and changes exactly the files it names. */
  lemma MutationMeans(locale: (string, string) -> bool, w: Workspace, m: Mutation)
    requires Valid(w) && Mutate(locale, w, m).Ok?
    ensures var v := Mutate(locale, w, m).value;
      Valid(v) && v.revision == w.revision + 1 && v.id == w.id && v.metadata == w.metadata &&
      forall p :: At(v, p) == Expected(w, m, p)
  {
    hide IsNormal, FindFile, Replace, Remove, NormalizePath, ValidFile;
    var v := Mutate(locale, w, m).value;
    match m {
      case Create(raw, content) =>
        NormalizeIdempotent(raw);
        CreateMeans(w, NormalizePath(raw).value, content, v);
      case Update(raw, content) =>
        NormalizeIdempotent(raw);
        var path := NormalizePath(raw).value;
        var file := FindFile(w.files, path).value;
        FoundIs(w, file);
        StillValid(w, file, file.(content := content, version := file.version + 1));
        ReplaceMeans(w, path, file, file.(content := content, version := file.version + 1), v);
      case Rename(rawFrom, rawTo) =>
        NormalizeIdempotent(rawTo);
        var from, to := NormalizePath(rawFrom).value, NormalizePath(rawTo).value;
        var file := FindFile(w.files, from).value;
        FoundIs(w, file);
        StillValid(w, file, file.(path := to, version := file.version + 1));
        ReplaceMeans(w, from, file, file.(path := to, version := file.version + 1), v);
      case Delete(raw) =>
        RemoveMeans(locale, w, NormalizePath(raw).value, v);
      case Select(raw) =>
        SelectMeans(w, v);
    }
  }

  lemma StillValid(w: Workspace, file: File, changed: File)
    requires Valid(w) && file in w.files && (IsNormal(changed.path) || changed.path == file.path)
    requires changed.version == file.version + 1
    ensures ValidFile(changed)
  {
    hide IsNormal;
  }

  lemma SelectMeans(w: Workspace, v: Workspace)
    requires Valid(w) && HasPath(w.files, v.activeFile)
    requires v == w.(revision := w.revision + 1, activeFile := v.activeFile)
    ensures Valid(v) && forall p :: At(v, p) == At(w, p)
  {
    hide IsNormal;
  }

  /** When each mutation succeeds on a valid workspace. */
  ghost predicate Succeeds(w: Workspace, m: Mutation) {
    match m
    case Create(raw, _) => NormalizePath(raw).Ok? && At(w, NormalizePath(raw).value) == None
    case Update(raw, _) => NormalizePath(raw).Ok? && At(w, NormalizePath(raw).value).Some?
    case Rename(from, to) =>
      NormalizePath(from).Ok? && NormalizePath(to).Ok? && At(w, NormalizePath(from).value).Some? &&
      At(w, NormalizePath(to).value) == None
    case Delete(raw) => NormalizePath(raw).Ok? && At(w, NormalizePath(raw).value).Some? && |w.files| > 1
    case Select(raw) => NormalizePath(raw).Ok? && At(w, NormalizePath(raw).value).Some?
  }

  lemma MutationSucceedsExactly(locale: (string, string) -> bool, w: Workspace, m: Mutation)
    requires Valid(w)
    ensures Mutate(locale, w, m).Ok? <==> Succeeds(w, m)
  {
    hide FindFile, Replace, NormalizePath, FirstFile;
    if m.Delete? && NormalizePath(m.path).Ok? { RemoveKeepsOrder(w.files, NormalizePath(m.path).value); }
  }

  /** Deleting the active file activates the first of the others in the locale's order; deleting
      another leaves the active file alone. */
  lemma DeletionActivatesFirst(locale: (string, string) -> bool, w: Workspace, path: string, f: File)
    requires Preorder(locale) && Mutate(locale, w, Delete(path)).Ok?
    ensures var v := Mutate(locale, w, Delete(path)).value;
      if NormalizePath(path) == Ok(w.activeFile) then f in v.files ==> locale(v.activeFile, f.path)
      else v.activeFile == w.activeFile
  {
    hide NormalizePath, Remove;
    var files := Mutate(locale, w, Delete(path)).value.files;
    var leq := (a: File, b: File) => locale(a.path, b.path);
    assert Preorder(leq) by {
      forall a, b ensures leq(a, b) || leq(b, a) { assert locale(a.path, b.path) || locale(b.path, a.path); }
      forall a, b, c | leq(a, b) && leq(b, c) ensures leq(a, c) {
        assert locale(a.path, b.path) && locale(b.path, c.path);
      }
    }
    SortBySorted(leq, files);
    var sorted := SortBy(leq, files);
    if f in files {
      var i :| 0 <= i < |sorted| && sorted[i] == f;
      assert i > 0 ==> leq(sorted[0], sorted[i]);
      assert locale(f.path, f.path);
    }
    assert FirstFile(locale, files) == sorted[0];
  }

  // ----- the stored record -----

  function FileRecord(f: File): Json.Value {
    Json.Obj([Json.Member("path", Json.Str(f.path)), Json.Member("content", Json.Str(f.content)),
              Json.Member("version", Json.Int(f.version))])
  }

  /** The record the object store keeps: the workspace itself, metadata only when it is there. */
  function ToRecord(w: Workspace): Json.Value {
    Json.Obj([Json.Member("schemaVersion", Json.Int(1)), Json.Member("id", Json.Str(w.id)),
              Json.Member("revision", Json.Int(w.revision)),
              Json.Member("files", Json.Arr(Mapped(FileRecord, w.files))),
              Json.Member("activeFile", Json.Str(w.activeFile))] +
             if w.metadata.Some? then [Json.Member("metadata", w.metadata.value)] else [])
  }

  function Keys(ms: seq<Json.Member>): set<string> { set i | 0 <= i < |ms| :: ms[i].key }

  /** Objects have distinct keys, so the count settles it. */
  predicate HasExactKeys(v: Json.Value, expected: set<string>) {
    v.Obj? && |v.members| == |expected| && Keys(v.members) == expected
  }

  predicate IsPositiveInteger(v: Option<Json.Value>) { v.Some? && v.value.Int? && v.value.whole > 0 }

  predicate IsString(v: Option<Json.Value>) { v.Some? && v.value.Str? }

  function ParseFile(v: Json.Value): Outcome<File> {
    var path, content, version := Json.Get(v, "path"), Json.Get(v, "content"), Json.Get(v, "version");
    if !HasExactKeys(v, {"path", "content", "version"}) || !IsString(path) || !IsString(content) ||
       !IsPositiveInteger(version)
    then Err(Invalid)
    else
      match NormalizePath(path.value.text)
      case Ok(normalized) => Ok(File(normalized, content.value.text, version.value.whole))
      case Err(e) => Err(e)
  }

  function ParseFiles(items: seq<Json.Value>): Outcome<seq<File>> {
    if items == [] then Ok([])
    else
      match (ParseFile(items[0]), ParseFiles(items[1..]))
      case (Ok(f), Ok(rest)) => Ok([f] + rest)
      case _ => Err(Invalid)
  }

  function ParseRecord(v: Json.Value): Outcome<Workspace> {
    var id, revision, files, active :=
      Json.Get(v, "id"), Json.Get(v, "revision"), Json.Get(v, "files"), Json.Get(v, "activeFile");
    if !v.Obj? then Err(Invalid)
    else if Json.Get(v, "schemaVersion").Some? && Json.Get(v, "schemaVersion").value != Json.Int(1) then
      Err(Incompatible)
    else if !HasExactKeys(v, {"schemaVersion", "id", "revision", "files", "activeFile"}) then Err(Invalid)
    else if !IsString(id) || id.value.text == "" || !IsPositiveInteger(revision) || files.None? || !files.value.Arr? ||
       files.value.items == [] || !IsString(active)
    then Err(Invalid)
    else
      match (ParseFiles(files.value.items), NormalizePath(active.value.text))
      case (Ok(parsed), Ok(activeFile)) =>
        if |set f | f in parsed :: f.path| != |parsed| || !HasPath(parsed, activeFile) then Err(Invalid)
        else Ok(Workspace(id.value.text, revision.value.whole, parsed, activeFile, None))
      case _ => Err(Invalid)
  }

  // ----- runs stay storable -----

  /** Every mutation that succeeds along a batch counts once, and the workspace stays valid. */
  lemma {:induction false} BatchKeepsValid(locale: (string, string) -> bool, w: Workspace, ms: seq<Mutation>)
    requires Valid(w) && MutateBatch(locale, w, ms).Ok?
    ensures var v := MutateBatch(locale, w, ms).value;
      Valid(v) && v.revision == w.revision + |ms| && v.id == w.id && v.metadata == w.metadata
    decreases |ms|
  {
    hide Valid, Mutate, At, Expected;
    if ms != [] {
      MutationMeans(locale, w, ms[0]);
      BatchKeepsValid(locale, Mutate(locale, w, ms[0]).value, ms[1..]);
    }
  }

  lemma FileRecordGets(f: File)
    ensures var r := FileRecord(f);
      Json.Get(r, "path") == Some(Json.Str(f.path)) && Json.Get(r, "content") == Some(Json.Str(f.content)) &&
      Json.Get(r, "version") == Some(Json.Int(f.version)) && HasExactKeys(r, {"path", "content", "version"})
  {
    var ms := FileRecord(f).members;
    assert "path"[0] == 'p' && "content"[0] == 'c' && "version"[0] == 'v';
    assert Json.Find(ms[1..][1..], "version") == Some(Json.Int(f.version));
    assert Json.Find(ms[1..], "content") == Some(Json.Str(f.content));
    assert Json.Find(ms[1..], "version") == Some(Json.Int(f.version));
    assert ms[0].key == "path" && ms[1].key == "content" && ms[2].key == "version";
    assert Keys(ms) == {"path", "content", "version"};
  }

  /** A file is read back as it was written exactly when its path is normal and its version positive. */
  lemma FileRoundTrip(f: File)
    ensures ParseFile(FileRecord(f)) == Ok(f) <==> ValidFile(f)
  {
    hide IsNormal, NormalizePath, Json.Get, HasExactKeys, FileRecord;
    FileRecordGets(f);
    NormalizeIdempotent(f.path);
  }

  lemma {:induction false} FilesRoundTrip(files: seq<File>)
    ensures ParseFiles(Mapped(FileRecord, files)) == Ok(files) <==> forall i :: 0 <= i < |files| ==> ValidFile(files[i])
  {
    hide ParseFile, FileRecord, ValidFile;
    if files != [] {
      FileRoundTrip(files[0]);
      FilesRoundTrip(files[1..]);
      var records := Mapped(FileRecord, files);
      assert records[1..] == Mapped(FileRecord, files[1..]);
      assert files == [files[0]] + files[1..];
      assert (forall i :: 0 <= i < |files| ==> ValidFile(files[i])) <==>
        (ValidFile(files[0]) && forall i :: 0 <= i < |files[1..]| ==> ValidFile(files[1..][i])) by {
        assert forall i :: 0 < i < |files| ==> files[i] == files[1..][i - 1];
      }
    }
  }

  lemma RecordKeysDiffer()
    ensures NoDuplicates(["schemaVersion", "id", "revision", "files", "activeFile", "metadata"])
  {
    assert "schemaVersion"[0] == 's' && "id"[0] == 'i' && "revision"[0] == 'r' && "files"[0] == 'f';
    assert "activeFile"[0] == 'a' && "metadata"[0] == 'm';
  }

  lemma RecordGets(w: Workspace)
    ensures var r := ToRecord(w);
      Json.Get(r, "schemaVersion") == Some(Json.Int(1)) && Json.Get(r, "id") == Some(Json.Str(w.id)) &&
      Json.Get(r, "revision") == Some(Json.Int(w.revision)) &&
      Json.Get(r, "files") == Some(Json.Arr(Mapped(FileRecord, w.files))) &&
      Json.Get(r, "activeFile") == Some(Json.Str(w.activeFile))
  {
    hide Json.Find, FileRecord;
    var ms, names := ToRecord(w).members, ["schemaVersion", "id", "revision", "files", "activeFile", "metadata"];
    RecordKeysDiffer();
    assert forall i :: 0 <= i < |ms| ==> ms[i].key == names[i];
    assert Json.DistinctKeys(ms);
    Json.FindIs(ms, 0);
    Json.FindIs(ms, 1);
    Json.FindIs(ms, 2);
    Json.FindIs(ms, 3);
    Json.FindIs(ms, 4);
  }

  /** The metadata key is one too many. */
  lemma RecordKeys(w: Workspace)
    ensures HasExactKeys(ToRecord(w), {"schemaVersion", "id", "revision", "files", "activeFile"}) <==> w.metadata.None?
  {
    hide FileRecord;
    RecordKeysDiffer();
    var ms := ToRecord(w).members;
    var expected := {"schemaVersion", "id", "revision", "files", "activeFile"};
    FiveNames();
    if w.metadata.None? {
      assert ms[0].key == "schemaVersion" && ms[1].key == "id" && ms[2].key == "revision" && ms[3].key == "files" &&
        ms[4].key == "activeFile";
      assert Keys(ms) == expected;
    }
  }

  lemma FiveNames()
    ensures |{"schemaVersion", "id", "revision", "files", "activeFile"}| == 5
  {
    RecordKeysDiffer();
    var names := ["schemaVersion", "id", "revision", "files", "activeFile", "metadata"];
    assert names[0] != names[1] && names[0] != names[2] && names[0] != names[3] && names[0] != names[4];
    assert names[1] != names[2] && names[1] != names[3] && names[1] != names[4];
    assert names[2] != names[3] && names[2] != names[4] && names[3] != names[4];
  }

  lemma PathCount(files: seq<File>)
    ensures |set f | f in files :: f.path| == |files| <==> DistinctPaths(files)
  {
    var paths := Mapped(PathOf, files);
    DistinctCount(paths);
    SamePaths(files);
    assert NoDuplicates(paths) ==> DistinctPaths(files) by {
      if NoDuplicates(paths) {
        forall i, j | 0 <= i < j < |files| ensures files[i].path != files[j].path { assert paths[i] != paths[j]; }
      }
    }
    assert DistinctPaths(files) ==> NoDuplicates(paths);
  }

  function PathOf(f: File): string { f.path }

  lemma SamePaths(files: seq<File>)
    ensures (set f | f in files :: f.path) == (set p | p in Mapped(PathOf, files))
  {
    var paths := Mapped(PathOf, files);
    forall p | p in paths ensures p in set f | f in files :: f.path {
      var i :| 0 <= i < |paths| && paths[i] == p;
      assert files[i] in files;
    }
    forall f | f in files ensures f.path in paths {
      var i :| 0 <= i < |files| && files[i] == f;
      assert paths[i] == f.path;
    }
  }

  /** The stored record of a workspace is accepted and read back unchanged exactly when the
      workspace is valid and carries no metadata. */
  lemma RecordRoundTrip(w: Workspace)
    ensures ParseRecord(ToRecord(w)) == Ok(w) <==> Valid(w) && w.metadata == None
  {
    hide ToRecord, FileRecord, ParseFiles, HasExactKeys, Json.Get, NormalizePath, IsNormal, ValidFile, DistinctPaths,
      HasPath;
    RecordGets(w);
    RecordKeys(w);
    FilesRoundTrip(w.files);
    NormalizeIdempotent(w.activeFile);
    PathCount(w.files);
    assert Mapped(FileRecord, w.files) == [] <==> w.files == [];
    assert Valid(w) ==> IsNormal(w.activeFile) by { if Valid(w) { ActiveIsNormal(w); } }
    assert ToRecord(w).Obj? by { GetMeansObject(ToRecord(w), "id"); }
  }

  /** Metadata is written but not allowed by the reader: this valid workspace is stored and refused. */
  lemma MetadataIsNotReadBack(metadata: Json.Value)
    ensures var w := Workspace("w", 1, [File("main.mdl", "", 1)], "main.mdl", Some(metadata));
      Valid(w) && ParseRecord(ToRecord(w)) == Err(Invalid)
  {
    var w := Workspace("w", 1, [File("main.mdl", "", 1)], "main.mdl", Some(metadata));
    hide ToRecord, HasExactKeys, Json.Get, Json.Find;
    MainIsNormal();
    assert HasPath(w.files, "main.mdl") by { assert w.files[0].path == "main.mdl"; }
    assert Valid(w);
    RecordGets(w);
    RecordKeys(w);
    assert ToRecord(w).Obj? by { GetMeansObject(ToRecord(w), "id"); }
  }

  lemma MainIsNormal()
    ensures IsNormal("main.mdl")
  {
    hide Split, HasScheme, IndexOf;
    var path := "main.mdl";
    Unsplit(path, '/');
    NoScheme(path);
    assert forall c :: c in path ==> IsAsciiLetter(c) || c == '.';
    assert path[|path| - 4..] == ".mdl";
    assert Split(path, '/')[0][0] == 'm';
  }

  lemma Unsplit(s: string, c: char)
    requires c !in s
    ensures Split(s, c) == [s]
  {
  }

  lemma NoScheme(s: string)
    requires ':' !in s
    ensures !HasScheme(s)
  {
  }

  lemma GetMeansObject(v: Json.Value, key: string)
    requires Json.Get(v, key).Some?
    ensures v.Obj?
  {
  }

  lemma ActiveIsNormal(w: Workspace)
    requires Valid(w)
    ensures IsNormal(w.activeFile)
  {
    hide IsNormal;
    var i :| 0 <= i < |w.files| && w.files[i].path == w.activeFile;
    assert ValidFile(w.files[i]);
  }

  /** From a valid workspace without metadata, whatever a batch of mutations leads to can be stored
      and is read back as it is, its revision advanced once per mutation. */
  lemma RunsStayStorable(locale: (string, string) -> bool, w: Workspace, ms: seq<Mutation>)
    requires Valid(w) && w.metadata == None && MutateBatch(locale, w, ms).Ok?
    ensures var v := MutateBatch(locale, w, ms).value;
      ParseRecord(ToRecord(v)) == Ok(v) && v.revision == w.revision + |ms|
  {
    hide Valid, MutateBatch, ParseRecord, ToRecord;
    BatchKeepsValid(locale, w, ms);
    RecordRoundTrip(MutateBatch(locale, w, ms).value);
  }

  // ----- which paths are safe -----

  /** A segment that names a file or folder. */
  predicate OrdinarySegment(segment: string) {
    segment != "" && segment != "." && segment != ".." && '/' !in segment
  }

  ghost predicate MadeOf(s: string, segments: seq<string>) {
    segments != [] && s == Join(segments, '/') && forall i :: 0 <= i < |segments| ==> OrdinarySegment(segments[i])
  }

  /** A scheme is a letter followed by letters, digits, `+`, `.` and `-`. */
  ghost predicate IsScheme(s: string) {
    s != "" && IsAsciiLetter(s[0]) && forall i :: 0 <= i < |s| ==> IsAsciiLetter(s[i]) || IsDigit(s[i]) || s[i] in "+.-"
  }

  lemma SchemeMeans(s: string)
    ensures HasScheme(s) <==> exists scheme, rest :: IsScheme(scheme) && s == scheme + [':'] + rest
  {
    if HasScheme(s) {
      var colon := IndexOf(s, ':');
      assert s == s[..colon] + [':'] + s[colon + 1..];
      assert IsScheme(s[..colon]);
    }
    if scheme, rest :| IsScheme(scheme) && s == scheme + [':'] + rest {
      assert ':' !in scheme;
      FirstSeparator(scheme, ':', rest);
      assert forall i :: 0 <= i < |scheme| ==> s[i] == scheme[i];
    }
  }

  /** Letters are those of ASCII, by code point. */
  lemma LettersAre(c: char)
    ensures IsAsciiLetter(c) <==> 65 <= c as int <= 90 || 97 <= c as int <= 122
  {
  }

  /** Control characters: those of C0 and C1 and the marks that change the direction of text. */
  lemma ControlsAre()
    ensures IsControl('\U{0000}') && IsControl('\U{001f}') && !IsControl('\U{0020}')
    ensures !IsControl('\U{007e}') && IsControl('\U{007f}') && IsControl('\U{009f}') && !IsControl('\U{00a0}')
    ensures !IsControl('\U{2029}') && IsControl('\U{202a}') && IsControl('\U{202e}') && !IsControl('\U{202f}')
    ensures !IsControl('\U{2065}') && IsControl('\U{2066}') && IsControl('\U{2069}') && !IsControl('\U{206a}')
  {
  }

  /** A path is safe exactly if it is made of ordinary segments, none of them empty, `.` or `..`, ends in
      `.mdl`, starts with no scheme and holds no control character. */
  lemma SafeMeans(s: string)
    ensures IsSafe(s) <==>
      && (exists segments :: MadeOf(s, segments))
      && (exists stem :: s == stem + ".mdl")
      && !(exists scheme, rest :: IsScheme(scheme) && s == scheme + [':'] + rest)
      && !(exists c :: c in s && IsControl(c))
  {
    hide HasScheme, IsScheme, Split, Join, IsControl;
    SchemeMeans(s);
    JoinOfSplit(s, '/');
    MdlMeans(s);
    assert (exists c :: c in s && IsControl(c)) <==> exists i :: 0 <= i < |s| && IsControl(s[i]);
    if IsSafe(s) {
      var segments := Split(s, '/');
      assert MadeOf(s, segments);
    }
    if segments :| MadeOf(s, segments) {
      forall i | 0 <= i < |segments| ensures '/' !in segments[i] { assert OrdinarySegment(segments[i]); }
      SplitOfJoin(segments, '/');
      FirstOfJoin(segments);
    }
  }

  lemma FirstOfJoin(segments: seq<string>)
    requires segments != [] && OrdinarySegment(segments[0])
    ensures Join(segments, '/') != "" && Join(segments, '/')[0] != '/'
  {
    assert segments[0][0] in segments[0];
  }

  lemma MdlMeans(s: string)
    ensures EndsInMdl(s) <==> exists stem :: s == stem + ".mdl"
  {
    if EndsInMdl(s) { assert s == s[..|s| - 4] + ".mdl"; }
    if stem :| s == stem + ".mdl" { assert s[|s| - 4..] == ".mdl"; }
  }

  /** Backslashes are read as slashes, and nothing else about a path is changed. */
  lemma NormalizeMeans(path: string, normal: string)
    ensures NormalizePath(path) == Ok(normal) <==>
      IsSafe(normal) && |normal| == |path| &&
      forall i :: 0 <= i < |path| ==> normal[i] == if path[i] == '\\' then '/' else path[i]
  {
    hide IsSafe;
    if |normal| == |path| && forall i :: 0 <= i < |path| ==> normal[i] == if path[i] == '\\' then '/' else path[i] {
      assert normal == Slashes(path);
    }
  }

  // ----- where files stand and which is active -----

  function Paths(files: seq<File>): (r: seq<string>)
    ensures |r| == |files| && forall i :: 0 <= i < |files| ==> r[i] == files[i].path
  {
    seq(|files|, i requires 0 <= i < |files| => files[i].path)
  }

  /** A created file comes last and becomes active; updating keeps every file in its place; a renamed file
      keeps its place and stays active; selecting changes nothing but the active file. */
  lemma PlacesAfter(locale: (string, string) -> bool, w: Workspace, m: Mutation)
    requires Valid(w) && Mutate(locale, w, m).Ok?
    ensures var v := Mutate(locale, w, m).value;
      match m
      case Create(raw, _) =>
        var path := NormalizePath(raw).value;
        Paths(v.files) == Paths(w.files) + [path] && v.activeFile == path
      case Update(_, _) => Paths(v.files) == Paths(w.files) && v.activeFile == w.activeFile
      case Rename(from, to) =>
        var a, b := NormalizePath(from).value, NormalizePath(to).value;
        Paths(v.files) == Mapped(path => if path == a then b else path, Paths(w.files)) &&
        v.activeFile == if w.activeFile == a then b else w.activeFile
      case Delete(raw) => Paths(v.files) == Others(Paths(w.files), NormalizePath(raw).value)
      case Select(raw) => v.files == w.files && v.activeFile == NormalizePath(raw).value
  {
    hide NormalizePath;
    match m
    case Delete(raw) => RemovedPaths(w.files, NormalizePath(raw).value);
    case _ =>
  }

  /** The texts other than this one, in their order. */
  function Others(paths: seq<string>, path: string): seq<string> {
    if paths == [] then []
    else (if paths[0] == path then [] else [paths[0]]) + Others(paths[1..], path)
  }

  lemma PathsCons(f: File, rest: seq<File>)
    ensures Paths([f] + rest) == [f.path] + Paths(rest)
  {
  }

  lemma {:induction false} RemovedPaths(files: seq<File>, path: string)
    ensures Paths(Remove(files, path)) == Others(Paths(files), path)
  {
    hide Paths;
    if files == [] {
      assert Paths([]) == [] by { NoPaths(); }
    } else {
      RemovedPaths(files[1..], path);
      assert files == [files[0]] + files[1..];
      PathsCons(files[0], files[1..]);
      PathsCons(files[0], Remove(files[1..], path));
      OthersCons(files[0].path, Paths(files[1..]), path);
    }
  }

  lemma NoPaths()
    ensures Paths([]) == []
  {
  }

  lemma OthersCons(first: string, rest: seq<string>, path: string)
    ensures Others([first] + rest, path) == if first == path then Others(rest, path) else [first] + Others(rest, path)
  {
    assert ([first] + rest)[1..] == rest && [] + Others(rest, path) == Others(rest, path);
  }

  // ----- the keys of records -----

  /** The names of an object's members are exactly these. */
  ghost predicate HasKeys(v: Json.Value, expected: set<string>) {
    v.Obj? && forall key :: key in expected <==> exists m :: m in v.members && m.key == key
  }

  function KeyOf(m: Json.Member): string { m.key }

  lemma ExactKeysMean(v: Json.Value, expected: set<string>)
    requires v.Obj? ==> Json.DistinctKeys(v.members)
    ensures HasExactKeys(v, expected) <==> HasKeys(v, expected)
  {
    if v.Obj? {
      DistinctKeyCount(v.members);
      forall key ensures key in Keys(v.members) <==> exists m :: m in v.members && m.key == key {
        KeyNamed(v.members, key);
      }
      assert HasKeys(v, expected) <==> forall key :: key in expected <==> key in Keys(v.members);
      if HasKeys(v, expected) { assert Keys(v.members) == expected; }
    }
  }

  lemma KeyNamed(ms: seq<Json.Member>, key: string)
    ensures key in Keys(ms) <==> exists m :: m in ms && m.key == key
  {
    if m :| m in ms && m.key == key { var i :| 0 <= i < |ms| && ms[i] == m; }
  }

  lemma DistinctKeyCount(ms: seq<Json.Member>)
    requires Json.DistinctKeys(ms)
    ensures |Keys(ms)| == |ms|
  {
    var names := Mapped(KeyOf, ms);
    DistinctCount(names);
    assert NoDuplicates(names);
    forall key ensures key in Keys(ms) <==> key in names {
      if key in Keys(ms) {
        var i :| 0 <= i < |ms| && ms[i].key == key;
        assert names[i] == key;
      }
    }
    assert Keys(ms) == set x | x in names;
  }

  /** A record with a member too many or too few is never read, and neither is one whose files have one. */
  lemma ReadRecordsHaveTheirKeys(v: Json.Value, w: Workspace)
    requires Json.WellFormed(v) && ParseRecord(v) == Ok(w)
    ensures HasKeys(v, {"schemaVersion", "id", "revision", "files", "activeFile"})
    ensures Json.Get(v, "schemaVersion") == Some(Json.Int(1)) && Json.Get(v, "id") == Some(Json.Str(w.id))
    ensures Json.Get(v, "revision") == Some(Json.Int(w.revision)) && w.revision > 0 && w.id != "" && w.metadata == None
  {
    hide Json.Get, ParseFiles, NormalizePath, HasKeys;
    ExactKeysMean(v, {"schemaVersion", "id", "revision", "files", "activeFile"});
    SchemaVersionPresent(v);
  }

  lemma SchemaVersionPresent(v: Json.Value)
    ensures HasKeys(v, {"schemaVersion", "id", "revision", "files", "activeFile"}) ==>
      Json.Get(v, "schemaVersion").Some?
  {
    if HasKeys(v, {"schemaVersion", "id", "revision", "files", "activeFile"}) {
      var m :| m in v.members && m.key == "schemaVersion";
      var i :| 0 <= i < |v.members| && v.members[i] == m;
      assert Json.Get(v, "schemaVersion") == Json.Find(v.members, "schemaVersion");
    }
  }

  lemma ReadFilesHaveTheirKeys(v: Json.Value, f: File)
    requires Json.WellFormed(v) && ParseFile(v) == Ok(f)
    ensures HasKeys(v, {"path", "content", "version"}) && Json.Get(v, "content") == Some(Json.Str(f.content))
    ensures Json.Get(v, "version") == Some(Json.Int(f.version)) && f.version > 0
    ensures exists path :: Json.Get(v, "path") == Some(Json.Str(path)) && NormalizePath(path) == Ok(f.path)
  {
    hide Json.Get, NormalizePath, HasKeys;
    ExactKeysMean(v, {"path", "content", "version"});
  }
}
