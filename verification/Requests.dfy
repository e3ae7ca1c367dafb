/** The checks a request passes before it touches a file, in the order they are made. */
module Requests {
  import opened Prelude
  import opened Paths
  import opened Pointer
  import opened Worktree
  import opened Dirtiness
  import opened AutoCommit
  import opened Subtrees

  /** `is_git_internal`. */
  predicate IsGitInternal(path: string)
  {
    path == ".git" || ".git/" <= path || ".git\\" <= path
  }

  /** Unicode white space, as `str::trim` sees it. */
  predicate IsWhiteSpace(ch: char)
  {
    var n := ch as int;
    9 <= n <= 13 || n == 32 || n == 0x85 || n == 0xA0 || n == 0x1680 || 0x2000 <= n <= 0x200A
    || n == 0x2028 || n == 0x2029 || n == 0x202F || n == 0x205F || n == 0x3000
  }

  /** Component by component: no "..", no name above 255 bytes. */
  function CheckComponents(cs: Path): Option<Error>
  {
    if cs == [] then None
    else if cs[0] == ".." then Some(PermissionDenied)
    else if |Utf8(cs[0])| > 255 then Some(NameTooLong)
    else CheckComponents(cs[1..])
  }

  function TrimSlashes(s: string): string
    decreases |s|
  {
    if s != "" && s[0] == '/' then TrimSlashes(s[1..])
    else if s != "" && s[|s| - 1] == '/' then TrimSlashes(s[..|s| - 1])
    else s
  }

  /** `validate_path`, below a root directory whose path has `rootLength` bytes. */
  function ValidatePath(rootLength: nat, path: string): Option<Error>
  {
    if 0 as char in path then Some(InvalidArgument)
    else if CheckComponents(Split(path)).Some? then CheckComponents(Split(path))
    else if TrimSlashes(path) == "." || TrimSlashes(path) == ".." then Some(InvalidArgument)
    else if path != "" && forall ch | ch in path :: IsWhiteSpace(ch) then Some(InvalidArgument)
    else if rootLength + (if path == "" then 0 else 1 + |Utf8(path)|) > 4096 then Some(NameTooLong)
    else None
  }

  function ValidateFilePath(rootLength: nat, path: string): Option<Error>
  {
    if path == "" then Some(InvalidArgument) else ValidatePath(rootLength, path)
  }

  /** Strings the operating system would not take to a file of the working directory:
      absolute ones leave the root, and a final "" or "." asks for a directory. */
  predicate NamesNoFile(path: string)
  {
    var last := Split(path)[|Split(path)| - 1];
    (path != "" && path[0] == '/') || last == "" || last == "."
  }

  /** A file or link stands where the path needs a directory. */
  predicate ThroughLeaf(n: Node, cs: Path)
  {
    exists k | 0 <= k < |cs| :: LeafAt(n, cs[..k]).Some?
  }

  /** What the operating system says about a path under which there is nothing. */
  function Missing(n: Node, cs: Path): Error
  {
    if ThroughLeaf(n, cs) then Io else NotFound
  }

  /** Everything `write_file` checks; the components it writes to if all is well. The
      operating system refuses last, after a large content was stored as a blob. */
  function CheckWrite(c: Config, rootLength: nat, work: Node, path: string): Result<Path>
  {
    var cs := Resolve(Split(path));
    if c.readOnly then Err(PermissionDenied)
    else if ValidateFilePath(rootLength, path).Some? then Err(ValidateFilePath(rootLength, path).value)
    else if IsGitInternal(path) then Err(PermissionDenied)
    else if Lookup(work, cs).Some? && Lookup(work, cs).value.Dir? then Err(IsADirectory)
    else if cs == [] || Lookup(work, cs[..|cs| - 1]).None? then Err(NotFound)
    else if NamesNoFile(path) || !CanWrite(work, cs) then Err(Io)
    else Ok(cs)
  }

  /** Everything `read_file` checks. */
  function CheckRead(rootLength: nat, work: Node, path: string): Result<Path>
  {
    var cs := Resolve(Split(path));
    if ValidateFilePath(rootLength, path).Some? then Err(ValidateFilePath(rootLength, path).value)
    else if IsGitInternal(path) then Err(PermissionDenied)
    else if Lookup(work, cs).Some? && Lookup(work, cs).value.Dir? then Err(IsADirectory)
    else if Lookup(work, cs).None? then Err(Missing(work, cs))
    else if NamesNoFile(path) || !Lookup(work, cs).value.File? then Err(Io)
    else Ok(cs)
  }

  /** Everything `delete_file` checks, and what the operating system refuses. */
  function CheckDelete(c: Config, rootLength: nat, work: Node, path: string): Result<Path>
  {
    var cs := Resolve(Split(path));
    if c.readOnly then Err(PermissionDenied)
    else if ValidateFilePath(rootLength, path).Some? then Err(ValidateFilePath(rootLength, path).value)
    else if IsGitInternal(path) then Err(PermissionDenied)
    else if Lookup(work, cs).None? then Err(Missing(work, cs))
    else if NamesNoFile(path) || Lookup(work, cs).value.Dir? then Err(Io)
    else Ok(cs)
  }

  /** The last component, a trailing slash or more set aside. */
  function LastName(cs: Path): string
    decreases |cs|
  {
    if cs == [] then "" else if cs[|cs| - 1] == "" then LastName(cs[..|cs| - 1]) else cs[|cs| - 1]
  }

  /** Strings that do not name a directory below the root for a rename. */
  predicate NamesNoDir(path: string)
  {
    (path != "" && path[0] == '/') || LastName(Split(path)) == "."
  }

  /** What stops the directory `cs` from being renamed to `ds`: first a directory there
      that is not empty, then the operating system. */
  function CheckMoveDir(work: Node, from: string, to: string, cs: Path, ds: Path): Option<Error>
    requires Lookup(work, cs).Some?
  {
    var target := Lookup(work, ds);
    if ds == [] || (target.Some? && target.value.Dir? && exists name | name in target.value.children :: name != GITKEEP)
    then Some(DirectoryNotEmpty)
    else if NamesNoDir(from) || NamesNoDir(to) || cs == [] then Some(Io)
    else if cs != ds && !CanMove(work, cs, ds) then Some(Io)
    else None
  }

  /** Everything `rename` checks, and what the operating system refuses. */
  function CheckRename(c: Config, rootLength: nat, work: Node, from: string, to: string): Result<(Path, Path)>
  {
    var cs, ds := Resolve(Split(from)), Resolve(Split(to));
    if c.readOnly then Err(PermissionDenied)
    else if ValidateFilePath(rootLength, from).Some? then Err(ValidateFilePath(rootLength, from).value)
    else if ValidatePath(rootLength, to).Some? then Err(ValidatePath(rootLength, to).value)
    else if Lookup(work, cs).None? || (NamesNoFile(from) && !Lookup(work, cs).value.Dir?) then Err(NotFound)
    else if Lookup(work, cs).value.Dir? then
      (match CheckMoveDir(work, from, to, cs, ds)
       case Some(error) => Err(error)
       case None => Ok((cs, ds)))
    else if NamesNoFile(from) || NamesNoFile(to) || ds == [] || (cs != ds && !CanMove(work, cs, ds)) then Err(Io)
    else Ok((cs, ds))
  }

  lemma {:induction false} CheckedComponents(cs: Path)
    requires CheckComponents(cs).None? && forall i | 0 <= i < |cs| :: '/' !in cs[i]
    ensures ValidPath(Resolve(cs))
  {
    if cs != [] {
      CheckedComponents(cs[1..]);
    }
  }

  /** What passes validation resolves to names a directory can hold. */
  lemma ValidatedPath(rootLength: nat, path: string)
    requires ValidatePath(rootLength, path).None?
    ensures ValidPath(Resolve(Split(path)))
  {
    SplitPieces(path);
    CheckedComponents(Split(path));
  }

  lemma LeadingSlash(path: string)
    ensures path != "" && path[0] == '/' ==> Split(path)[0] == ""
  {
  }

  /** A canonical string names exactly the components it is made of. */
  lemma CanonicalResolves(path: string)
    requires Canonical(path)
    ensures Resolve(Split(path)) == Split(path) && Join(Split(path)) == path && !NamesNoFile(path)
  {
    ResolveValid(Split(path));
    JoinSplit(path);
    LeadingSlash(path);
  }

  // ----- which requests are accepted ------------------------------------------------------------------

  lemma {:induction false} CheckComponentsIff(cs: Path)
    ensures CheckComponents(cs).None? <==> forall i | 0 <= i < |cs| :: cs[i] != ".." && |Utf8(cs[i])| <= 255
    decreases |cs|
  {
    if cs != [] {
      CheckComponentsIff(cs[1..]);
      if CheckComponents(cs).None? {
        forall i | 0 <= i < |cs| ensures cs[i] != ".." && |Utf8(cs[i])| <= 255 {
          if i > 0 {
            assert cs[i] == cs[1..][i - 1];
          }
        }
      }
    }
  }

  /** No NUL, no name above 255 bytes, not only white space, no path above 4096 bytes. */
  predicate Permitted(rootLength: nat, path: string)
  {
    && 0 as char !in path && (forall i | 0 <= i < |Split(path)| :: |Utf8(Split(path)[i])| <= 255)
    && (exists i | 0 <= i < |path| :: !IsWhiteSpace(path[i])) && rootLength + 1 + |Utf8(path)| <= 4096
  }

  lemma CanonicalEnds(path: string)
    requires Canonical(path)
    ensures path != "" && path[0] != '/' && path[|path| - 1] != '/' && TrimSlashes(path) == path && path != "." && path != ".."
  {
    SplitPlain(".");
    SplitPlain("..");
    LeadingSlash(path);
    if path != "" && path[|path| - 1] == '/' {
      TrailingSlash(path);
    }
  }

  lemma {:induction false} TrailingSlash(path: string)
    requires path != "" && path[|path| - 1] == '/'
    ensures Split(path)[|Split(path)| - 1] == ""
    decreases |path|
  {
    if |path| > 1 {
      TrailingSlash(path[1..]);
    } else {
      assert path[1..] == "";
    }
  }

  /** A canonical path passes validation exactly if it is permitted. */
  lemma CanonicalValidatedIff(rootLength: nat, path: string)
    requires Canonical(path)
    ensures ValidatePath(rootLength, path).None? <==> Permitted(rootLength, path)
    ensures ValidateFilePath(rootLength, path) == ValidatePath(rootLength, path)
  {
    CheckComponentsIff(Split(path));
    CanonicalEnds(path);
    if forall i | 0 <= i < |path| :: IsWhiteSpace(path[i]) {
      assert forall ch | ch in path :: IsWhiteSpace(ch);
    }
    if forall ch | ch in path :: IsWhiteSpace(ch) {
      assert forall i | 0 <= i < |path| :: path[i] in path;
    }
  }

  /** Nothing in the repository's own directory is asked for. */
  lemma GitInternalIff(path: string)
    requires Canonical(path)
    ensures IsGitInternal(path) <==> Split(path)[0] == ".git" || ".git\\" <= path
  {
    FirstComponentIff(path, ".git");
    SplitPlain(".git");
    if path == ".git" {
      assert Split(path)[0] == ".git";
    }
  }

  lemma WriteCheckIff(c: Config, rootLength: nat, work: Node, path: string, cs: Path)
    requires Resolve(Split(path)) == cs && cs != [] && !NamesNoFile(path)
    ensures CheckWrite(c, rootLength, work, path) == Ok(cs) <==>
            && !c.readOnly && ValidateFilePath(rootLength, path) == None && !IsGitInternal(path)
            && DirAt(work, cs[..|cs| - 1]) && (Lookup(work, cs).Some? ==> Lookup(work, cs).value.File?)
    ensures CheckWrite(c, rootLength, work, path).Ok? ==> CheckWrite(c, rootLength, work, path) == Ok(cs)
  {
  }

  lemma ReadCheckIff(rootLength: nat, work: Node, path: string, cs: Path)
    requires Resolve(Split(path)) == cs && cs != [] && !NamesNoFile(path)
    ensures CheckRead(rootLength, work, path) == Ok(cs) <==>
            && ValidateFilePath(rootLength, path) == None && !IsGitInternal(path) && Lookup(work, cs).Some? && Lookup(work, cs).value.File?
    ensures CheckRead(rootLength, work, path).Ok? ==> CheckRead(rootLength, work, path) == Ok(cs)
  {
  }

  lemma DeleteCheckIff(c: Config, rootLength: nat, work: Node, path: string, cs: Path)
    requires Resolve(Split(path)) == cs && cs != [] && !NamesNoFile(path)
    ensures CheckDelete(c, rootLength, work, path) == Ok(cs) <==>
            && !c.readOnly && ValidateFilePath(rootLength, path) == None && !IsGitInternal(path)
            && Lookup(work, cs).Some? && !Lookup(work, cs).value.Dir?
    ensures CheckDelete(c, rootLength, work, path).Ok? ==> CheckDelete(c, rootLength, work, path) == Ok(cs)
  {
  }

  /** A write through a canonical path is accepted, for exactly its own components, if and
      only if the backend is writable, the path is permitted and not internal, its directory
      exists, and a file or nothing is there. */
  lemma WriteAcceptedIff(c: Config, rootLength: nat, work: Node, path: string, cs: Path)
    requires Canonical(path) && cs == Split(path)
    ensures CheckWrite(c, rootLength, work, path) == Ok(cs) <==>
            && !c.readOnly && Permitted(rootLength, path) && cs[0] != ".git" && !(".git\\" <= path)
            && DirAt(work, cs[..|cs| - 1]) && (Lookup(work, cs).Some? ==> Lookup(work, cs).value.File?)
    ensures CheckWrite(c, rootLength, work, path).Ok? ==> CheckWrite(c, rootLength, work, path) == Ok(cs)
  {
    CanonicalResolves(path);
    AdmittedIff(rootLength, path);
    WriteCheckIff(c, rootLength, work, path, cs);
  }

  lemma AdmittedIff(rootLength: nat, path: string)
    requires Canonical(path)
    ensures ValidateFilePath(rootLength, path) == None && !IsGitInternal(path) <==>
            Permitted(rootLength, path) && Split(path)[0] != ".git" && !(".git\\" <= path)
  {
    CanonicalValidatedIff(rootLength, path);
    GitInternalIff(path);
  }

  /** A read exactly if the path is permitted, not internal and that of a file. */
  lemma ReadAcceptedIff(rootLength: nat, work: Node, path: string)
    requires Canonical(path)
    ensures CheckRead(rootLength, work, path) == Ok(Split(path)) <==>
            && Permitted(rootLength, path) && Split(path)[0] != ".git" && !(".git\\" <= path)
            && Lookup(work, Split(path)).Some? && Lookup(work, Split(path)).value.File?
    ensures CheckRead(rootLength, work, path).Ok? ==> CheckRead(rootLength, work, path) == Ok(Split(path))
  {
    CanonicalResolves(path);
    AdmittedIff(rootLength, path);
    ReadCheckIff(rootLength, work, path, Split(path));
  }

  /** A deletion exactly if besides the backend is writable; links can be deleted too. */
  lemma DeleteAcceptedIff(c: Config, rootLength: nat, work: Node, path: string)
    requires Canonical(path)
    ensures CheckDelete(c, rootLength, work, path) == Ok(Split(path)) <==>
            && !c.readOnly && Permitted(rootLength, path) && Split(path)[0] != ".git" && !(".git\\" <= path)
            && Lookup(work, Split(path)).Some? && !Lookup(work, Split(path)).value.Dir?
    ensures CheckDelete(c, rootLength, work, path).Ok? ==> CheckDelete(c, rootLength, work, path) == Ok(Split(path))
  {
    CanonicalResolves(path);
    AdmittedIff(rootLength, path);
    DeleteCheckIff(c, rootLength, work, path, Split(path));
  }

  lemma CanonicalNamesDir(path: string)
    requires Canonical(path)
    ensures !NamesNoDir(path)
  {
    CanonicalEnds(path);
    var ps := Split(path);
    assert ValidName(ps[|ps| - 1]);
  }

  lemma MoveDirAcceptedIff(work: Node, from: string, to: string, cs: Path, ds: Path)
    requires DirAt(work, cs) && cs != [] && ds != [] && !NamesNoDir(from) && !NamesNoDir(to)
    ensures CheckMoveDir(work, from, to, cs, ds).None? <==>
            if cs != ds then CanMove(work, cs, ds) else forall name | name in Lookup(work, cs).value.children :: name == ".gitkeep"
  {
    var target := Lookup(work, ds);
    assert GITKEEP == ".gitkeep";
    if target.Some? && target.value.Dir? && exists name | name in target.value.children :: name != GITKEEP {
      var name :| name in target.value.children && name != GITKEEP;
      assert target.value.children != map[];
      assert CheckMoveDir(work, from, to, cs, ds) == Some(DirectoryNotEmpty);
      assert cs != ds ==> !CanMove(work, cs, ds);
      assert cs == ds ==> name in Lookup(work, cs).value.children && name != ".gitkeep";
    }
  }

  /** A rename between canonical paths exactly if the backend is writable, both paths are
      permitted, and the entry can be moved, or is already there and is no directory with
      visible entries. */
  lemma RenameAcceptedIff(c: Config, rootLength: nat, work: Node, from: string, to: string)
    requires Canonical(from) && Canonical(to)
    ensures CheckRename(c, rootLength, work, from, to) == Ok((Split(from), Split(to))) <==>
            && !c.readOnly && Permitted(rootLength, from) && Permitted(rootLength, to) && Lookup(work, Split(from)).Some?
            && if from != to then CanMove(work, Split(from), Split(to))
               else var entry := Lookup(work, Split(from)).value;
                    entry.Dir? ==> forall name | name in entry.children :: name == ".gitkeep"
    ensures CheckRename(c, rootLength, work, from, to).Ok? ==>
              CheckRename(c, rootLength, work, from, to) == Ok((Split(from), Split(to)))
  {
    CanonicalResolves(from);
    CanonicalResolves(to);
    CanonicalValidatedIff(rootLength, from);
    CanonicalValidatedIff(rootLength, to);
    EntryRenameIff(c, rootLength, work, from, to);
    if DirAt(work, Split(from)) {
      CanonicalNamesDir(from);
      CanonicalNamesDir(to);
      MoveDirAcceptedIff(work, from, to, Split(from), Split(to));
    }
    SameComponents(from, to);
  }

  /** What is left to check once both paths are validated. */
  lemma EntryRenameIff(c: Config, rootLength: nat, work: Node, from: string, to: string)
    requires Resolve(Split(from)) == Split(from) && Resolve(Split(to)) == Split(to) && !NamesNoFile(from) && !NamesNoFile(to)
    ensures var cs, ds := Split(from), Split(to);
            CheckRename(c, rootLength, work, from, to) == Ok((cs, ds)) <==>
            && !c.readOnly && ValidateFilePath(rootLength, from).None? && ValidatePath(rootLength, to).None? && Lookup(work, cs).Some?
            && if Lookup(work, cs).value.Dir? then CheckMoveDir(work, from, to, cs, ds).None? else cs == ds || CanMove(work, cs, ds)
    ensures CheckRename(c, rootLength, work, from, to).Ok? ==>
              CheckRename(c, rootLength, work, from, to) == Ok((Split(from), Split(to)))
  {
  }

  lemma SameComponents(from: string, to: string)
    ensures from == to <==> Split(from) == Split(to)
  {
    JoinSplit(from);
    JoinSplit(to);
  }

  /** A path with a component ".." is refused by every request that takes a path, and a
      read-only backend refuses everything but reading. */
  lemma Refused(c: Config, rootLength: nat, work: Node, path: string, other: string)
    ensures ".." in Split(path) ==>
              && CheckWrite(c, rootLength, work, path).Err? && CheckRead(rootLength, work, path).Err?
              && CheckDelete(c, rootLength, work, path).Err? && CheckRename(c, rootLength, work, path, other).Err?
              && CheckRename(c, rootLength, work, other, path).Err?
    ensures c.readOnly ==>
              && CheckWrite(c, rootLength, work, path) == Err(PermissionDenied)
              && CheckDelete(c, rootLength, work, path) == Err(PermissionDenied)
              && CheckRename(c, rootLength, work, path, other) == Err(PermissionDenied)
  {
    CheckComponentsIff(Split(path));
  }

  /** The errors of validation, the first one found: a NUL, a component ".." or too long a
      name, only white space, too long a path. */
  lemma ValidationErrors(rootLength: nat, path: string)
    ensures 0 as char in path ==> ValidatePath(rootLength, path) == Some(InvalidArgument)
    ensures 0 as char !in path && ".." in Split(path) && (forall i | 0 <= i < |Split(path)| :: |Utf8(Split(path)[i])| <= 255) ==>
              ValidatePath(rootLength, path) == Some(PermissionDenied)
    ensures 0 as char !in path && ".." !in Split(path) && (exists i | 0 <= i < |Split(path)| :: |Utf8(Split(path)[i])| > 255) ==>
              ValidatePath(rootLength, path) == Some(NameTooLong)
  {
    ComponentErrors(Split(path));
  }

  lemma {:induction false} ComponentErrors(cs: Path)
    ensures ".." in cs && (forall i | 0 <= i < |cs| :: |Utf8(cs[i])| <= 255) ==> CheckComponents(cs) == Some(PermissionDenied)
    ensures ".." !in cs && (exists i | 0 <= i < |cs| :: |Utf8(cs[i])| > 255) ==> CheckComponents(cs) == Some(NameTooLong)
    decreases |cs|
  {
    if cs != [] {
      ComponentErrors(cs[1..]);
      assert cs == [cs[0]] + cs[1..];
      if forall i | 0 <= i < |cs| :: |Utf8(cs[i])| <= 255 {
        assert forall i | 0 <= i < |cs[1..]| :: cs[1..][i] == cs[i + 1];
      }
      if i :| 0 <= i < |cs| && |Utf8(cs[i])| > 255 {
        assert i > 0 ==> cs[1..][i - 1] == cs[i];
      }
    }
  }

  /** What a writable backend answers to a valid path where it cannot serve it. Internal
      paths are denied. */
  lemma InternalDenied(c: Config, rootLength: nat, work: Node, path: string)
    requires Canonical(path) && Permitted(rootLength, path) && !c.readOnly && Split(path)[0] == ".git"
    ensures CheckWrite(c, rootLength, work, path) == Err(PermissionDenied)
    ensures CheckRead(rootLength, work, path) == Err(PermissionDenied)
    ensures CheckDelete(c, rootLength, work, path) == Err(PermissionDenied)
  {
    CanonicalValidatedIff(rootLength, path);
    GitInternalIff(path);
  }

  /** Directories are no files. */
  lemma DirectoryAnswer(c: Config, rootLength: nat, work: Node, path: string)
    requires Canonical(path) && Permitted(rootLength, path) && !c.readOnly && !IsGitInternal(path) && DirAt(work, Split(path))
    ensures CheckWrite(c, rootLength, work, path) == Err(IsADirectory)
    ensures CheckRead(rootLength, work, path) == Err(IsADirectory)
    ensures CheckDelete(c, rootLength, work, path) == Err(Io)
  {
    CanonicalResolves(path);
    CanonicalValidatedIff(rootLength, path);
  }

  /** What is not there is not found, unless a file stands where a directory is needed; a
      write needs the directory only. */
  lemma MissingAnswer(c: Config, rootLength: nat, work: Node, path: string)
    requires Canonical(path) && Permitted(rootLength, path) && !c.readOnly && !IsGitInternal(path) && Lookup(work, Split(path)).None?
    ensures var error := if ThroughLeaf(work, Split(path)) then Io else NotFound;
            CheckRead(rootLength, work, path) == Err(error) && CheckDelete(c, rootLength, work, path) == Err(error)
    ensures Lookup(work, Split(path)[..|Split(path)| - 1]).None? ==> CheckWrite(c, rootLength, work, path) == Err(NotFound)
  {
    CanonicalResolves(path);
    CanonicalValidatedIff(rootLength, path);
    NothingThere(c, rootLength, work, path, Split(path));
  }

  lemma NothingThere(c: Config, rootLength: nat, work: Node, path: string, cs: Path)
    requires !c.readOnly && ValidateFilePath(rootLength, path) == None && !IsGitInternal(path) && Resolve(Split(path)) == cs
    requires Lookup(work, cs).None? && cs != []
    ensures CheckRead(rootLength, work, path) == Err(Missing(work, cs))
    ensures CheckDelete(c, rootLength, work, path) == Err(Missing(work, cs))
    ensures Lookup(work, cs[..|cs| - 1]).None? ==> CheckWrite(c, rootLength, work, path) == Err(NotFound)
  {
  }
}
