/**
 * The repository facade (class Repository in namespace Git): the root path and the
 * `.git` directory under it, the runner that executes commands, the commit message of
 * the workflow in progress, and a cache of resolver objects created on first use.
 *
 * The filesystem is a value handed in by the caller; the runner, the commit message
 * and the resolvers are objects whose insides are not modelled.
 */
module Git {
  import opened Wrappers

  /** DIRECTORY_SEPARATOR on POSIX systems. */
  const Sep: string := "/"

  /**
   * What the constructor and hookExists ask of the filesystem: the working directory
   * (`getcwd`, None for PHP's false), canonical paths (`realpath`, None when the path
   * does not resolve), the directories (`is_dir`) and the other files (`file_exists`
   * holds for both).
   */
  datatype FileSystem = FileSystem(cwd: Option<string>, canonical: map<string, string>,
                                   dirs: set<string>, files: set<string>)
  {
    function Getcwd(): Option<string> { cwd }

    function Realpath(p: string): Option<string>
    {
      if p in canonical then Some(canonical[p]) else None
    }

    predicate IsDir(p: string) { p in dirs }

    predicate FileExists(p: string) { p in files || p in dirs }

    /** What `getcwd` and `realpath` can return: absolute paths only. */
    predicate WellFormed()
    {
      && (cwd.Some? ==> IsAbsolute(cwd.value))
      && forall p :: p in canonical ==> IsAbsolute(canonical[p])
    }
  }

  /** A non-empty path starting at the filesystem root. */
  predicate IsAbsolute(p: string) { |p| > 0 && p[0] == '/' }

  datatype Error =
    | InvalidRepository(root: string)  // "Invalid git repository: <root>"
    | NoCommitMessage                  // "No commit message available"

  /** The resolvers the repository can create; the source builds the class name from this. */
  datatype ResolverKind = StagedFiles

  /** Executes finished git command lines; `exec` marks the default process runner. */
  class Runner {
    const exec: bool

    /** The default runner that spawns processes. */
    constructor Exec()
      ensures exec
    {
      exec := true;
    }

    /** A runner injected in place of process execution, as tests do. */
    constructor Scripted()
      ensures !exec
    {
      exec := false;
    }
  }

  /** The commit message of the workflow in progress; its contents are not modelled. */
  class CommitMessage {
  }

  /** A resolver: built with the repository's runner and a reference back to the repository. */
  class Resolver {
    const kind: ResolverKind
    const runner: Runner
    const repo: Repository

    constructor (kind: ResolverKind, runner: Runner, repo: Repository)
      ensures this.kind == kind && this.runner == runner && this.repo == repo
    {
      this.kind := kind;
      this.runner := runner;
      this.repo := repo;
    }
  }

  /** PHP's `empty()` on a string: true for "" and for "0". */
  predicate PhpEmpty(s: string) { s == "" || s == "0" }

  /**
   * The path the constructor starts from: the working directory for an empty root
   * (which for PHP includes "0"), otherwise the root's real path; None for PHP's false.
   */
  function ResolveRoot(root: string, fs: FileSystem): (r: Option<string>)
    ensures root == "" || root == "0" ==> r == fs.Getcwd()
    ensures fs.WellFormed() && r.Some? ==> IsAbsolute(r.value)
  {
    if PhpEmpty(root) then fs.Getcwd() else fs.Realpath(root)
  }

  /**
   * The constructor's check as the source writes it: a failed lookup is PHP's false,
   * which reads as "" once concatenated, so the directory checked is "/.git" and the
   * root kept is "".
   */
  function CheckRootAsWritten(root: string, fs: FileSystem): (r: Result<string, Error>)
    ensures ResolveRoot(root, fs).Some? ==>
              (r.Ok? <==> fs.IsDir(ResolveRoot(root, fs).value + "/.git"))
    ensures ResolveRoot(root, fs).None? ==> (r.Ok? <==> fs.IsDir("/.git"))
    ensures r.Ok? && ResolveRoot(root, fs).None? ==> r.value == ""
    ensures r.Err? ==> r.error == InvalidRepository(root)
  {
    var path := match ResolveRoot(root, fs) case Some(p) => p case None => "";
    assert path + Sep + ".git" == path + "/.git";
    assert "" + "/.git" == "/.git";
    if fs.IsDir(path + Sep + ".git") then Ok(path) else Err(InvalidRepository(root))
  }

  /** A root that does not resolve is accepted when the filesystem root holds a `.git` directory. */
  lemma UnresolvedRootAccepted()
    ensures var fs := FileSystem(Some("/home/dev"), map[], {"/.git"}, {});
            fs.WellFormed()
            && ResolveRoot("/no/such/dir", fs) == None
            && CheckRootAsWritten("/no/such/dir", fs) == Ok("")
            && CheckRoot("/no/such/dir", fs) == Err(InvalidRepository("/no/such/dir"))
  {
    var fs := FileSystem(Some("/home/dev"), map[], {"/.git"}, {});
    assert "" + Sep + ".git" == "/.git";
  }

  /**
   * The constructor's check as intended: the root resolves and holds a `.git`
   * directory; anything else is an invalid repository, reported with the root given.
   */
  function CheckRoot(root: string, fs: FileSystem): (r: Result<string, Error>)
    ensures r.Ok? <==> ResolveRoot(root, fs).Some? && fs.IsDir(ResolveRoot(root, fs).value + Sep + ".git")
    ensures r.Ok? ==> ResolveRoot(root, fs) == Some(r.value)
    ensures r.Err? ==> r.error == InvalidRepository(root)
    ensures fs.WellFormed() && r.Ok? ==> IsAbsolute(r.value)
  {
    match ResolveRoot(root, fs)
    case None => Err(InvalidRepository(root))
    case Some(path) =>
      if fs.IsDir(path + Sep + ".git") then Ok(path) else Err(InvalidRepository(root))
  }

  /** The two checks differ only on a root that does not resolve. */
  lemma CheckRootMatchesWhenResolved(root: string, fs: FileSystem)
    ensures ResolveRoot(root, fs).Some? ==> CheckRoot(root, fs) == CheckRootAsWritten(root, fs)
    ensures ResolveRoot(root, fs).None? ==> CheckRoot(root, fs).Err?
  {
  }

  class Repository {
    /** Path to the repository root. */
    const root: string
    /** Path to the `.git` directory. */
    const dotGitDir: string
    const runner: Runner
    var commitMsg: Option<CommitMessage>
    /** Resolvers created so far, by kind. */
    var resolvers: map<ResolverKind, Resolver>

    /** The metadata directory sits under the root, and each cached resolver is of its kind and belongs here. */
    ghost predicate Valid()
      reads this
    {
      && dotGitDir == root + Sep + ".git"
      && forall k :: k in resolvers ==>
           resolvers[k].kind == k && resolvers[k].runner == runner && resolvers[k].repo == this
    }

    /** Field setup once the root has been checked. */
    constructor (path: string, runner: Runner)
      ensures Valid()
      ensures root == path && this.runner == runner
      ensures commitMsg == None && resolvers == map[]
    {
      root := path;
      dotGitDir := path + Sep + ".git";
      this.runner := runner;
      commitMsg := None;
      resolvers := map[];
    }

    function GetRoot(): (r: string)
      reads this
      requires Valid()
      ensures r + Sep + ".git" == dotGitDir
    {
      root
    }

    /** Path to the hooks directory. */
    function GetHooksDir(): (d: string)
      reads this
      requires Valid()
      ensures d == root + "/.git/hooks"
    {
      dotGitDir + Sep + "hooks"
    }

    /** Whether a hook file of this name exists in the hooks directory. */
    function HookExists(hook: string, fs: FileSystem): (b: bool)
      reads this
      requires Valid()
      ensures b <==> fs.FileExists(root + "/.git/hooks/" + hook)
    {
      var p := GetHooksDir() + Sep + hook;
      assert p == root + "/.git/hooks/" + hook;
      fs.FileExists(p)
    }

    method SetCommitMsg(m: CommitMessage)
      requires Valid()
      modifies this`commitMsg
      ensures Valid()
      ensures commitMsg == Some(m)
      ensures GetCommitMsg() == Ok(m)
      ensures resolvers == old(resolvers)
    {
      commitMsg := Some(m);
    }

    /** The commit message last set; an error while none has been set. */
    function GetCommitMsg(): (r: Result<CommitMessage, Error>)
      reads this
      ensures r.Err? <==> commitMsg.None?
      ensures r.Err? ==> r.error == NoCommitMessage
      ensures r.Ok? ==> commitMsg == Some(r.value)
    {
      match commitMsg
      case None => Err(NoCommitMessage)
      case Some(m) => Ok(m)
    }

    /**
     * The resolver of this kind: the cached one if there is one, otherwise a new one
     * built with this repository's runner and a reference back to it, which is cached.
     */
    method GetResolver(kind: ResolverKind) returns (r: Resolver)
      requires Valid()
      modifies this`resolvers
      ensures Valid()
      ensures kind in resolvers && resolvers[kind] == r
      ensures r.kind == kind && r.runner == runner && r.repo == this
      ensures kind in old(resolvers) ==> r == old(resolvers)[kind] && resolvers == old(resolvers)
      ensures kind !in old(resolvers) ==> fresh(r) && resolvers == old(resolvers)[kind := r]
      ensures commitMsg == old(commitMsg)
    {
      if kind !in resolvers {
        var created := new Resolver(kind, runner, this);
        resolvers := resolvers[kind := created];
      }
      r := resolvers[kind];
    }

    method GetStagedFilesResolver() returns (r: Resolver)
      requires Valid()
      modifies this`resolvers
      ensures Valid()
      ensures StagedFiles in resolvers && resolvers[StagedFiles] == r && r.kind == StagedFiles
      ensures r.runner == runner && r.repo == this
      ensures StagedFiles in old(resolvers) ==> r == old(resolvers)[StagedFiles] && resolvers == old(resolvers)
      ensures StagedFiles !in old(resolvers) ==> fresh(r) && resolvers == old(resolvers)[StagedFiles := r]
      ensures commitMsg == old(commitMsg)
    {
      r := GetResolver(StagedFiles);
    }
  }

  /**
   * The Repository constructor as a whole, with the intended root check (CheckRoot):
   * check the root (failing with InvalidRepository), then set up the fields, with a
   * new default runner when none is given. Unlike the source, a root that does not
   * resolve is always rejected (see CheckRootAsWritten).
   */
  method Open(root: string, runner: Runner?, fs: FileSystem) returns (res: Result<Repository, Error>)
    ensures res.Err? <==> CheckRoot(root, fs).Err?
    ensures res.Err? ==> res.error == CheckRoot(root, fs).error
    ensures res.Ok? ==> fresh(res.value) && res.value.Valid()
    ensures res.Ok? ==> res.value.root == CheckRoot(root, fs).value
    ensures res.Ok? && fs.WellFormed() ==> IsAbsolute(res.value.root)
    ensures res.Ok? ==> fs.IsDir(res.value.dotGitDir)
    ensures res.Ok? ==> res.value.commitMsg == None && res.value.resolvers == map[]
    ensures res.Ok? && runner != null ==> res.value.runner == runner
    ensures res.Ok? && runner == null ==> fresh(res.value.runner) && res.value.runner.exec
  {
    var checked := CheckRoot(root, fs);
    if checked.Err? {
      return Err(checked.error);
    }
    var r: Runner;
    if runner == null {
      r := new Runner.Exec();
    } else {
      r := runner;
    }
    var repo := new Repository(checked.value, r);
    res := Ok(repo);
  }

  /** Two requests for the staged-files resolver give the same object; the second creates nothing. */
  method StagedFilesResolverIsCached(repo: Repository) returns (first: Resolver, second: Resolver)
    requires repo.Valid()
    modifies repo`resolvers
    ensures first == second
    ensures first.runner == repo.runner && first.repo == repo
    ensures repo.resolvers.Keys == old(repo.resolvers.Keys) + {StagedFiles}
  {
    first := repo.GetStagedFilesResolver();
    ghost var between := repo.resolvers;
    second := repo.GetStagedFilesResolver();
    assert repo.resolvers == between;
  }
}
