# sebastianfeldmann/git: command builders and the repository facade

A Dafny model of three pieces of a PHP library that drives the `git` command line:

- **RestoreWorkingTree** (`checkout` restoring working-tree files): a builder holding a
  list of paths, `['.']` until the fluent setter `files()` replaces it, whose git
  sub-command is `checkout --quiet -- ` followed by each path passed through PHP's
  `escapeshellarg` and joined by single spaces.
- **GetStagedFiles** (`diff-index`): a builder without parameters whose sub-command is
  the fixed text `diff-index --cached --name-status HEAD`.
- **Repository**: the facade holding the root path, the `.git` directory under it, the
  command runner, the commit message of the workflow in progress and a cache of
  resolver objects created on first use.

Modules:

- `Wrappers` (wrappers.dfy): `Option` and `Result`, standing for PHP's `false` results
  and thrown exceptions.
- `ShellWords` (shell_words.dfy): `escapeshellarg` on POSIX, that is single-quote quoting
  as in section 2.2.2 of the POSIX Shell Command Language (IEEE Std 1003.1): wrap the
  text in `'` and write each embedded `'` as `'\''`. Beside it, `Words` splits text into
  shell words for the part of section 2.2 that quoted text uses: blanks separate words,
  a backslash quotes the next character, single quotes keep everything up to the next
  `'`. Any unquoted metacharacter of section 2.2 (`|&;<>()$` and so on) makes `Words`
  fail, so a command that `Words` splits holds none. `Unquote` reads one word back.
- `Checkout` (restore_working_tree.dfy): the class `RestoreWorkingTree`. The central
  fact is that its command splits into exactly the words `checkout`, `--quiet`, `--`
  followed by the paths, one word per path, in order, with nothing unquoted.
- `DiffIndex` (get_staged_files.dfy): the staged-files command, proved to be four
  plain words from `diff-index` to `HEAD`.
- `Git` (repository.dfy): the class `Repository` with its fields, methods that frame
  exactly the field they change, and `Open`, the PHP constructor including the failure
  on a path without a `.git` directory. `Open` uses the intended root check
  `CheckRoot`; the check as the source writes it is `CheckRootAsWritten` (see
  "## Findings").

The filesystem (`getcwd`, `realpath`, `is_dir`, `file_exists`) is a value of type
`Git.FileSystem` passed in by the caller. `DIRECTORY_SEPARATOR` is `/`. The runner, the
commit message and the resolvers are objects whose insides are not modelled. The
resolver whose class the source builds from a string name is a fixed enumeration,
`ResolverKind`, that holds the one name the source uses, `StagedFiles`.

Three behaviours of the code worth stating:

- An explicit empty list, `files([])`, gives the bare text `checkout --quiet -- `.
  No `.` is put in its place. Only a builder that was never given paths restores `.`.
- The source builds the resolver's class name from a string and instantiates it with
  `new`, so an unknown name would fail with PHP's class-not-found error. That cannot
  happen in practice: the lookup is private and is only ever given `StagedFiles`. The
  enumeration `ResolverKind` holds just that name, so an unknown name cannot be written.
- PHP's `empty()` is also true for the root `"0"`, which is therefore read as "use the
  working directory" (`Git.ResolveRoot`).

## Model

| member | source | states |
|---|---|---|
| `ShellWords.EscapeShellArg` | src/Command/Checkout/RestoreWorkingTree.php:55 | fails exactly when the text holds a NUL byte; otherwise the quoted text unquotes to the original |
| `ShellWords.QuoteRoundTrip` | src/Command/Checkout/RestoreWorkingTree.php:55 | a quoted path is exactly one shell word, and that word is the path itself |
| `ShellWords.QuoteInjective` | src/Command/Checkout/RestoreWorkingTree.php:55 | two different paths never quote to the same argument |
| `ShellWords.EscapeSize` | src/Command/Checkout/RestoreWorkingTree.php:55 | the quoted body is three characters longer per `'`, and text without a `'` is kept unchanged |
| `ShellWords.Quote` | src/Command/Checkout/RestoreWorkingTree.php:55 | the quoted token always begins and ends with a single quote |
| `ShellWords.QuoteWithoutQuotes` | src/Command/Checkout/RestoreWorkingTree.php:55 | a path with no `'` is just wrapped in single quotes (`.` becomes `'.'`) |
| `ShellWords.QuoteAll` | src/Command/Checkout/RestoreWorkingTree.php:55 | one token per path, the i-th token being the quoted i-th path |
| `ShellWords.EscapeAll` | src/Command/Checkout/RestoreWorkingTree.php:55 | `array_map('escapeshellarg', ...)` fails exactly when some path holds a NUL byte; otherwise it gives one quoted token per path, in order |
| `ShellWords.JoinWordsShape` | src/Command/Checkout/RestoreWorkingTree.php:55 | `implode(' ', ...)` of no tokens is empty; otherwise it starts with the first token, ends with the last, and is as long as the tokens plus one blank between each two neighbours |
| `ShellWords.JoinedQuotes` | src/Command/Checkout/RestoreWorkingTree.php:55 | quoted paths joined by single spaces split back into exactly those paths, in order |
| `Checkout.PrefixLexes` | src/Command/Checkout/RestoreWorkingTree.php:53-54 | the fixed prefix is the three words `checkout`, `--quiet`, `--`, and whatever follows begins a new word |
| `Checkout.CommandWords` | src/Command/Checkout/RestoreWorkingTree.php:53-55 | prefix plus joined quoted paths splits into the prefix words followed by the paths |
| `Checkout.RestoreWorkingTree.constructor` | src/Command/Checkout/RestoreWorkingTree.php:31 | a new builder holds `['.']` and its command is exactly `checkout --quiet -- '.'` |
| `Checkout.RestoreWorkingTree.Files` | src/Command/Checkout/RestoreWorkingTree.php:40-44 | the stored list becomes exactly the argument (nothing appended or merged), only that field changes, the builder itself is returned, and after an empty list the command is the bare prefix |
| `Checkout.RestoreWorkingTree.GitCommand` | src/Command/Checkout/RestoreWorkingTree.php:51-56 | fails exactly when a path holds a NUL byte; otherwise begins with `checkout --quiet -- ` and splits into `checkout`, `--quiet`, `--` and then one word per path, in list order; it only reads the builder, so repeated calls agree |
| `Checkout.CommandDeterminesFiles` | src/Command/Checkout/RestoreWorkingTree.php:53-55 | builders whose commands are equal hold equal path lists |
| `DiffIndex.GetStagedFilesCommand` | src/Command/DiffIndex/GetStagedFiles.php:27-30 | the command splits into exactly `diff-index`, `--cached`, `--name-status`, `HEAD`: no caller-supplied token and no quoting; it has no parameters, so every call gives the same text |
| `DiffIndex.StagedFilesText` | src/Command/DiffIndex/GetStagedFiles.php:29 | the command is character for character `diff-index --cached --name-status HEAD` |
| `Git.ResolveRoot` | src/Repository.php:65 | a root of `""` or `"0"` (PHP's `empty`) uses the working directory; on a filesystem whose `getcwd` and `realpath` give absolute paths, a resolved root is absolute |
| `Git.CheckRootAsWritten` | src/Repository.php:65-69 | the check as written: for a resolving root, accepts exactly when `<path>/.git` is a directory; for one that does not resolve, accepts exactly when `/.git` is a directory and then keeps the root `""`; failure reports the root as given |
| `Git.CheckRoot` | src/Repository.php:65-69 | succeeds exactly when the working directory (empty root) or the real path (otherwise) resolves and holds a `.git` directory; the result is that resolved path, absolute on a well-formed filesystem; failure reports the root as given |
| `Git.UnresolvedRootAccepted` | src/Repository.php:65-71 | on a well-formed filesystem, the check as written accepts a root that does not resolve, keeping root `""`, when `/.git` is a directory, while the intended check rejects it |
| `Git.CheckRootMatchesWhenResolved` | src/Repository.php:65-69 | the written and the intended check agree whenever the root resolves |
| `Git.Open` | src/Repository.php:63-73 | the constructor with the intended root check (`CheckRoot`, not the check as written): fails with the invalid-repository error exactly when that check fails; otherwise a new valid repository rooted at the resolved path (absolute on a well-formed filesystem), whose `.git` directory exists, with no commit message, no resolvers, and the given runner or a new default process runner |
| `Git.Repository.constructor` | src/Repository.php:70-72 | `root` is the path, `dotGitDir` is `root/.git`, the runner is stored, no commit message and an empty resolver map |
| `Git.Repository.GetRoot` | src/Repository.php:80-83 | the root is the directory whose `.git` subdirectory is `dotGitDir` |
| `Git.Repository.GetHooksDir` | src/Repository.php:90-93 | the hooks directory is `root/.git/hooks` |
| `Git.Repository.HookExists` | src/Repository.php:101-104 | true exactly when `root/.git/hooks/<hook>` exists on the filesystem |
| `Git.Repository.SetCommitMsg` | src/Repository.php:111-114 | changes only the commit message, after which `GetCommitMsg` returns the message just set; the resolver map is unchanged |
| `Git.Repository.GetCommitMsg` | src/Repository.php:121-127 | fails with "no commit message" exactly while none has been set; otherwise returns the one stored |
| `Git.Repository.GetResolver` | src/Repository.php:145-152 | on a hit returns the cached object and changes nothing; on a miss adds exactly one new entry under that kind, built with this repository's runner and a reference back to it; nothing but the map changes |
| `Git.Repository.GetStagedFilesResolver` | src/Repository.php:134-137 | the same contract as `GetResolver` for the `StagedFiles` kind |
| `Git.StagedFilesResolverIsCached` | src/Repository.php:134-151 | two requests for the staged-files resolver give the same object, and the cache gains at most that one key |

## Left out

- Process execution through the runner (`Runner\Exec`) is left out: it is subprocess I/O in a library that is not part of this model. The runner is an opaque object that records only whether it is the default one.
- The `Base` command class is not part of this model. It turns `getGitCommand()` into a full `git ...` command line, so only the sub-command text is modelled.
- The `Resolver\StagedFiles` class and the parsing of `diff-index` output are not part of this model. A resolver is an object holding its kind, its runner and its repository.
- The internals of `CommitMessage` are not part of this model. It is an opaque object.
- `escapeshellarg` on Windows (double quotes, replacing `%`, `!` and `"`) is left out. Only POSIX quoting is modelled.
- The length limit of `escapeshellarg` (an argument longer than the system's maximum is an error) is left out, because that maximum is a property of the host system.
- PHP strings are byte strings. Here a path is a `seq<char>` with one character per byte. `escapeshellarg` walks the text with the locale's `mblen` and silently drops bytes that are not valid characters in that locale. For such paths the real token does not unquote to the path, so the round-trip lemmas hold only in this one-byte-per-character model.
- `files()` takes any PHP array. The model takes a sequence of strings: non-string elements and the keys of the array are not modelled.
- `ShellWords.Words` covers only the part of shell syntax that quoted text uses. It rejects, and so says nothing about, double quotes, expansions, comments and backslash-newline.
- Thread safety of the resolver cache and of the commit-message field is left out. The library is single-threaded and synchronous.
- The filesystem value is not required to be well-formed (`Git.FileSystem.WellFormed`: `getcwd` and every `realpath` result absolute). The absolute-root promises of `Git.ResolveRoot`, `Git.CheckRoot` and `Git.Open` are stated only for well-formed filesystems, since those are the only ones `getcwd` and `realpath` can produce.
- The real filesystem is a value handed in by the caller. The model does not capture the filesystem changing between construction and a later `HookExists`.

## Findings

| source | as written | input that shows it | evidently intended | confidence | as-written member | corrected member |
|---|---|---|---|---|---|---|
| src/Repository.php:65-71 | when `realpath` (or `getcwd`) fails it returns `false`; concatenated, `false` reads as `""`, so the check looks at `/.git` and a repository is built with root `""` and `.git` directory `/.git` | root `/no/such/dir` on a filesystem where `/.git` is a directory | a root that does not resolve is an invalid repository, and the constructor throws | low: needs `/.git` to exist; not executed | `Git.CheckRootAsWritten`, shown by `Git.UnresolvedRootAccepted` | `Git.CheckRoot`, used by `Git.Open` |
