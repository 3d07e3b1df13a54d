/**
 * The `checkout` command that restores working-tree files (class RestoreWorkingTree in
 * the Command\Checkout namespace): a builder holding the paths to restore, a fluent
 * setter that replaces them, and the git sub-command text built from them.
 */
module Checkout {
  import opened Wrappers
  import opened ShellWords

  /** Fixed text before the quoted paths: quiet mode, then the end-of-options marker. */
  const Prefix: string := "checkout --quiet -- "

  /** The words a shell reads from Prefix. */
  const PrefixWords: seq<string> := ["checkout", "--quiet", "--"]

  /** The prefix splits into its three words and leaves the splitter between words. */
  lemma PrefixLexes(rest: string, words: seq<string>)
    ensures Lex(Prefix + rest, Between, [], words) == Lex(rest, Between, [], words + PrefixWords)
  {
    assert Prefix + rest == "checkout" + " " + ("--quiet" + " " + ("--" + " " + rest));
    PlainWord("checkout", "--quiet" + " " + ("--" + " " + rest), words);
    PlainWord("--quiet", "--" + " " + rest, words + ["checkout"]);
    PlainWord("--", rest, words + ["checkout"] + ["--quiet"]);
    assert words + ["checkout"] + ["--quiet"] + ["--"] == words + PrefixWords;
  }

  /** The command text splits into the prefix words followed by each path, one word per path, in order. */
  lemma CommandWords(fs: seq<string>)
    ensures Words(Prefix + JoinWords(QuoteAll(fs))) == Some(PrefixWords + fs)
  {
    PrefixLexes(JoinWords(QuoteAll(fs)), []);
    JoinedQuotes(fs, [] + PrefixWords);
    assert [] + PrefixWords == PrefixWords;
  }

  class RestoreWorkingTree {
    /** Files and directories to restore. */
    var files: seq<string>

    /** A new builder restores the whole working tree. */
    constructor ()
      ensures files == ["."]
      ensures GitCommand() == Some("checkout --quiet -- '.'")
    {
      files := ["."];
      assert Escape(".") == ".";
      assert Quote(".") == "'.'";
      assert ["."][1..] == [];
      assert QuoteAll(["."]) == ["'.'"];
      assert Prefix + JoinWords(["'.'"]) == "checkout --quiet -- '.'";
    }

    /** Replaces the paths (nothing is appended or merged) and returns the builder itself. */
    method Files(fs: seq<string>) returns (self: RestoreWorkingTree)
      modifies this`files
      ensures files == fs
      ensures self == this
      ensures fs == [] ==> GitCommand() == Some(Prefix)
    {
      files := fs;
      self := this;
      assert fs == [] ==> Prefix + JoinWords(QuoteAll(fs)) == Prefix;
    }

    /**
     * The git sub-command: the fixed prefix and the quoted paths joined by single spaces.
     * None stands for the error `escapeshellarg` raises on a path holding a NUL byte.
     */
    function GitCommand(): (cmd: Option<string>)
      reads this
      ensures cmd.Some? <==> NulFree(files)
      ensures cmd.Some? ==> |cmd.value| >= |Prefix| && cmd.value[..|Prefix|] == Prefix
      ensures cmd.Some? ==> Words(cmd.value) == Some(PrefixWords + files)
    {
      match EscapeAll(files)
      case None => None
      case Some(tokens) =>
        CommandWords(files);
        Some(Prefix + JoinWords(tokens))
    }
  }

  /** The command text determines the path list: builders with the same command restore the same paths. */
  lemma CommandDeterminesFiles(a: RestoreWorkingTree, b: RestoreWorkingTree)
    requires a.GitCommand().Some? && a.GitCommand() == b.GitCommand()
    ensures a.files == b.files
  {
    assert PrefixWords + a.files == PrefixWords + b.files;
    assert a.files == (PrefixWords + a.files)[|PrefixWords|..];
    assert b.files == (PrefixWords + b.files)[|PrefixWords|..];
  }
}
