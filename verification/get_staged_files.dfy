/** The `diff-index` command that lists staged changes (class GetStagedFiles in Command\DiffIndex). */
module DiffIndex {
  import opened Wrappers
  import opened ShellWords

  /**
   * The git sub-command. The builder has no parameters, so the text is fixed; it holds
   * no caller-supplied token and splits into four plain words, from `diff-index` to `HEAD`.
   */
  function GetStagedFilesCommand(): (cmd: string)
    ensures Words(cmd) == Some(["diff-index", "--cached", "--name-status", "HEAD"])
  {
    PlainWords("diff-index", "--cached", "--name-status", "HEAD");
    "diff-index" + " " + ("--cached" + " " + ("--name-status" + " " + "HEAD"))
  }

  /** The command text, character for character. */
  lemma StagedFilesText()
    ensures GetStagedFilesCommand() == "diff-index --cached --name-status HEAD"
  {
  }

  /** Four plain words separated by single blanks split back into those four words. */
  lemma PlainWords(w1: string, w2: string, w3: string, w4: string)
    requires w1 != [] && w2 != [] && w3 != [] && w4 != []
    requires AllPlain(w1) && AllPlain(w2) && AllPlain(w3) && AllPlain(w4)
    ensures Words(w1 + " " + (w2 + " " + (w3 + " " + w4))) == Some([w1, w2, w3, w4])
  {
    var t3 := w3 + " " + w4;
    var t2 := w2 + " " + t3;
    PlainWord(w1, t2, []);
    PlainWord(w2, t3, [] + [w1]);
    PlainWord(w3, w4, [] + [w1] + [w2]);
    LastPlainWord(w4, [] + [w1] + [w2] + [w3]);
    assert [] + [w1] + [w2] + [w3] + [w4] == [w1, w2, w3, w4];
  }
}
