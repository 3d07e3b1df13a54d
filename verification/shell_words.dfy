/**
 * Shell-argument quoting as PHP's `escapeshellarg` does it on POSIX systems, and a
 * word splitter for the part of the POSIX Shell Command Language (IEEE Std 1003.1,
 * section 2.2 "Quoting") that the quoted text uses: blanks separate words, a
 * backslash quotes the next character, and single quotes preserve every character
 * up to the next single quote (section 2.2.2). Unquoted metacharacters are not
 * part of that subset: the splitter rejects them, so a command it splits contains
 * none.
 */
module ShellWords {
  import opened Wrappers

  /** Characters that section 2.2 says must (or in some contexts must) be quoted. */
  const Special: set<char> :=
    {'|', '&', ';', '<', '>', '(', ')', '$', '`', '\\', '"', '\'', ' ', '\t', '\n',
     '*', '?', '[', '#', '~', '=', '%'}

  predicate IsBlank(c: char) { c == ' ' || c == '\t' }

  predicate IsPlain(c: char) { c !in Special }

  predicate AllPlain(w: string) { forall i :: 0 <= i < |w| ==> IsPlain(w[i]) }

  /** Where the splitter stands: between words, inside an unquoted word, inside '...'. */
  datatype LexState = Between | InWord | InQuotes

  /**
   * Splits `s` into shell words, continuing from state `st` with the current word
   * `word` and the finished words `words`. None: an unterminated quote, an
   * unquoted metacharacter, or a backslash with nothing (or a newline) after it.
   */
  function Lex(s: string, st: LexState, word: string, words: seq<string>): Option<seq<string>>
    decreases |s|
  {
    if s == [] then
      match st
      case Between => Some(words)
      case InWord => Some(words + [word])
      case InQuotes => None
    else if st == InQuotes then
      if s[0] == '\'' then Lex(s[1..], InWord, word, words)
      else Lex(s[1..], InQuotes, word + [s[0]], words)
    else if IsBlank(s[0]) then
      Lex(s[1..], Between, [], if st == InWord then words + [word] else words)
    else if s[0] == '\'' then
      Lex(s[1..], InQuotes, word, words)
    else if s[0] == '\\' then
      if |s| >= 2 && s[1] != '\n' then Lex(s[2..], InWord, word + [s[1]], words) else None
    else if IsPlain(s[0]) then
      Lex(s[1..], InWord, word + [s[0]], words)
    else
      None
  }

  /** The words a shell would pass as arguments for the command text `s`. */
  function Words(s: string): Option<seq<string>>
  {
    Lex(s, Between, [], [])
  }

  /** The body of a quoted argument: each `'` becomes `'\''` (close, escaped quote, reopen). */
  function Escape(s: string): string
  {
    if s == [] then []
    else (if s[0] == '\'' then "'\\''" else [s[0]]) + Escape(s[1..])
  }

  /** The body grows by three characters per quote; text without a quote is left as it is. */
  lemma {:induction false} EscapeSize(s: string)
    ensures |Escape(s)| == |s| + 3 * multiset(s)['\'']
    ensures '\'' !in s ==> Escape(s) == s
    decreases |s|
  {
    if s != [] {
      assert s == [s[0]] + s[1..];
      assert multiset(s) == multiset([s[0]]) + multiset(s[1..]);
      assert '\'' !in s ==> '\'' !in s[1..];
      EscapeSize(s[1..]);
    }
  }

  /** `escapeshellarg` on POSIX: the text wrapped in single quotes. */
  function Quote(s: string): (r: string)
    ensures |r| >= 2 && r[0] == '\'' && r[|r| - 1] == '\''
  {
    "'" + Escape(s) + "'"
  }

  /** Text without a single quote is only wrapped: `.` becomes `'.'`. */
  lemma QuoteWithoutQuotes(s: string)
    requires '\'' !in s
    ensures Quote(s) == "'" + s + "'"
  {
    EscapeSize(s);
  }

  /** `escapeshellarg` including its refusal of strings holding a NUL byte. */
  function EscapeShellArg(s: string): (r: Option<string>)
    ensures r.Some? <==> '\0' !in s
    ensures r.Some? ==> Unquote(r.value) == Some(s)
  {
    if '\0' in s then None
    else
      QuoteRoundTrip(s);
      Some(Quote(s))
  }

  /** Reads a single shell word back; None when `t` is not exactly one word. */
  function Unquote(t: string): Option<string>
  {
    match Words(t)
    case Some(ws) => if |ws| == 1 then Some(ws[0]) else None
    case None => None
  }

  /** Total length of the tokens. */
  function TotalLength(ts: seq<string>): nat
  {
    if ts == [] then 0 else |ts[0]| + TotalLength(ts[1..])
  }

  /** PHP's `implode(' ', ts)`. */
  function JoinWords(ts: seq<string>): string
  {
    if ts == [] then ""
    else if |ts| == 1 then ts[0]
    else ts[0] + " " + JoinWords(ts[1..])
  }

  /**
   * No tokens give the empty text; otherwise the text starts with the first token,
   * ends with the last, and has one blank between neighbours.
   */
  lemma {:induction false} JoinWordsShape(ts: seq<string>)
    ensures ts == [] ==> JoinWords(ts) == ""
    ensures ts != [] ==> |JoinWords(ts)| == TotalLength(ts) + |ts| - 1
    ensures ts != [] ==> |ts[0]| <= |JoinWords(ts)| && JoinWords(ts)[..|ts[0]|] == ts[0]
    ensures ts != [] ==> var r, last := JoinWords(ts), ts[|ts| - 1];
                         |last| <= |r| && r[|r| - |last|..] == last
    decreases |ts|
  {
    if |ts| > 1 {
      JoinWordsShape(ts[1..]);
      assert ts[1..][|ts[1..]| - 1] == ts[|ts| - 1];
      var rest := JoinWords(ts[1..]);
      assert JoinWords(ts) == ts[0] + (" " + rest);
    }
  }

  /** No token holds a NUL byte. */
  predicate NulFree(fs: seq<string>)
  {
    forall i :: 0 <= i < |fs| ==> '\0' !in fs[i]
  }

  /** Every token quoted; the value `EscapeAll` gives when nothing fails. */
  function QuoteAll(fs: seq<string>): (ts: seq<string>)
    ensures |ts| == |fs|
    ensures forall i :: 0 <= i < |fs| ==> ts[i] == Quote(fs[i])
  {
    if fs == [] then [] else [Quote(fs[0])] + QuoteAll(fs[1..])
  }

  /**
   * PHP's `array_map('escapeshellarg', fs)`: fails as soon as a token holds a NUL
   * byte; otherwise one quoted token per input, in order.
   */
  function EscapeAll(fs: seq<string>): (r: Option<seq<string>>)
    ensures r.Some? <==> NulFree(fs)
    ensures r.Some? ==> r.value == QuoteAll(fs)
  {
    if fs == [] then Some([])
    else
      match EscapeShellArg(fs[0])
      case None => None
      case Some(t) =>
        match EscapeAll(fs[1..])
        case None =>
          assert !NulFree(fs[1..]);
          None
        case Some(ts) => Some([t] + ts)
  }

  /** Inside quotes, an escaped body followed by the closing quote reads back as the original text. */
  lemma {:induction false} EscapedBody(p: string, rest: string, word: string, words: seq<string>)
    ensures Lex(Escape(p) + "'" + rest, InQuotes, word, words) == Lex(rest, InWord, word + p, words)
    decreases |p|
  {
    if p == [] {
      var s := "'" + rest;
      assert Escape(p) + "'" + rest == s;
      assert s[0] == '\'' && s[1..] == rest;
      assert Lex(s, InQuotes, word, words) == Lex(rest, InWord, word, words);
      assert word + p == word;
    } else if p[0] == '\'' {
      var tail := Escape(p[1..]) + "'" + rest;
      var s := "'\\''" + tail;
      assert Escape(p) + "'" + rest == s;
      assert s[1..] == "\\''" + tail;
      assert s[1..][2..] == "'" + tail;
      assert ("'" + tail)[1..] == tail;
      calc {
        Lex(s, InQuotes, word, words);
        Lex(s[1..], InWord, word, words);
        Lex(s[1..][2..], InWord, word + "'", words);
        Lex(tail, InQuotes, word + "'", words);
        { EscapedBody(p[1..], rest, word + "'", words); }
        Lex(rest, InWord, word + "'" + p[1..], words);
        { assert word + "'" + p[1..] == word + p; }
        Lex(rest, InWord, word + p, words);
      }
    } else {
      var tail := Escape(p[1..]) + "'" + rest;
      assert Escape(p) + "'" + rest == [p[0]] + tail;
      assert ([p[0]] + tail)[1..] == tail;
      calc {
        Lex([p[0]] + tail, InQuotes, word, words);
        Lex(tail, InQuotes, word + [p[0]], words);
        { EscapedBody(p[1..], rest, word + [p[0]], words); }
        Lex(rest, InWord, word + [p[0]] + p[1..], words);
        { assert word + [p[0]] + p[1..] == word + p; }
        Lex(rest, InWord, word + p, words);
      }
    }
  }

  /** Outside quotes, a quoted argument adds its original text to the current word. */
  lemma QuotedText(p: string, rest: string, st: LexState, word: string, words: seq<string>)
    requires st != InQuotes
    ensures Lex(Quote(p) + rest, st, word, words) == Lex(rest, InWord, word + p, words)
  {
    var s := Quote(p) + rest;
    assert s == "'" + (Escape(p) + "'" + rest);
    assert s[1..] == Escape(p) + "'" + rest;
    EscapedBody(p, rest, word, words);
  }

  /** `escapeshellarg` is undone by the shell: the quoted text is one word, the original. */
  lemma QuoteRoundTrip(p: string)
    ensures Words(Quote(p)) == Some([p])
    ensures Unquote(Quote(p)) == Some(p)
  {
    QuotedText(p, "", Between, [], []);
    assert Quote(p) + "" == Quote(p);
    assert [] + p == p;
    assert Lex("", InWord, p, []) == Some([] + [p]);
    assert [] + [p] == [p];
  }

  /** Distinct texts never quote to the same argument. */
  lemma QuoteInjective(p: string, q: string)
    requires Quote(p) == Quote(q)
    ensures p == q
  {
    QuoteRoundTrip(p);
    QuoteRoundTrip(q);
  }

  /** Quoted arguments joined by single spaces split into exactly those arguments, in order. */
  lemma {:induction false} JoinedQuotes(fs: seq<string>, words: seq<string>)
    ensures Lex(JoinWords(QuoteAll(fs)), Between, [], words) == Some(words + fs)
    decreases |fs|
  {
    if fs == [] {
      assert JoinWords(QuoteAll(fs)) == [];
      assert words + fs == words;
    } else if |fs| == 1 {
      LastQuoted(fs[0], words);
      assert QuoteAll(fs) == [Quote(fs[0])];
      assert words + [fs[0]] == words + fs;
    } else {
      var ts := QuoteAll(fs);
      var rest := JoinWords(ts[1..]);
      assert ts[1..] == QuoteAll(fs[1..]);
      assert JoinWords(ts) == Quote(fs[0]) + " " + rest;
      QuotedWord(fs[0], rest, words);
      JoinedQuotes(fs[1..], words + [fs[0]]);
      assert words + [fs[0]] + fs[1..] == words + fs;
    }
  }

  /** A quoted argument followed by a blank is one finished word. */
  lemma QuotedWord(p: string, rest: string, words: seq<string>)
    ensures Lex(Quote(p) + " " + rest, Between, [], words) == Lex(rest, Between, [], words + [p])
  {
    var tail := " " + rest;
    assert Quote(p) + " " + rest == Quote(p) + tail;
    QuotedText(p, tail, Between, [], words);
    assert [] + p == p;
    assert tail[0] == ' ' && tail[1..] == rest;
    assert Lex(tail, InWord, p, words) == Lex(rest, Between, [], words + [p]);
  }

  /** A quoted argument at the end of the text is the last word. */
  lemma LastQuoted(p: string, words: seq<string>)
    ensures Lex(Quote(p), Between, [], words) == Some(words + [p])
  {
    QuotedText(p, "", Between, [], words);
    assert Quote(p) + "" == Quote(p);
    assert [] + p == p;
    assert Lex("", InWord, p, words) == Some(words + [p]);
  }

  /** Unquoted plain characters extend the current word. */
  lemma {:induction false} PlainRun(w: string, rest: string, word: string, words: seq<string>)
    requires AllPlain(w)
    ensures Lex(w + rest, InWord, word, words) == Lex(rest, InWord, word + w, words)
    decreases |w|
  {
    if w == [] {
      assert w + rest == rest;
      assert word + w == word;
    } else {
      assert (w + rest)[0] == w[0];
      assert (w + rest)[1..] == w[1..] + rest;
      assert IsPlain(w[0]) && w[0] != '\'' && w[0] != '\\' && !IsBlank(w[0]);
      PlainRun(w[1..], rest, word + [w[0]], words);
      assert word + [w[0]] + w[1..] == word + w;
    }
  }

  /** A non-empty plain word followed by a blank is one finished word. */
  lemma PlainWord(w: string, rest: string, words: seq<string>)
    requires w != [] && AllPlain(w)
    ensures Lex(w + " " + rest, Between, [], words) == Lex(rest, Between, [], words + [w])
  {
    var s := w + " " + rest;
    assert s[0] == w[0];
    assert IsPlain(w[0]) && w[0] != '\'' && w[0] != '\\' && !IsBlank(w[0]);
    assert s[1..] == w[1..] + (" " + rest);
    assert Lex(s, Between, [], words) == Lex(s[1..], InWord, [] + [w[0]], words);
    assert [] + [w[0]] == [w[0]];
    PlainRun(w[1..], " " + rest, [w[0]], words);
    assert [w[0]] + w[1..] == w;
    var tail := " " + rest;
    assert tail[0] == ' ' && tail[1..] == rest;
    assert Lex(tail, InWord, w, words) == Lex(rest, Between, [], words + [w]);
  }

  /** A non-empty plain word at the end of the text is the last word. */
  lemma LastPlainWord(w: string, words: seq<string>)
    requires w != [] && AllPlain(w)
    ensures Lex(w, Between, [], words) == Some(words + [w])
  {
    assert IsPlain(w[0]) && w[0] != '\'' && w[0] != '\\' && !IsBlank(w[0]);
    assert Lex(w, Between, [], words) == Lex(w[1..], InWord, [] + [w[0]], words);
    assert [] + [w[0]] == [w[0]];
    PlainRun(w[1..], "", [w[0]], words);
    assert w[1..] + "" == w[1..];
    assert [w[0]] + w[1..] == w;
    assert Lex("", InWord, w, words) == Some(words + [w]);
  }
}
