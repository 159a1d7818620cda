/** Splitting a command line the way a shell does, and quoting words so that it splits back into them. */
module ShellWords {
  import opened Options

  predicate IsWhitespace(c: char) {
    var n := c as int;
    || 9 <= n <= 13 || n == 0x20 || n == 0x85 || n == 0xA0 || n == 0x1680 || 0x2000 <= n <= 0x200A
    || n == 0x2028 || n == 0x2029 || n == 0x202F || n == 0x205F || n == 0x3000
  }

  /** The words finished, the word in hand, the quote it is inside of, and whether there is a word in hand at all. */
  datatype Lexer = Lexer(out: seq<string>, cur: string, quote: Option<char>, hasWord: bool)

  function Finish(l: Lexer): seq<string> {
    if l.hasWord || l.cur != "" then l.out + [l.cur] else l.out
  }

  /** One character outside a backslash. */
  function Step(l: Lexer, c: char): Lexer {
    if l.quote.Some? then
      if c == l.quote.value then l.(quote := None) else l.(cur := l.cur + [c])
    else if c == '\'' || c == '"' then l.(quote := Some(c), hasWord := true)
    else if IsWhitespace(c) then
      if l.hasWord || l.cur != "" then Lexer(l.out + [l.cur], "", None, false) else l
    else l.(cur := l.cur + [c], hasWord := true)
  }

  /** A backslash outside quotes takes the next character as it is; at the end of the line it is dropped. */
  function Run(l: Lexer, s: string): Lexer
    decreases |s|
  {
    if s == "" then l
    else if l.quote.None? && s[0] == '\\' then
      if |s| == 1 then l else Run(l.(cur := l.cur + [s[1]], hasWord := true), s[2..])
    else Run(Step(l, s[0]), s[1..])
  }

  const START := Lexer([], "", None, false)

  function Words(s: string): seq<string> {
    Finish(Run(START, s))
  }

  method Split(s: string) returns (out: seq<string>)
    ensures out == Words(s)
  {
    out := [];
    var cur: string := "";
    var quote: Option<char> := None;
    var hasWord := false;
    var i := 0;
    assert s[0..] == s;
    while i < |s|
      invariant 0 <= i <= |s|
      invariant Run(Lexer(out, cur, quote, hasWord), s[i..]) == Run(START, s)
      decreases |s| - i
    {
      var c := s[i];
      assert s[i..][0] == c && s[i..][1..] == s[i + 1..];
      assert i + 1 < |s| ==> s[i..][1] == s[i + 1] && s[i..][2..] == s[i + 2..];
      i := i + 1;
      if quote.Some? {
        if c == quote.value {
          quote := None;
        } else {
          cur := cur + [c];
        }
      } else if c == '\'' || c == '"' {
        quote := Some(c);
        hasWord := true;
      } else if c == '\\' {
        if i < |s| {
          cur := cur + [s[i]];
          hasWord := true;
          i := i + 1;
        }
      } else if IsWhitespace(c) {
        if hasWord || cur != "" {
          out := out + [cur];
          cur := "";
          hasWord := false;
        }
      } else {
        cur := cur + [c];
        hasWord := true;
      }
    }
    assert s[i..] == "";
    if hasWord || cur != "" {
      out := out + [cur];
    }
  }

  // ---------- quoting ----------

  predicate Plain(c: char) {
    'a' <= c <= 'z' || 'A' <= c <= 'Z' || '0' <= c <= '9' || c in "-_./:=@"
  }

  /** Every single quote closes the quotes, stands escaped, and opens them again. */
  function Escaped(word: string): string {
    if word == "" then "" else (if word[0] == '\'' then "'\\''" else [word[0]]) + Escaped(word[1..])
  }

  function Quoted(word: string): string {
    if word != "" && forall c | c in word :: Plain(c) then word else "'" + Escaped(word) + "'"
  }

  function JoinQuoted(words: seq<string>): string {
    if words == [] then ""
    else if |words| == 1 then Quoted(words[0])
    else Quoted(words[0]) + " " + JoinQuoted(words[1..])
  }

  // ---------- quoting and splitting are inverse ----------

  lemma PlainIsOrdinary(c: char)
    requires Plain(c)
    ensures c != '\'' && c != '"' && c != '\\' && !IsWhitespace(c)
  {
  }

  lemma {:induction false} PlainWordRuns(l: Lexer, word: string, rest: string)
    requires l.quote.None? && forall c | c in word :: Plain(c)
    ensures Run(l, word + rest) == Run(l.(cur := l.cur + word, hasWord := l.hasWord || word != ""), rest)
    decreases |word|
  {
    if word == "" {
      assert "" + rest == rest && l.cur + "" == l.cur;
    } else {
      var c := word[0];
      PlainIsOrdinary(c);
      hide IsWhitespace;
      assert (word + rest)[0] == c && (word + rest)[1..] == word[1..] + rest;
      assert l.cur + [c] + word[1..] == l.cur + word;
      PlainWordRuns(Step(l, c), word[1..], rest);
    }
  }

  /** Inside single quotes an escaped word adds itself. */
  lemma {:induction false} EscapedWordRuns(l: Lexer, word: string, rest: string)
    requires l.quote == Some('\'') && l.hasWord
    ensures Run(l, Escaped(word) + rest) == Run(l.(cur := l.cur + word), rest)
    decreases |word|
  {
    if word == "" {
      assert "" + rest == rest && l.cur + "" == l.cur;
    } else {
      var c, tail := word[0], Escaped(word[1..]) + rest;
      assert l.cur + [c] + word[1..] == l.cur + word;
      if c == '\'' {
        var s := "'\\''" + tail;
        assert Escaped(word) + rest == s;
        assert s[0] == '\'' && s[1..][0] == '\\' && s[1..][1] == '\'' && s[1..][2..][0] == '\''
          && s[1..][2..][1..] == tail;
        var closed := l.(quote := None);
        assert Run(l, s) == Run(closed, s[1..]);
        assert Run(closed, s[1..]) == Run(closed.(cur := l.cur + [c]), s[1..][2..]);
        assert Run(closed.(cur := l.cur + [c]), s[1..][2..]) == Run(l.(cur := l.cur + [c]), tail);
      } else {
        assert Escaped(word) + rest == [c] + tail;
        assert ([c] + tail)[1..] == tail;
      }
      EscapedWordRuns(l.(cur := l.cur + [c]), word[1..], rest);
    }
  }

  /** Whatever the word, its quoted form read at the start of a word leaves just that word in hand. */
  lemma QuotedWordRuns(out: seq<string>, word: string, rest: string)
    ensures Run(Lexer(out, "", None, false), Quoted(word) + rest) == Run(Lexer(out, word, None, true), rest)
  {
    var l := Lexer(out, "", None, false);
    assert "" + word == word;
    if word != "" && forall c | c in word :: Plain(c) {
      PlainWordRuns(l, word, rest);
    } else {
      var s := Quoted(word) + rest;
      var inside := Lexer(out, "", Some('\''), true);
      var end := "'" + rest;
      assert s[0] == '\'' && s[1..] == Escaped(word) + end;
      assert Run(l, s) == Run(inside, s[1..]);
      EscapedWordRuns(inside, word, end);
      assert end[0] == '\'' && end[1..] == rest;
    }
  }

  lemma {:induction false} JoinRuns(out: seq<string>, words: seq<string>)
    ensures Finish(Run(Lexer(out, "", None, false), JoinQuoted(words))) == out + words
    decreases |words|
  {
    hide Run, Quoted;
    if words == [] {
      NothingRuns(Lexer(out, "", None, false));
    } else if |words| == 1 {
      assert Quoted(words[0]) + "" == Quoted(words[0]);
      QuotedWordRuns(out, words[0], "");
      NothingRuns(Lexer(out, words[0], None, true));
    } else {
      var rest := JoinQuoted(words[1..]);
      assert JoinQuoted(words) == Quoted(words[0]) + (" " + rest);
      QuotedWordRuns(out, words[0], " " + rest);
      SpaceRuns(Lexer(out, words[0], None, true), rest);
      JoinRuns(out + [words[0]], words[1..]);
      assert out + [words[0]] + words[1..] == out + words;
    }
  }

  lemma NothingRuns(l: Lexer)
    ensures Run(l, "") == l
  {
  }

  lemma SpaceRuns(l: Lexer, rest: string)
    requires l.quote.None? && l.hasWord
    ensures Run(l, " " + rest) == Run(Lexer(l.out + [l.cur], "", None, false), rest)
  {
    assert (" " + rest)[1..] == rest;
  }

  /** Any list of words, quoted and joined by spaces, splits into exactly those words. */
  lemma SplitsBack(words: seq<string>)
    ensures Words(JoinQuoted(words)) == words
  {
    JoinRuns([], words);
    assert [] + words == words;
  }

  /** So quoting never makes two different lists of words look alike. */
  lemma QuotingIsInjective(a: seq<string>, b: seq<string>)
    ensures JoinQuoted(a) == JoinQuoted(b) <==> a == b
  {
    SplitsBack(a);
    SplitsBack(b);
  }
}
