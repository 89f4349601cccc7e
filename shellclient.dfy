/**
 * The command tokenizer of hncore/hnsh/shellclient.cpp. Each call skips the
 * spaces in front of a token and then reads it: a space ends an unquoted
 * token, a '"' or '\'' opens a quoted part that only the same quote closes
 * (and that ends the token), and a backslash copies the next character
 * literally. The quotes themselves are not part of the token.
 */
module ShellClient {
  import opened Streams

  predicate IsQuote(c: char) { c == '"' || c == '\'' }

  /** A character with no meaning to the tokenizer. */
  predicate IsPlain(c: char) { c != ' ' && c != '\\' && !IsQuote(c) }

  predicate AllPlain(w: string) {
    forall i :: 0 <= i < |w| ==> IsPlain(w[i])
  }

  /**
   * The token read from s (after the leading spaces) while the closing character
   * is q (' ' outside quotes), and how many characters the read consumes.
   */
  function Lex(s: string, q: char): (r: (string, nat))
    ensures r.1 <= |s|
    ensures s != [] ==> r.1 >= 1
    decreases |s|
  {
    if s == [] then ("", 0)
    else if s[0] == '\\' then
      if |s| == 1 then ("", 1)
      else var t := Lex(s[2..], q); ([s[1]] + t.0, t.1 + 2)
    else if s[0] == q then ("", 1)
    else if q == ' ' && IsQuote(s[0]) then var t := Lex(s[1..], s[0]); (t.0, t.1 + 1)
    else var t := Lex(s[1..], q); ([s[0]] + t.0, t.1 + 1)
  }

  /** The number of spaces at the front of s. */
  function Spaces(s: string): (k: nat)
    ensures k <= |s|
    ensures forall i :: 0 <= i < k ==> s[i] == ' '
    ensures k < |s| ==> s[k] != ' '
  {
    if s != [] && s[0] == ' ' then 1 + Spaces(s[1..]) else 0
  }

  /** One call of command_tokenizer on line from curr: the token and where the next call starts. */
  function TokenAt(line: string, curr: nat): (r: (string, nat))
    requires curr < |line|
    ensures curr < r.1 <= |line|
  {
    var k := Spaces(line[curr..]);
    var t := Lex(line[curr + k..], ' ');
    (t.0, curr + k + t.1)
  }

  /** Every token of the line, as boost::tokenizer hands them out. */
  function Tokens(line: string, curr: nat): seq<string>
    requires curr <= |line|
    decreases |line| - curr
  {
    if curr == |line| then [] else var t := TokenAt(line, curr); [t.0] + Tokens(line, t.1)
  }

  /** command_tokenizer::operator(): false at the end of input, else the next token. */
  method NextToken(line: string, start: nat) returns (more: bool, tok: string, curr: nat)
    requires start <= |line|
    ensures more <==> start < |line|
    ensures more ==> (tok, curr) == TokenAt(line, start)
    ensures !more ==> tok == "" && curr == start
  {
    if start == |line| {
      return false, "", start;
    }
    curr := start;
    while curr != |line| && line[curr] == ' '
      invariant start <= curr <= |line|
      invariant Spaces(line[start..]) == Spaces(line[curr..]) + (curr - start)
    {
      assert line[curr..][1..] == line[curr + 1..];
      curr := curr + 1;
    }
    tok, curr := ReadToken(line, curr);
    more := true;
  }

  /** The reading loop of command_tokenizer, from the first character that is not a space. */
  method ReadToken(line: string, from: nat) returns (tok: string, curr: nat)
    requires from <= |line|
    ensures tok == Lex(line[from..], ' ').0
    ensures curr == from + Lex(line[from..], ' ').1
  {
    tok := "";
    curr := from;
    var unescapeChar := ' ';
    while curr != |line|
      invariant from <= curr <= |line|
      invariant unescapeChar == ' ' || IsQuote(unescapeChar)
      invariant Lex(line[from..], ' ').0 == tok + Lex(line[curr..], unescapeChar).0
      invariant from + Lex(line[from..], ' ').1 == curr + Lex(line[curr..], unescapeChar).1
    {
      LexUnfold(line, curr, unescapeChar);
      if line[curr] == '\\' {
        curr := curr + 1;
        if curr == |line| {
          break;
        }
        ConcatAssoc(tok, [line[curr]], Lex(line[curr + 1..], unescapeChar).0);
        tok := tok + [line[curr]];
        curr := curr + 1;
      } else {
        if line[curr] == unescapeChar {
          curr := curr + 1;
          break;
        } else if unescapeChar == ' ' && IsQuote(line[curr]) {
          unescapeChar := line[curr];
        } else {
          ConcatAssoc(tok, [line[curr]], Lex(line[curr + 1..], unescapeChar).0);
          tok := tok + [line[curr]];
        }
        curr := curr + 1;
      }
    }
    assert tok + "" == tok;
  }

  /** One step of Lex at position i of line. */
  lemma LexUnfold(line: string, i: nat, q: char)
    requires i < |line|
    ensures line[i] == '\\' && i + 1 < |line| ==>
      Lex(line[i..], q) == ([line[i + 1]] + Lex(line[i + 2..], q).0, Lex(line[i + 2..], q).1 + 2)
    ensures line[i] == '\\' && i + 1 == |line| ==> Lex(line[i..], q) == ("", 1)
    ensures line[i] != '\\' && line[i] == q ==> Lex(line[i..], q) == ("", 1)
    ensures line[i] != '\\' && line[i] != q && q == ' ' && IsQuote(line[i]) ==>
      Lex(line[i..], q) == (Lex(line[i + 1..], line[i]).0, Lex(line[i + 1..], line[i]).1 + 1)
    ensures line[i] != '\\' && line[i] != q && !(q == ' ' && IsQuote(line[i])) ==>
      Lex(line[i..], q) == ([line[i]] + Lex(line[i + 1..], q).0, Lex(line[i + 1..], q).1 + 1)
  {
    var s := line[i..];
    assert s[1..] == line[i + 1..];
    if i + 1 < |line| {
      assert s[2..] == line[i + 2..];
    }
  }

  // ---------------------------------------------------------------- properties

  /** The call after a token ends with the input returns false: no further token. */
  lemma NoTokenAtEnd(line: string)
    ensures Tokens(line, |line|) == []
  {
  }

  /** A plain word is read as it stands, and its closing space is consumed. */
  lemma {:induction false} LexPlain(w: string, rest: string)
    requires AllPlain(w)
    ensures Lex(w + " " + rest, ' ') == (w, |w| + 1)
    ensures Lex(w, ' ') == (w, |w|)
    decreases |w|
  {
    if w == [] {
      assert ([] + " " + rest)[0] == ' ';
    } else {
      assert (w + " " + rest)[1..] == w[1..] + " " + rest;
      LexPlain(w[1..], rest);
      assert [w[0]] + w[1..] == w;
    }
  }

  /** Inside quotes every character but the closing quote and backslash is kept, spaces included. */
  lemma {:induction false} LexInQuotes(q: char, body: string, rest: string)
    requires IsQuote(q)
    requires forall i :: 0 <= i < |body| ==> body[i] != q && body[i] != '\\'
    ensures Lex(body + [q] + rest, q) == (body, |body| + 1)
    decreases |body|
  {
    if body == [] {
      assert ([] + [q] + rest)[0] == q;
    } else {
      assert (body + [q] + rest)[1..] == body[1..] + [q] + rest;
      LexInQuotes(q, body[1..], rest);
      assert [body[0]] + body[1..] == body;
    }
  }

  /** A quoted token gives its body without the quotes, and the closing quote ends the token. */
  lemma LexQuoted(q: char, body: string, rest: string)
    requires IsQuote(q)
    requires forall i :: 0 <= i < |body| ==> body[i] != q && body[i] != '\\'
    ensures Lex([q] + body + [q] + rest, ' ') == (body, |body| + 2)
  {
    assert ([q] + body + [q] + rest)[1..] == body + [q] + rest;
    LexInQuotes(q, body, rest);
  }

  /** Every character preceded by a backslash. */
  function Escaped(w: string): (r: string)
    ensures |r| == 2 * |w|
  {
    if w == [] then [] else ['\\', w[0]] + Escaped(w[1..])
  }

  lemma EscapedHead(w: string)
    requires w != []
    ensures Escaped(w)[0] == '\\'
  {
  }

  /** A backslash makes the character after it part of the token, whatever it is. */
  lemma LexEscapeStep(c: char, t: string, q: char)
    ensures Lex(['\\', c] + t, q) == ([c] + Lex(t, q).0, Lex(t, q).1 + 2)
  {
    assert (['\\', c] + t)[2..] == t;
  }

  /** Escaping every character makes any text one token, spaces, quotes and backslashes included. */
  lemma {:induction false} LexEscaped(w: string, rest: string)
    ensures Lex(Escaped(w) + " " + rest, ' ') == (w, 2 * |w| + 1)
    decreases |w|
  {
    if w == [] {
      assert ([] + " " + rest)[0] == ' ';
    } else {
      var t := Escaped(w[1..]) + " " + rest;
      assert Escaped(w) + " " + rest == ['\\', w[0]] + t;
      LexEscapeStep(w[0], t, ' ');
      LexEscaped(w[1..], rest);
      assert [w[0]] + w[1..] == w;
    }
  }

  /** Words each followed by one space, as a command line is rebuilt. */
  function Spaced(words: seq<string>): string {
    if words == [] then "" else words[0] + " " + Spaced(words[1..])
  }

  /** A token that starts right where the previous one ended is what Lex reads there. */
  lemma TokenAtStart(pre: string, s: string, tok: string, n: nat)
    requires s != [] && s[0] != ' ' && Lex(s, ' ') == (tok, n)
    ensures TokenAt(pre + s, |pre|) == (tok, |pre| + n)
  {
    assert (pre + s)[|pre|..] == s;
  }

  /** Tokens hands out the token at curr, then the tokens after it. */
  lemma TokensCons(line: string, curr: nat, tok: string, next: nat)
    requires curr < |line| && TokenAt(line, curr) == (tok, next)
    ensures Tokens(line, curr) == [tok] + Tokens(line, next)
  {
  }

  /** The rebuilt line starts with its first word as a token, and the space after it is consumed. */
  lemma SpacedFirst(words: seq<string>)
    requires words != [] && words[0] != "" && AllPlain(words[0])
    ensures Spaced(words) != [] && Spaced(words)[0] != ' '
    ensures Lex(Spaced(words), ' ') == (words[0], |words[0]| + 1)
  {
    assert IsPlain(words[0][0]);
    LexPlain(words[0], Spaced(words[1..]));
  }

  lemma SpacedStep(pre: string, words: seq<string>)
    requires words != []
    ensures pre + Spaced(words) == (pre + words[0] + " ") + Spaced(words[1..])
  {
  }

  /** The first word of a rebuilt line is its first token, and the tokens after it are those of the rest. */
  lemma SpacedTokensStep(pre: string, words: seq<string>)
    requires words != [] && words[0] != "" && AllPlain(words[0])
    ensures var pre' := pre + words[0] + " ";
      Tokens(pre + Spaced(words), |pre|) == [words[0]] + Tokens(pre' + Spaced(words[1..]), |pre'|)
  {
    var w := words[0];
    SpacedFirst(words);
    TokenAtStart(pre, Spaced(words), w, |w| + 1);
    TokensCons(pre + Spaced(words), |pre|, w, |pre| + |w| + 1);
    SpacedStep(pre, words);
  }

  /** Tokenizing words of plain characters, each followed by one space, gives back the words. */
  lemma {:induction false} TokensOfSpaced(words: seq<string>, pre: string)
    requires forall j :: 0 <= j < |words| ==> words[j] != "" && AllPlain(words[j])
    ensures Tokens(pre + Spaced(words), |pre|) == words
    decreases |words|
  {
    var line := pre + Spaced(words);
    if words != [] {
      var w := words[0];
      var pre' := pre + w + " ";
      SpacedTokensStep(pre, words);
      assert forall j :: 0 <= j < |words[1..]| ==> words[1..][j] == words[j + 1];
      TokensOfSpaced(words[1..], pre');
      assert [w] + words[1..] == words;
    } else {
      assert line == pre;
    }
  }

  /** Two spaces at the end yield a last, empty token. */
  lemma TrailingSpacesToken()
    ensures Tokens("a  ", 0) == ["a", ""]
  {
    var line := "a  ";
    assert line == "a" + " " + " " && line[0..] == line;
    assert AllPlain("a");
    LexPlain("a", " ");
    assert Spaces(line) == 0;
    assert TokenAt(line, 0) == ("a", 2);
    var rest := line[2..];
    assert rest == " " && rest[1..] == [] && line[3..] == [];
    assert Spaces(rest) == 1;
    assert TokenAt(line, 2) == ("", 3);
    assert Tokens(line, 3) == [];
    assert Tokens(line, 2) == [""];
  }
}
