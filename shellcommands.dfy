/**
 * The command layer of the hydranode shell (hncore/hnsh/shellcommands.cpp):
 * abbreviated command lookup, binding of operation arguments, the
 * "1,3-5" object-selection syntax, the two-step cancel confirmation and the
 * command history.
 */
module ShellCommands {
  import opened Wrappers
  import opened Streams
  import opened Utils
  import opened ShellClient

  const NOT_FOUND := ": command not found"
  const AMBIGUOUS := "Ambigious command; candidates are: "
  const INVALID_ARGUMENT := "invalid argument"
  const MISSING_ARGUMENTS := "Missing required argument(s): "
  const INVALID_SELECTION := "Invalid object selection sequence."
  const OUT_OF_RANGE := "basic_string::substr"
  const U32: nat := 0x1_0000_0000

  // ---------------------------------------------------------------- command lookup

  predicate IsPrefix(p: string, s: string) {
    |p| <= |s| && s[..|p|] == p
  }

  /** The names that start with word, in order. */
  function Matches(names: seq<string>, word: string): (r: seq<string>)
    ensures forall x :: x in r ==> x in names && IsPrefix(word, x)
    ensures forall x :: x in names && IsPrefix(word, x) ==> x in r
  {
    if names == [] then []
    else (if IsPrefix(word, names[0]) then [names[0]] else []) + Matches(names[1..], word)
  }

  datatype Lookup = Found(name: string) | Ambiguous(first: string, second: string) | NotFound

  /**
   * The outcome of scanning the candidates in order: the exact name ends the scan,
   * a second abbreviation match before it makes the word ambiguous.
   */
  function Resolve(ms: seq<string>, word: string): Lookup {
    if ms == [] then NotFound
    else if ms[0] == word || |ms| == 1 then Found(ms[0])
    else if ms[1] == word then Found(word)
    else Ambiguous(ms[0], ms[1])
  }

  lemma {:induction false} MatchesAppend(a: seq<string>, b: seq<string>, word: string)
    ensures Matches(a + b, word) == Matches(a, word) + Matches(b, word)
  {
    if a != [] {
      var h := if IsPrefix(word, a[0]) then [a[0]] else [];
      DropConcat(a, b);
      MatchesAppend(a[1..], b, word);
      MatchesUnfold(a + b, word);
      ConcatAssoc(h, Matches(a[1..], word), Matches(b, word));
    } else {
      assert [] + b == b;
    }
  }

  lemma MatchesUnfold(s: seq<string>, word: string)
    requires s != []
    ensures Matches(s, word) == (if IsPrefix(word, s[0]) then [s[0]] else []) + Matches(s[1..], word)
  {
  }

  lemma MatchesOne(x: string, word: string)
    ensures Matches([x], word) == if IsPrefix(word, x) then [x] else []
  {
    assert [x][1..] == [];
  }

  /** How the matches of a list split around position i. */
  lemma MatchesAt(names: seq<string>, i: nat, word: string)
    requires i < |names|
    ensures Matches(names[..i + 1], word) ==
      Matches(names[..i], word) + (if IsPrefix(word, names[i]) then [names[i]] else [])
    ensures Matches(names, word) == Matches(names[..i + 1], word) + Matches(names[i + 1..], word)
  {
    TakeSnoc(names, i);
    MatchesAppend(names[..i], [names[i]], word);
    MatchesOne(names[i], word);
    TakeDrop(names, i + 1);
    MatchesAppend(names[..i + 1], names[i + 1..], word);
  }

  /** The scan stops at the exact name when at most one abbreviation came before it. */
  lemma ResolveExact(pre: seq<string>, word: string, post: seq<string>)
    requires |pre| <= 1 && word !in pre
    ensures Resolve(pre + [word] + post, word) == Found(word)
  {
  }

  /** The scan stops at a second abbreviation before the exact name. */
  lemma ResolveSecond(first: string, second: string, word: string, post: seq<string>)
    requires first != word && second != word
    ensures Resolve([first] + [second] + post, word) == Ambiguous(first, second)
  {
  }

  /**
   * The lookup loop of dispatch over the command map and of helperCallObjOper over
   * an object's operations (the two loops test the same conditions in a different order).
   */
  method FindCommand(names: seq<string>, word: string) returns (r: Lookup)
    ensures r == Resolve(Matches(names, word), word)
  {
    var found: Option<string> := None;
    var i := 0;
    while i < |names|
      invariant 0 <= i <= |names|
      invariant word !in Matches(names[..i], word)
      invariant found.None? ==> Matches(names[..i], word) == []
      invariant found.Some? ==> Matches(names[..i], word) == [found.value]
    {
      var cmd := names[i];
      MatchesAt(names, i, word);
      if |cmd| < |word| {
        i := i + 1;
        continue;
      }
      if cmd[..|word|] != word {
        i := i + 1;
        continue;
      }
      if cmd == word {
        ResolveExact(Matches(names[..i], word), word, Matches(names[i + 1..], word));
        return Found(word);
      } else if found.None? {
        found := Some(cmd);
      } else {
        ResolveSecond(found.value, cmd, word, Matches(names[i + 1..], word));
        return Ambiguous(found.value, cmd);
      }
      i := i + 1;
    }
    assert names[..i] == names;
    r := if found.None? then NotFound else Found(found.value);
  }

  /** The order of std::map<std::string, ...>: lexicographic on characters. */
  predicate Below(a: string, b: string)
    decreases |a|
  {
    if a == [] then b != []
    else if b == [] then false
    else if a[0] != b[0] then a[0] < b[0]
    else Below(a[1..], b[1..])
  }

  predicate Sorted(names: seq<string>) {
    forall i, j :: 0 <= i < j < |names| ==> Below(names[i], names[j])
  }

  /** A string never sorts below one of its own prefixes. */
  lemma {:induction false} NotBelowPrefix(c: string, w: string)
    requires IsPrefix(w, c)
    ensures !Below(c, w)
    decreases |w|
  {
    if w != [] && c != [] {
      assert c[1..][..|w| - 1] == w[1..];
      NotBelowPrefix(c[1..], w[1..]);
    }
  }

  /** In sorted names the exact word comes before every longer name it abbreviates. */
  lemma {:induction false} ExactFirst(names: seq<string>, word: string)
    requires Sorted(names) && word in names
    ensures Matches(names, word) != [] && Matches(names, word)[0] == word
    decreases |names|
  {
    if names[0] != word {
      var j :| 0 <= j < |names| && names[j] == word;
      if IsPrefix(word, names[0]) {
        assert Below(names[0], names[j]);
        NotBelowPrefix(names[0], word);
      } else {
        assert names[1..][j - 1] == word;
        ExactFirst(names[1..], word);
      }
    } else {
      assert IsPrefix(word, names[0]);
    }
  }

  /**
   * Over the sorted command map an exact name always wins; otherwise a single
   * abbreviation match is taken, two or more are ambiguous, none is not found.
   */
  lemma CommandLookup(names: seq<string>, word: string)
    requires Sorted(names)
    ensures word in names ==> Resolve(Matches(names, word), word) == Found(word)
    ensures word !in names && |Matches(names, word)| == 1 ==>
      Resolve(Matches(names, word), word) == Found(Matches(names, word)[0])
    ensures word !in names && |Matches(names, word)| >= 2 ==>
      Resolve(Matches(names, word), word) == Ambiguous(Matches(names, word)[0], Matches(names, word)[1])
    ensures Resolve(Matches(names, word), word) == NotFound <==> forall x :: x in names ==> !IsPrefix(word, x)
  {
    if word in names {
      ExactFirst(names, word);
    }
    var ms := Matches(names, word);
    if ms != [] {
      assert ms[0] in ms;
    }
    if |ms| >= 2 && word !in names {
      assert ms[1] in ms;
    }
  }

  /** Over the unsorted operations of an object, two abbreviations listed before the exact name hide it. */
  lemma OperationOrderMatters(word: string, x: string, y: string)
    requires IsPrefix(word, x) && IsPrefix(word, y) && x != word && y != word
    ensures Resolve(Matches([x, y, word], word), word) == Ambiguous(x, y)
    ensures Resolve(Matches([word, x, y], word), word) == Found(word)
  {
    MatchesOne(x, word);
    MatchesOne(y, word);
    MatchesOne(word, word);
    MatchesThree(x, y, word, word);
    MatchesThree(word, x, y, word);
  }

  lemma MatchesThree(a: string, b: string, c: string, word: string)
    ensures Matches([a, b, c], word) == Matches([a], word) + Matches([b], word) + Matches([c], word)
  {
    assert [a, b, c] == [a] + ([b] + [c]);
    MatchesAppend([a], [b] + [c], word);
    MatchesAppend([b], [c], word);
  }

  /** What dispatch hands the command line to. */
  datatype Target = ObjectOper(oper: string) | Command(name: string)

  /** The error text dispatch sets when the command map has no single match. */
  function LookupError(r: Lookup, word: string): string {
    match r
    case Ambiguous(a, b) => AMBIGUOUS + a + " " + b
    case _ => word + NOT_FOUND
  }

  // ---------------------------------------------------------------- command line rebuilt

  /** The loop of dispatch that rebuilds the line with the full command name. */
  method ExpandCommand(name: string, rest: seq<string>) returns (tmp: string)
    ensures tmp == Spaced([name] + rest)
  {
    tmp := name + " ";
    var i := 0;
    while i < |rest|
      invariant 0 <= i <= |rest|
      invariant tmp + Spaced(rest[i..]) == Spaced([name] + rest)
    {
      assert rest[i..] == [rest[i]] + rest[i + 1..];
      ConcatAssoc(tmp, rest[i] + " ", Spaced(rest[i + 1..]));
      tmp := tmp + rest[i] + " ";
      i := i + 1;
    }
    assert tmp + "" == tmp;
  }

  /** The rebuilt line tokenizes back to the full name and the arguments when these are plain words. */
  lemma ExpandedPlain(name: string, rest: seq<string>)
    requires name != [] && AllPlain(name)
    requires forall j :: 0 <= j < |rest| ==> rest[j] != [] && AllPlain(rest[j])
    ensures Tokens(Spaced([name] + rest), 0) == [name] + rest
  {
    var words := [name] + rest;
    forall j | 0 <= j < |words|
      ensures words[j] != [] && AllPlain(words[j])
    {
      if j > 0 {
        assert words[j] == rest[j - 1];
      }
    }
    TokensOfSpaced(words, "");
    assert "" + Spaced(words) == Spaced(words);
  }

  /** A quoted argument holding a space is split in two once the line is rebuilt. */
  lemma ExpandSplitsQuoted(name: string, x: string, y: string)
    requires name != [] && AllPlain(name) && x != [] && AllPlain(x) && y != [] && AllPlain(y)
    ensures Tokens(name + " " + Quoted(x + " " + y), 0) == [name, x + " " + y]
    ensures Tokens(Spaced([name, x + " " + y]), 0) == [name, x, y]
  {
    QuotedArgument(name, x + " " + y);
    SpacedJoin(name, x, y);
    ExpandedPlain(name, [x, y]);
  }

  lemma SpacedJoin(name: string, x: string, y: string)
    ensures Spaced([name, x + " " + y]) == Spaced([name] + [x, y])
  {
    assert [name] + [x, y] == [name, x, y];
    assert [name, x, y][1..] == [x, y];
    assert [x, y][1..] == [y];
    assert [y][1..] == [];
    assert [name, x + " " + y][1..] == [x + " " + y];
    assert [x + " " + y][1..] == [];
    calc {
      Spaced([x + " " + y]);
      (x + " " + y) + " " + "";
      x + " " + (y + " " + "");
      x + " " + Spaced([y]);
      Spaced([x, y]);
    }
  }

  function Quoted(body: string): string { ['"'] + body + ['"'] }

  /** A plain name, a space and a double-quoted argument are two tokens. */
  lemma QuotedArgument(name: string, body: string)
    requires name != [] && AllPlain(name)
    requires forall i :: 0 <= i < |body| ==> body[i] != '"' && body[i] != '\\'
    ensures Tokens(name + " " + Quoted(body), 0) == [name, body]
  {
    var line := name + " " + Quoted(body);
    LexPlain(name, Quoted(body));
    assert line[0..] == line;
    assert Spaces(line) == 0;
    assert TokenAt(line, 0) == (name, |name| + 1);
    LexQuoted('"', body, "");
    assert line[|name| + 1..] == ['"'] + body + ['"'] + "";
    assert line[|name| + 1] == '"';
    assert TokenAt(line, |name| + 1) == (body, |line|);
    assert Tokens(line, |name| + 1) == [body] + Tokens(line, |line|);
    assert Tokens(line, 0) == [name] + Tokens(line, |name| + 1);
  }

  /** Each argument with every character escaped, then a space. */
  function EscapedLine(words: seq<string>): string {
    if words == [] then "" else Escaped(words[0]) + " " + EscapedLine(words[1..])
  }

  /** The escaped line starts with its first argument as a token, and the space after it is consumed. */
  lemma EscapedLineFirst(words: seq<string>)
    requires words != [] && words[0] != []
    ensures EscapedLine(words) != [] && EscapedLine(words)[0] != ' '
    ensures Lex(EscapedLine(words), ' ') == (words[0], 2 * |words[0]| + 1)
  {
    EscapedHead(words[0]);
    LexEscaped(words[0], EscapedLine(words[1..]));
  }

  lemma EscapedLineStep(pre: string, words: seq<string>)
    requires words != []
    ensures pre + EscapedLine(words) == (pre + Escaped(words[0]) + " ") + EscapedLine(words[1..])
  {
  }

  /** The first escaped argument is the first token, and the tokens after it are those of the rest. */
  lemma EscapedTokensStep(pre: string, words: seq<string>)
    requires words != [] && words[0] != []
    ensures var pre' := pre + Escaped(words[0]) + " ";
      Tokens(pre + EscapedLine(words), |pre|) == [words[0]] + Tokens(pre' + EscapedLine(words[1..]), |pre'|)
  {
    var w := words[0];
    EscapedLineFirst(words);
    TokenAtStart(pre, EscapedLine(words), w, 2 * |w| + 1);
    TokensCons(pre + EscapedLine(words), |pre|, w, |pre| + 2 * |w| + 1);
    EscapedLineStep(pre, words);
  }

  /** Rebuilding with escaped arguments gives back exactly the tokens, quoted spaces included. */
  lemma {:induction false} TokensOfEscaped(words: seq<string>, pre: string)
    requires forall j :: 0 <= j < |words| ==> words[j] != []
    ensures Tokens(pre + EscapedLine(words), |pre|) == words
    decreases |words|
  {
    var line := pre + EscapedLine(words);
    if words != [] {
      var w := words[0];
      var pre' := pre + Escaped(w) + " ";
      EscapedTokensStep(pre, words);
      assert forall j :: 0 <= j < |words[1..]| ==> words[1..][j] == words[j + 1];
      TokensOfEscaped(words[1..], pre');
      assert [w] + words[1..] == words;
    } else {
      assert line == pre;
    }
  }

  /** The corrected rebuild: the full name, then every argument escaped. */
  function ExpandEscaped(name: string, rest: seq<string>): (line: string)
    requires name != [] && AllPlain(name)
    requires forall j :: 0 <= j < |rest| ==> rest[j] != []
    ensures Tokens(line, 0) == [name] + rest
  {
    LexPlain(name, EscapedLine(rest));
    TokensOfEscaped(rest, name + " ");
    var line := name + " " + EscapedLine(rest);
    assert line[0..] == name + " " + EscapedLine(rest);
    assert name[0] != ' ';
    line
  }

  // ---------------------------------------------------------------- argument binding

  datatype Argument = Argument(name: string, value: string)

  /** std::string::find: the index of the first c, or |s| for npos. */
  function Find(s: string, c: char): (i: nat)
    ensures i <= |s|
    ensures forall j :: 0 <= j < i ==> s[j] != c
    ensures i < |s| ==> s[i] == c
  {
    if s == [] then 0 else if s[0] == c then 0 else 1 + Find(s[1..], c)
  }

  predicate IsNamed(t: string) {
    |t| >= 2 && t[..2] == "--"
  }

  /** A "--name=value" or "--flag" argument: the text before '=' is the name, the rest the value; a flag is "1". */
  function NamedArg(t: string): (a: Argument)
    requires IsNamed(t)
  {
    var pos := Find(t, '=');
    if pos == |t| then Argument(t[2..], "1") else Argument(t[2..pos], t[pos + 1..])
  }

  lemma NamedArgRoundTrip(n: string, v: string)
    requires '=' !in n
    ensures NamedArg("--" + n + "=" + v) == Argument(n, v)
    ensures NamedArg("--" + n) == Argument(n, "1")
  {
    var t := "--" + n + "=" + v;
    assert IsNamed(t) by { assert t[..2] == "--"; }
    FindAfter(t, n, '=');
    assert t[2..2 + |n|] == n;
    assert t[3 + |n|..] == v;
    var f := "--" + n;
    assert f[..2] == "--";
    FindAfterAll(f, n, '=');
    assert f[2..] == n;
  }

  /** The first c in "--" + n + [c] + ... is the one after n. */
  lemma FindAfter(t: string, n: string, c: char)
    requires |t| > 2 + |n| && t[..2] == "--" && t[2..2 + |n|] == n && t[2 + |n|] == c && c != '-' && c !in n
    ensures Find(t, c) == 2 + |n|
  {
    forall j | 0 <= j < 2 + |n|
      ensures t[j] != c
    {
      if j >= 2 {
        assert t[j] == t[2..2 + |n|][j - 2];
      } else {
        assert t[j] == t[..2][j];
      }
    }
  }

  lemma FindAfterAll(t: string, n: string, c: char)
    requires t == "--" + n && c != '-' && c !in n
    ensures Find(t, c) == |t|
  {
    forall j | 0 <= j < |t|
      ensures t[j] != c
    {
      if j >= 2 {
        assert t[j] == n[j - 2];
      }
    }
  }

  /** Arguments put in front of a binding result. */
  function PrependArgs(args: seq<Argument>, b: Result<(seq<Argument>, seq<string>)>): Result<(seq<Argument>, seq<string>)> {
    if b.Err? then b else Ok((args + b.value.0, b.value.1))
  }

  lemma PrependArgsTwice(args: seq<Argument>, a: Argument, b: Result<(seq<Argument>, seq<string>)>)
    ensures PrependArgs(args, PrependArgs([a], b)) == PrependArgs(args + [a], b)
  {
    if b.Ok? {
      ConcatAssoc(args, [a], b.value.0);
    }
  }

  lemma PrependNothing(b: Result<(seq<Argument>, seq<string>)>)
    ensures PrependArgs([], b) == b
  {
    if b.Ok? {
      assert [] + b.value.0 == b.value.0;
    }
  }

  /**
   * The positional and named arguments after the operation name, bound in order:
   * each positional one to the next required name. The required names left over are returned.
   */
  function Binding(required: seq<string>, toks: seq<string>): (r: Result<(seq<Argument>, seq<string>)>)
    ensures r.Err? ==> r.msg == INVALID_ARGUMENT
    decreases |toks|
  {
    if toks == [] then Ok(([], required))
    else if IsNamed(toks[0]) then PrependArgs([NamedArg(toks[0])], Binding(required, toks[1..]))
    else if required == [] then Err(INVALID_ARGUMENT)
    else PrependArgs([Argument(required[0], toks[0])], Binding(required[1..], toks[1..]))
  }

  /** The result of binding: the arguments, or the error naming every required argument left. */
  function Bound(required: seq<string>, toks: seq<string>): Result<seq<Argument>> {
    var b := Binding(required, toks);
    if b.Err? then Err(b.msg)
    else if b.value.1 != [] then Err(MISSING_ARGUMENTS + Spaced(b.value.1))
    else Ok(b.value.0)
  }

  /** The argument-binding loops of helperCallObjOper. */
  method BindArgs(required: seq<string>, toks: seq<string>) returns (r: Result<seq<Argument>>)
    ensures r == Bound(required, toks)
  {
    var args: seq<Argument> := [];
    var req := required;
    var i := 0;
    assert toks[0..] == toks;
    PrependNothing(Binding(req, toks));
    while i < |toks|
      invariant 0 <= i <= |toks|
      invariant Binding(required, toks) == PrependArgs(args, Binding(req, toks[i..]))
    {
      var t := toks[i];
      assert toks[i..][1..] == toks[i + 1..];
      if IsNamed(t) {
        PrependArgsTwice(args, NamedArg(t), Binding(req, toks[i + 1..]));
        args := args + [NamedArg(t)];
      } else if req != [] {
        PrependArgsTwice(args, Argument(req[0], t), Binding(req[1..], toks[i + 1..]));
        args := args + [Argument(req[0], t)];
        req := req[1..];
      } else {
        return Err(INVALID_ARGUMENT);
      }
      i := i + 1;
    }
    assert args + [] == args;
    var error := JoinNames(req);
    if req != [] {
      return Err(MISSING_ARGUMENTS + error);
    }
    r := Ok(args);
  }

  /** The loop that lists the missing required names, each followed by a space. */
  method JoinNames(names: seq<string>) returns (error: string)
    ensures error == Spaced(names)
  {
    error := "";
    var j := 0;
    while j < |names|
      invariant 0 <= j <= |names|
      invariant error + Spaced(names[j..]) == Spaced(names)
    {
      assert names[j..] == [names[j]] + names[j + 1..];
      ConcatAssoc(error, names[j] + " ", Spaced(names[j + 1..]));
      error := error + names[j] + " ";
      j := j + 1;
    }
    assert error + "" == error;
  }

  /** Plain values (none starting with "--") bind to the required arguments in order. */
  lemma {:induction false} PositionalBinding(required: seq<string>, vals: seq<string>)
    requires forall j :: 0 <= j < |vals| ==> !IsNamed(vals[j])
    ensures |vals| > |required| ==> Binding(required, vals) == Err(INVALID_ARGUMENT)
    ensures |vals| <= |required| ==> (Binding(required, vals).Ok? &&
      Binding(required, vals).value.1 == required[|vals|..] &&
      |Binding(required, vals).value.0| == |vals| &&
      forall j :: 0 <= j < |vals| ==> Binding(required, vals).value.0[j] == Argument(required[j], vals[j]))
    decreases |vals|
  {
    if vals != [] && required != [] {
      PositionalBinding(required[1..], vals[1..]);
      assert forall j :: 0 < j < |vals| ==> vals[1..][j - 1] == vals[j];
    }
  }

  /** Too many values is "invalid argument"; too few lists the missing names. */
  lemma PositionalBound(required: seq<string>, vals: seq<string>)
    requires forall j :: 0 <= j < |vals| ==> !IsNamed(vals[j])
    ensures |vals| > |required| ==> Bound(required, vals) == Err(INVALID_ARGUMENT)
    ensures |vals| < |required| ==> Bound(required, vals) == Err(MISSING_ARGUMENTS + Spaced(required[|vals|..]))
    ensures |vals| == |required| ==> (Bound(required, vals).Ok? && |Bound(required, vals).value| == |vals| &&
      forall j :: 0 <= j < |vals| ==> Bound(required, vals).value[j] == Argument(required[j], vals[j]))
  {
    PositionalBinding(required, vals);
  }

  /** A named argument does not count for a required one of the same name. */
  lemma NamedDoesNotFill(n: string)
    requires '=' !in n
    ensures Bound([n], ["--" + n + "=1"]) == Err(MISSING_ARGUMENTS + n + " ")
  {
    var t := "--" + n + "=1";
    assert t[..2] == "--";
    assert ["--" + n + "=1"][1..] == [];
    assert Binding([n], ["--" + n + "=1"]) == PrependArgs([NamedArg(t)], Ok(([], [n])));
    assert [n][1..] == [];
    assert Spaced([n]) == n + " " + "";
  }

  /** std::string::substr(pos): out_of_range beyond the end. */
  function SubstrFrom(s: string, pos: nat): Result<string> {
    if pos > |s| then Err(OUT_OF_RANGE) else Ok(s[pos..])
  }

  /** std::string::substr(pos, n). */
  function Substr(s: string, pos: nat, n: nat): Result<string> {
    if pos > |s| then Err(OUT_OF_RANGE) else Ok(s[pos..if pos + n <= |s| then pos + n else |s|])
  }

  /**
   * The named argument as written: the name is substr(2, pos), that is pos characters
   * from index 2, and the value substr(pos + 2), one character past the '='.
   */
  function NamedArgAsWritten(t: string): (r: Result<Argument>)
    requires IsNamed(t)
  {
    var pos := Find(t, '=');
    var argn := Substr(t, 2, pos).value;
    if pos == |t| then Ok(Argument(argn, "1"))
    else
      var argv := SubstrFrom(t, pos + 2);
      if argv.Err? then Err(argv.msg) else Ok(Argument(argn, argv.value))
  }

  /**
   * For "--" + n + "=" + v with a non-empty value, the name as written runs one
   * character past the '=' and the value loses its first character.
   */
  lemma NamedArgAsWrittenShiftsAll(n: string, v: string)
    requires '=' !in n && v != []
    ensures NamedArgAsWritten("--" + n + "=" + v) == Ok(Argument(n + "=" + v[..1], v[1..]))
  {
    var t := "--" + n + "=" + v;
    assert t[..2] == "--";
    assert t[2..2 + |n|] == n;
    FindAfter(t, n, '=');
    assert t[2..4 + |n|] == n + "=" + v[..1];
    assert t[4 + |n|..] == v[1..];
  }

  /** "--name=value" is bound as name "name=v" with value "alue". */
  lemma NamedArgAsWrittenShifts()
    ensures NamedArgAsWritten("--name=value") == Ok(Argument("name=v", "alue"))
    ensures NamedArg("--name=value") == Argument("name", "value")
  {
    NamedArgAsWrittenShiftsAll("name", "value");
    assert "--name=value" == "--" + "name" + "=" + "value";
    assert "value"[..1] == "v" && "value"[1..] == "alue";
    assert "name" + "=" + "v" == "name=v";
    NamedArgRoundTrip("name", "value");
  }

  /** "--a=" throws out_of_range, where a flag with an empty value was meant. */
  lemma NamedArgAsWrittenThrows()
    ensures NamedArgAsWritten("--a=") == Err(OUT_OF_RANGE)
    ensures NamedArg("--a=") == Argument("a", "")
  {
    var u := "--a=";
    assert u[..2] == "--";
    FindAfter(u, "a", '=');
    assert u[2..3] == "a";
    assert u[4..] == "";
  }

  // ---------------------------------------------------------------- selectObjects

  /** boost::split on one separator: the pieces between separators, empty ones included. */
  function SplitOn(s: string, c: char): (r: seq<string>)
    ensures |r| >= 1
    decreases |s|
  {
    var i := Find(s, c);
    if i == |s| then [s] else [s[..i]] + SplitOn(s[i + 1..], c)
  }

  lemma FindAbsent(s: string, c: char)
    requires forall i :: 0 <= i < |s| ==> s[i] != c
    ensures Find(s, c) == |s|
  {
  }

  /** A number as uint_p and lexical_cast<uint32_t> read it: decimal digits only, below 2^32. */
  predicate AllDigits(s: string) {
    forall i :: 0 <= i < |s| ==> IsDecChar(s[i])
  }

  function ParseNumber(s: string): (r: Option<nat>)
    ensures r.Some? ==> r.value < U32 && AllDigits(s)
  {
    if s != [] && AllDigits(s) && DigitsValue(s, 10) < U32
    then Some(DigitsValue(s, 10)) else None
  }

  /** "a-b", both numbers. */
  function ParseRange(s: string): Option<(nat, nat)> {
    var i := Find(s, '-');
    if i == |s| then None
    else
      var a := ParseNumber(s[..i]);
      var b := ParseNumber(s[i + 1..]);
      if a.Some? && b.Some? then Some((a.value, b.value)) else None
  }

  /** Every integer from lo to hi, ascending. */
  function Interval(lo: nat, hi: nat): (r: seq<nat>)
    requires lo <= hi
    ensures |r| == hi - lo + 1
    ensures forall j :: 0 <= j < |r| ==> r[j] == lo + j
  {
    seq(hi - lo + 1, j requires 0 <= j => lo + j)
  }

  /** The objects one comma-separated piece selects. */
  function PieceItems(p: string): Option<seq<nat>> {
    var range := ParseRange(p);
    if range.Some? then
      var (a, b) := range.value;
      Some(if a <= b then Interval(a, b) else Interval(b, a))
    else
      var n := ParseNumber(p);
      if n.Some? then Some([n.value]) else None
  }

  /** The selection so far extended by one more piece. */
  function Extend(front: Result<seq<nat>>, items: Option<seq<nat>>): Result<seq<nat>> {
    if front.Err? then front
    else if items.None? then Err(INVALID_SELECTION)
    else Ok(front.value + items.value)
  }

  /** The selection of a list of pieces, read front to back; any bad piece is an error. */
  function Selected(pieces: seq<string>): Result<seq<nat>>
    decreases |pieces|
  {
    if pieces == [] then Ok([])
    else Extend(Selected(pieces[..|pieces| - 1]), PieceItems(pieces[|pieces| - 1]))
  }

  lemma SelectedSnoc(ps: seq<string>, i: nat)
    requires i < |ps|
    ensures Selected(ps[..i + 1]) == Extend(Selected(ps[..i]), PieceItems(ps[i]))
  {
    assert ps[..i + 1][..i] == ps[..i];
    assert ps[..i + 1][i] == ps[i];
  }

  /** Once a prefix of the pieces fails, the whole selection fails. */
  lemma {:induction false} SelectedErrPersists(ps: seq<string>, k: nat)
    requires k <= |ps| && Selected(ps[..k]).Err?
    ensures Selected(ps) == Selected(ps[..k])
    decreases |ps|
  {
    if k < |ps| {
      var init := ps[..|ps| - 1];
      assert init[..k] == ps[..k];
      SelectedErrPersists(init, k);
    } else {
      assert ps[..k] == ps;
    }
  }

  /** The `while (first++ != last)` loop: push first..last. */
  method PushInterval(ret0: seq<nat>, lo: nat, last: nat) returns (ret: seq<nat>)
    requires lo <= last
    ensures ret == ret0 + Interval(lo, last)
  {
    var first := lo;
    ret := ret0 + [first];
    assert Interval(lo, lo) == [lo];
    while first != last
      invariant lo <= first <= last
      invariant ret == ret0 + Interval(lo, first)
    {
      assert Interval(lo, first + 1) == Interval(lo, first) + [first + 1];
      first := first + 1;
      ret := ret + [first];
    }
  }

  /** ShellCommands::selectObjects. */
  method SelectObjects(input: string) returns (r: Result<seq<nat>>)
    ensures r == Selected(SplitOn(input, ','))
  {
    var subStrings := SplitOn(input, ',');
    var ret: seq<nat> := [];
    var i := 0;
    while i < |subStrings|
      invariant 0 <= i <= |subStrings|
      invariant Selected(subStrings[..i]) == Ok(ret)
    {
      SelectedSnoc(subStrings, i);
      var ok;
      ok, ret := SelectPiece(ret, subStrings[i]);
      if !ok {
        SelectedErrPersists(subStrings, i + 1);
        return Err(INVALID_SELECTION);
      }
      i := i + 1;
    }
    assert subStrings[..i] == subStrings;
    r := Ok(ret);
  }

  /** The body of the selectObjects loop for one piece. */
  method SelectPiece(ret0: seq<nat>, piece: string) returns (ok: bool, ret: seq<nat>)
    ensures Extend(Ok(ret0), PieceItems(piece)) == if ok then Ok(ret) else Err(INVALID_SELECTION)
  {
    var range := ParseRange(piece);
    if range.Some? {
      var (first, last) := range.value;
      if last < first {
        first, last := last, first;
      }
      ret := PushInterval(ret0, first, last);
      return true, ret;
    }
    var n := ParseNumber(piece);
    if n.None? {
      return false, ret0;
    }
    return true, ret0 + [n.value];
  }

  /** The selection fails exactly when some piece is neither a number nor a range. */
  lemma {:induction false} SelectionFails(pieces: seq<string>)
    ensures Selected(pieces).Err? <==> exists j :: 0 <= j < |pieces| && PieceItems(pieces[j]).None?
    ensures Selected(pieces).Err? ==> Selected(pieces).msg == INVALID_SELECTION
    decreases |pieces|
  {
    if pieces != [] {
      var n := |pieces| - 1;
      var init := pieces[..n];
      SelectionFails(init);
      assert Selected(pieces) == Extend(Selected(init), PieceItems(pieces[n]));
      if Selected(pieces).Err? {
        if Selected(init).Err? {
          var j :| 0 <= j < |init| && PieceItems(init[j]).None?;
          assert pieces[j] == init[j];
        } else {
          assert PieceItems(pieces[n]).None?;
        }
      } else {
        assert Selected(init).Ok? && PieceItems(pieces[n]).Some?;
        forall j | 0 <= j < |pieces|
          ensures PieceItems(pieces[j]).Some?
        {
          if j < n {
            assert init[j] == pieces[j];
            assert PieceItems(init[j]).Some?;
          } else {
            assert j == n;
          }
        }
      }
    }
  }

  lemma NumberOfDecimal(n: nat)
    requires n < U32
    ensures ParseNumber(Decimal(n)) == Some(n)
    ensures Find(Decimal(n), '-') == |Decimal(n)| && Find(Decimal(n), ',') == |Decimal(n)|
  {
    DecimalValue(n);
    var d := Decimal(n);
    FindAbsent(d, '-');
    FindAbsent(d, ',');
  }

  /** Digits, a dash and digits read back as the range of the two numbers. */
  lemma {:induction false} FindConcat(a: string, b: string, c: char)
    requires forall i :: 0 <= i < |a| ==> a[i] != c
    ensures Find(a + b, c) == |a| + Find(b, c)
    decreases |a|
  {
    if a != [] {
      assert (a + b)[1..] == a[1..] + b;
      FindConcat(a[1..], b, c);
    } else {
      assert a + b == b;
    }
  }

  lemma DigitsAvoid(s: string)
    requires AllDigits(s)
    ensures forall i :: 0 <= i < |s| ==> s[i] != '-' && s[i] != ','
  {
  }

  lemma RangeOfDigits(da: string, db: string, a: nat, b: nat)
    requires ParseNumber(da) == Some(a) && ParseNumber(db) == Some(b)
    ensures ParseRange(da + "-" + db) == Some((a, b))
    ensures Find(da + "-" + db, ',') == |da + "-" + db|
  {
    var s := da + ("-" + db);
    assert s == da + "-" + db;
    DigitsAvoid(da);
    DigitsAvoid(db);
    FindConcat(da, "-" + db, '-');
    FindConcat(da, "-" + db, ',');
    FindConcat("-", db, ',');
    FindAbsent(db, ',');
    assert s[..|da|] == da;
    assert s[|da| + 1..] == db;
  }

  /** Decimal(a) + "-" + Decimal(b) reads back as the range a-b. */
  lemma RangeOfDecimals(a: nat, b: nat)
    requires a < U32 && b < U32
    ensures ParseRange(Decimal(a) + "-" + Decimal(b)) == Some((a, b))
    ensures SplitOn(Decimal(a) + "-" + Decimal(b), ',') == [Decimal(a) + "-" + Decimal(b)]
  {
    NumberOfDecimal(a);
    NumberOfDecimal(b);
    RangeOfDigits(Decimal(a), Decimal(b), a, b);
  }

  lemma PieceOfRange(p: string, a: nat, b: nat)
    requires ParseRange(p) == Some((a, b))
    ensures PieceItems(p) == Some(if a <= b then Interval(a, b) else Interval(b, a))
  {
  }

  lemma SelectedOne(p: string)
    ensures Selected([p]) == Extend(Ok([]), PieceItems(p))
  {
    var ps: seq<string> := [p];
    assert ps[..0] == [];
  }

  /** "a-b" selects every integer between a and b inclusive, in either order. */
  lemma RangeSelection(a: nat, b: nat)
    requires a < U32 && b < U32
    ensures Selected(SplitOn(Decimal(a) + "-" + Decimal(b), ',')) ==
      Ok(if a <= b then Interval(a, b) else Interval(b, a))
  {
    var s := Decimal(a) + "-" + Decimal(b);
    var iv := if a <= b then Interval(a, b) else Interval(b, a);
    RangeOfDecimals(a, b);
    PieceOfRange(s, a, b);
    SelectedOne(s);
    assert Selected([s]) == Ok([] + iv);
    assert [] + iv == iv;
  }

  /** A single number selects just that object. */
  lemma NumberSelection(n: nat)
    requires n < U32
    ensures Selected(SplitOn(Decimal(n), ',')) == Ok([n])
  {
    var d := Decimal(n);
    NumberOfDecimal(n);
    assert ParseRange(d) == None;
    assert PieceItems(d) == Some([n]);
    SelectedOne(d);
    assert SplitOn(d, ',') == [d];
    assert [] + [n] == [n];
  }

  // ---------------------------------------------------------------- cancel and history

  /** The downloads a cancel selection names, or the first index with no download behind it. */
  datatype Choice = Chosen(ids: set<nat>) | Missing(index: nat)

  function Choose(downloads: seq<Option<nat>>, obj: seq<nat>): (c: Choice)
    ensures c.Chosen? ==> forall j :: 0 <= j < |obj| ==> obj[j] < |downloads| && downloads[obj[j]].Some?
    ensures c.Chosen? ==> forall id :: id in c.ids <==> exists j :: 0 <= j < |obj| && downloads[obj[j]] == Some(id)
    ensures c.Missing? ==> c.index in obj && !(c.index < |downloads| && downloads[c.index].Some?)
  {
    if obj == [] then Chosen({})
    else if !(obj[0] < |downloads| && downloads[obj[0]].Some?) then Missing(obj[0])
    else
      var rest := Choose(downloads, obj[1..]);
      if rest.Missing? then rest
      else
        assert forall j :: 1 <= j < |obj| ==> obj[j] == obj[1..][j - 1];
        Chosen({downloads[obj[0]].value} + rest.ids)
  }

  /** What one cancel command does. */
  datatype CancelOutcome =
    | Syntax
    | SelectionFailed
    | NoSuchDownload(index: nat)
    | Confirm(ids: set<nat>)
    | Cancelled(ids: set<nat>)

  /**
   * The outcome of `cancel <selection>` given the selection remembered from the
   * previous command: the first time a selection is asked to confirm, the same
   * selection entered again cancels.
   */
  function CancelStep(downloads: seq<Option<nat>>, lastCancel: set<nat>, selection: Result<seq<nat>>): CancelOutcome {
    if selection.Err? then SelectionFailed
    else
      var c := Choose(downloads, selection.value);
      if c.Missing? then NoSuchDownload(c.index)
      else if lastCancel != c.ids then Confirm(c.ids)
      else Cancelled(c.ids)
  }

  /** The selection remembered after a cancel step. */
  function RememberedAfter(o: CancelOutcome, lastCancel: set<nat>): set<nat> {
    match o
    case Confirm(ids) => ids
    case Cancelled(_) => {}
    case Syntax => {}
    case _ => lastCancel
  }

  /** Downloads are cancelled only when the same selection was asked to confirm just before. */
  lemma CancelNeedsConfirmation(downloads: seq<Option<nat>>, lastCancel: set<nat>, selection: Result<seq<nat>>)
    ensures CancelStep(downloads, lastCancel, selection).Cancelled? ==>
      selection.Ok? && Choose(downloads, selection.value) == Chosen(lastCancel) &&
      CancelStep(downloads, lastCancel, selection).ids == lastCancel
    ensures CancelStep(downloads, lastCancel, selection).Confirm? ==>
      CancelStep(downloads, RememberedAfter(CancelStep(downloads, lastCancel, selection), lastCancel), selection) ==
        Cancelled(CancelStep(downloads, lastCancel, selection).ids)
  {
  }

  /** The choice made so far, added to the choice of the remaining indices. */
  function AddChosen(ids: set<nat>, c: Choice): Choice {
    if c.Missing? then c else Chosen(ids + c.ids)
  }

  /** The loop of cmdCancelDownload that collects the downloads a selection names. */
  method ToCancel(downloads: seq<Option<nat>>, obj: seq<nat>) returns (c: Choice)
    ensures c == Choose(downloads, obj)
  {
    var toCancel: set<nat> := {};
    var i := 0;
    assert obj[0..] == obj;
    assert AddChosen({}, Choose(downloads, obj)) == Choose(downloads, obj);
    while i < |obj|
      invariant 0 <= i <= |obj|
      invariant Choose(downloads, obj) == AddChosen(toCancel, Choose(downloads, obj[i..]))
    {
      var n := obj[i];
      assert obj[i..][1..] == obj[i + 1..];
      if n < |downloads| && downloads[n].Some? {
        toCancel := toCancel + {downloads[n].value};
      } else {
        return Missing(n);
      }
      i := i + 1;
    }
    assert obj[i..] == [];
    c := Chosen(toCancel);
  }

  /** The shell session: its command map, download listing, pending cancel and history. */
  class Shell {
    var commands: seq<string>
    var downloads: seq<Option<nat>>
    var lastCancel: set<nat>
    var cancelled: set<nat>
    var history: seq<string>
    var curCmd: nat

    predicate Valid()
      reads this
    {
      Sorted(commands) && curCmd <= |history|
    }

    constructor (commands: seq<string>, downloads: seq<Option<nat>>)
      requires Sorted(commands)
      ensures Valid()
      ensures this.commands == commands && this.downloads == downloads
      ensures lastCancel == {} && cancelled == {} && history == [] && curCmd == 0
    {
      this.commands := commands;
      this.downloads := downloads;
      lastCancel, cancelled, history, curCmd := {}, {}, [], 0;
    }

    /**
     * The lookup half of dispatch: the current object's operations first, then the
     * command map. The history cursor is reset to the end.
     */
    method Dispatch(opers: seq<string>, word: string) returns (r: Result<Target>)
      requires Valid()
      modifies this
      ensures Valid()
      ensures curCmd == |history|
      ensures commands == old(commands) && downloads == old(downloads) && history == old(history)
      ensures lastCancel == old(lastCancel) && cancelled == old(cancelled)
      ensures Resolve(Matches(opers, word), word).Found? ==> r == Ok(ObjectOper(Resolve(Matches(opers, word), word).name))
      ensures !Resolve(Matches(opers, word), word).Found? ==>
        (if Resolve(Matches(commands, word), word).Found?
         then r == Ok(Command(Resolve(Matches(commands, word), word).name))
         else r == Err(LookupError(Resolve(Matches(commands, word), word), word)))
    {
      curCmd := |history|;
      var o := FindCommand(opers, word);
      if o.Found? {
        return Ok(ObjectOper(o.name));
      }
      var c := FindCommand(commands, word);
      if c.Found? {
        r := Ok(Command(c.name));
      } else {
        r := Err(LookupError(c, word));
      }
    }

    /** After a handler succeeds, any command but cancel forgets the pending cancel selection. */
    method CommandDone(name: string, handlerOk: bool)
      modifies this
      ensures lastCancel == (if handlerOk && name != "cancel" then {} else old(lastCancel))
      ensures commands == old(commands) && downloads == old(downloads) && history == old(history)
      ensures curCmd == old(curCmd) && cancelled == old(cancelled)
    {
      if handlerOk && name != "cancel" {
        lastCancel := {};
      }
    }

    /** cmdCancelDownload with the arguments after the command name. */
    method CancelDownload(args: seq<string>) returns (outcome: CancelOutcome)
      modifies this
      ensures args == [] ==> outcome == Syntax
      ensures args != [] ==> outcome == CancelStep(old(downloads), old(lastCancel), Selected(SplitOn(args[0], ',')))
      ensures lastCancel == RememberedAfter(outcome, old(lastCancel))
      ensures cancelled == old(cancelled) + (if outcome.Cancelled? then outcome.ids else {})
      ensures commands == old(commands) && downloads == old(downloads) && history == old(history)
      ensures curCmd == old(curCmd)
    {
      if args == [] {
        lastCancel := {};
        return Syntax;
      }
      var obj := SelectObjects(args[0]);
      if obj.Err? {
        return SelectionFailed;
      }
      outcome := CancelSelected(obj.value);
    }

    /** The part of cmdCancelDownload after the selection has been read: confirm first, cancel on the repeat. */
    method CancelSelected(obj: seq<nat>) returns (outcome: CancelOutcome)
      modifies this
      ensures outcome == CancelStep(old(downloads), old(lastCancel), Ok(obj))
      ensures lastCancel == RememberedAfter(outcome, old(lastCancel))
      ensures cancelled == old(cancelled) + (if outcome.Cancelled? then outcome.ids else {})
      ensures commands == old(commands) && downloads == old(downloads) && history == old(history)
      ensures curCmd == old(curCmd)
    {
      var chosen := ToCancel(downloads, obj);
      if chosen.Missing? {
        return NoSuchDownload(chosen.index);
      }
      var toCancel := chosen.ids;
      if lastCancel != toCancel {
        lastCancel := toCancel;
        return Confirm(toCancel);
      }
      cancelled := cancelled + toCancel;
      lastCancel := {};
      outcome := Cancelled(toCancel);
    }

    /** onPDEvent with PD_DESTROY: the listing forgets the download and the pending cancel is dropped. */
    method OnDestroy(id: nat)
      modifies this
      ensures |downloads| == |old(downloads)|
      ensures forall j :: 0 <= j < |downloads| ==>
        downloads[j] == (if old(downloads)[j] == Some(id) then None else old(downloads)[j])
      ensures lastCancel == {}
      ensures commands == old(commands) && history == old(history) && curCmd == old(curCmd)
      ensures cancelled == old(cancelled)
    {
      var j := 0;
      while j < |downloads|
        invariant 0 <= j <= |downloads| == |old(downloads)|
        invariant forall k :: 0 <= k < j ==> downloads[k] == (if old(downloads)[k] == Some(id) then None else old(downloads)[k])
        invariant forall k :: j <= k < |downloads| ==> downloads[k] == old(downloads)[k]
        invariant commands == old(commands) && history == old(history) && curCmd == old(curCmd)
        invariant cancelled == old(cancelled)
      {
        if downloads[j] == Some(id) {
          downloads := downloads[j := None];
        }
        j := j + 1;
      }
      lastCancel := {};
    }

    /** addCommand: append to the history. */
    method AddCommand(cmd: string)
      requires Valid()
      modifies this
      ensures Valid()
      ensures history == old(history) + [cmd] && curCmd == old(curCmd)
      ensures commands == old(commands) && downloads == old(downloads)
      ensures lastCancel == old(lastCancel) && cancelled == old(cancelled)
    {
      history := history + [cmd];
    }

    /** getPrevCommand: step back one entry, staying on the first one. */
    method GetPrevCommand() returns (cmd: string)
      requires Valid()
      modifies this
      ensures Valid()
      ensures history == old(history) && commands == old(commands) && downloads == old(downloads)
      ensures history == [] ==> cmd == "" && curCmd == old(curCmd)
      ensures history != [] && old(curCmd) == 0 ==> cmd == history[0] && curCmd == 0
      ensures history != [] && old(curCmd) > 0 ==> curCmd == old(curCmd) - 1 && cmd == history[curCmd]
      ensures lastCancel == old(lastCancel) && cancelled == old(cancelled)
    {
      if |history| < 1 {
        return "";
      } else if curCmd == 0 {
        return history[curCmd];
      } else {
        curCmd := curCmd - 1;
        return history[curCmd];
      }
    }

    /** getNextCommand: step forward one entry; past the last one there is nothing. */
    method GetNextCommand() returns (cmd: string)
      requires Valid()
      modifies this
      ensures Valid()
      ensures history == old(history) && commands == old(commands) && downloads == old(downloads)
      ensures history == [] ==> cmd == "" && curCmd == old(curCmd)
      ensures history != [] && old(curCmd) == |history| ==> cmd == "" && curCmd == old(curCmd)
      ensures history != [] && old(curCmd) < |history| ==> (curCmd == old(curCmd) + 1 &&
        cmd == (if curCmd == |history| then "" else history[curCmd]))
      ensures lastCancel == old(lastCancel) && cancelled == old(cancelled)
    {
      if |history| < 1 {
        return "";
      } else if curCmd == |history| {
        return "";
      }
      curCmd := curCmd + 1;
      if curCmd == |history| {
        return "";
      }
      cmd := history[curCmd];
    }
  }
}
