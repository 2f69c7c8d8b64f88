// packages/kaos/src/ssh.ts: building a command line, and the tokenizer that reads it, after
// sections 2.2 and 2.3 of the Shell Command Language of IEEE Std 1003.1.
module Shell {
  import opened Wrappers

  // ---- reading a command line ------------------------------------------------

  /** A word, its quotes removed, and how many of its first characters were not quoted; or `&&`. */
  datatype Token = Word(text: string, plain: nat) | And

  predicate Blank(c: char) {
    c == ' ' || c == '\t'
  }

  predicate OperatorStart(c: char) {
    c in "|&;<>()\n"
  }

  predicate EndsWord(c: char) {
    Blank(c) || OperatorStart(c)
  }

  /** Not quoted, these make the shell do more than read on. */
  predicate Special(c: char) {
    c in "$`\\*?[#~!{}"
  }

  /** Section 2.2.2: up to the next single quote, everything is literal. */
  function ReadSingle(s: string): (r: Option<(string, string)>)
    ensures r.Some? ==> |r.value.1| < |s|
  {
    if s == "" then None
    else if s[0] == '\'' then Some(("", s[1..]))
    else
      match ReadSingle(s[1..])
      case None => None
      case Some((text, rest)) => Some(([s[0]] + text, rest))
  }

  /** Section 2.2.3: up to the next double quote; expansions and escapes are not modelled, a text
      with one is refused. */
  function ReadDouble(s: string): (r: Option<(string, string)>)
    ensures r.Some? ==> |r.value.1| < |s|
  {
    if s == "" || s[0] in "$`\\" then None
    else if s[0] == '"' then Some(("", s[1..]))
    else
      match ReadDouble(s[1..])
      case None => None
      case Some((text, rest)) => Some(([s[0]] + text, rest))
  }

  /** The rest of a word: its text so far, how much of it came first and unquoted, and whether all of
      it did. */
  function ReadWord(s: string, text: string, plain: nat, allPlain: bool): (r: Option<(Token, string)>)
    ensures r.Some? ==> r.value.0.Word? && |r.value.1| <= |s| && (s != "" && !EndsWord(s[0]) ==> |r.value.1| < |s|)
    decreases |s|
  {
    if s == "" || EndsWord(s[0]) then Some((Word(text, plain), s))
    else if s[0] == '\'' then
      match ReadSingle(s[1..])
      case None => None
      case Some((quoted, rest)) => ReadWord(rest, text + quoted, plain, false)
    else if s[0] == '"' then
      match ReadDouble(s[1..])
      case None => None
      case Some((quoted, rest)) => ReadWord(rest, text + quoted, plain, false)
    else if Special(s[0]) then None
    else ReadWord(s[1..], text + [s[0]], if allPlain then plain + 1 else plain, allPlain)
  }

  /** The tokens of a command line, or None if it uses more of the shell than words and `&&`. */
  function Tokens(s: string): Option<seq<Token>>
    decreases |s|
  {
    if s == "" then Some([])
    else if Blank(s[0]) then Tokens(s[1..])
    else if "&&" <= s then
      match Tokens(s[2..])
      case None => None
      case Some(rest) => Some([And] + rest)
    else if OperatorStart(s[0]) then None
    else
      match ReadWord(s, "", 0, true)
      case None => None
      case Some((word, after)) =>
        match Tokens(after)
        case None => None
        case Some(rest) => Some([word] + rest)
  }

  // ---- building one ----------------------------------------------------------

  predicate SafeChar(c: char) {
    'A' <= c <= 'Z' || 'a' <= c <= 'z' || '0' <= c <= '9' || c in "_./:=@%^,+-"
  }

  predicate Safe(arg: string) {
    arg != "" && forall i :: 0 <= i < |arg| ==> SafeChar(arg[i])
  }

  /** Each single quote becomes: close, a double-quoted single quote, open. */
  function Escaped(arg: string): string {
    if arg == "" then "" else (if arg[0] == '\'' then "'\"'\"'" else [arg[0]]) + Escaped(arg[1..])
  }

  function ShellQuote(arg: string): string {
    if arg == "" then "''" else if Safe(arg) then arg else "'" + Escaped(arg) + "'"
  }

  function Join(parts: seq<string>, sep: string): string {
    if parts == [] then "" else if |parts| == 1 then parts[0] else parts[0] + sep + Join(parts[1..], sep)
  }

  predicate NameChar(c: char) {
    'A' <= c <= 'Z' || 'a' <= c <= 'z' || '0' <= c <= '9' || c == '_'
  }

  predicate ValidName(name: string) {
    name != "" && !('0' <= name[0] <= '9') && forall i :: 0 <= i < |name| ==> NameChar(name[i])
  }

  type Variable = (string, string)

  function Quoted(args: seq<string>): seq<string> {
    seq(|args|, i requires 0 <= i < |args| => ShellQuote(args[i]))
  }

  function Assignments(env: seq<Variable>): seq<string> {
    seq(|env|, i requires 0 <= i < |env| => env[i].0 + "=" + ShellQuote(env[i].1))
  }

  /** The first variable whose name the shell would not take. */
  function BadName(env: seq<Variable>): Option<string> {
    if env == [] then None else if !ValidName(env[0].0) then Some(env[0].0) else BadName(env[1..])
  }

  function CommandLine(args: seq<string>, cwd: string, env: seq<Variable>): string {
    var run := (if env == [] then "" else Join(Assignments(env), " ") + " ") + Join(Quoted(args), " ");
    if cwd == "" then run else "cd " + ShellQuote(cwd) + " && " + run
  }

  method BuildExecCommand(args: seq<string>, cwd: string, env: Option<seq<Variable>>)
    returns (r: Result<string, string>)
    ensures var vars := if env.Some? then env.value else [];
            r == if BadName(vars).Some? then Err(BadName(vars).value) else Ok(CommandLine(args, cwd, vars))
  {
    var command := Join(Quoted(args), " ");
    assert "" + command == command;
    if env.Some? {
      var assignments: seq<string> := [];
      assert env.value[0..] == env.value;
      for i := 0 to |env.value|
        invariant assignments == Assignments(env.value[..i])
        invariant BadName(env.value) == BadName(env.value[i..])
      {
        var key, value := env.value[i].0, env.value[i].1;
        assert env.value[i..][0] == env.value[i] && env.value[i..][1..] == env.value[i + 1..];
        if !ValidName(key) {
          return Err(key);
        }
        assignments := assignments + [key + "=" + ShellQuote(value)];
      }
      assert env.value[..|env.value|] == env.value;
      if |assignments| > 0 {
        command := Join(assignments, " ") + " " + command;
      }
    }
    if cwd != "" {
      command := "cd " + ShellQuote(cwd) + " && " + command;
    }
    r := Ok(command);
  }

  // ---- one word --------------------------------------------------------------

  /** How many of the first characters of a quoted argument stand unquoted. */
  function PlainPart(arg: string): nat {
    if Safe(arg) then |arg| else 0
  }

  lemma SafeIsOrdinary(c: char)
    requires SafeChar(c)
    ensures !EndsWord(c) && !Special(c) && c != '\'' && c != '"'
  {
  }

  lemma {:induction false} ReadsPlain(arg: string, t: string, text: string, plain: nat, allPlain: bool)
    requires forall i :: 0 <= i < |arg| ==> SafeChar(arg[i])
    ensures ReadWord(arg + t, text, plain, allPlain)
            == ReadWord(t, text + arg, if allPlain then plain + |arg| else plain, allPlain)
    decreases |arg|
  {
    hide SafeChar, Special, EndsWord;
    if arg == "" {
      assert arg + t == t && text + arg == text;
    } else {
      SafeIsOrdinary(arg[0]);
      assert (arg + t)[1..] == arg[1..] + t;
      ReadsPlain(arg[1..], t, text + [arg[0]], if allPlain then plain + 1 else plain, allPlain);
      assert text + [arg[0]] + arg[1..] == text + arg;
    }
  }

  lemma {:induction false} ReadsUpToQuote(pre: string, t: string)
    requires forall i :: 0 <= i < |pre| ==> pre[i] != '\''
    ensures ReadSingle(pre + "'" + t) == Some((pre, t))
  {
    if pre == "" {
      assert (pre + "'" + t)[1..] == t;
    } else {
      ReadsUpToQuote(pre[1..], t);
      assert (pre + "'" + t)[1..] == pre[1..] + "'" + t;
      assert [pre[0]] + pre[1..] == pre;
    }
  }

  /** Inside single quotes, pre read already: the escaped argument and the closing quote. */
  lemma {:induction false} ReadsQuoted(pre: string, arg: string, t: string, text: string, plain: nat, allPlain: bool)
    requires forall i :: 0 <= i < |pre| ==> pre[i] != '\''
    ensures ReadWord("'" + pre + Escaped(arg) + "'" + t, text, plain, allPlain)
            == ReadWord(t, text + pre + arg, plain, false)
    decreases |arg|
  {
    var s := "'" + pre + Escaped(arg) + "'" + t;
    if arg == "" {
      assert s[1..] == pre + "'" + t;
      ReadsUpToQuote(pre, t);
      assert text + pre + arg == text + pre;
    } else if arg[0] != '\'' {
      assert s == "'" + (pre + [arg[0]]) + Escaped(arg[1..]) + "'" + t;
      ReadsQuoted(pre + [arg[0]], arg[1..], t, text, plain, allPlain);
      assert text + (pre + [arg[0]]) + arg[1..] == text + pre + arg;
    } else {
      var tail := "'" + "" + Escaped(arg[1..]) + "'" + t;
      var doubled := "\"'\"" + tail;
      assert s[1..] == pre + "'" + doubled;
      ReadsUpToQuote(pre, doubled);
      ReadsDoubledQuote(tail, text + pre, plain);
      ReadsQuoted("", arg[1..], t, text + pre + "'", plain, false);
      assert text + pre + "'" + "" + arg[1..] == text + pre + arg;
    }
  }

  lemma ReadsDoubledQuote(t: string, text: string, plain: nat)
    ensures ReadWord("\"'\"" + t, text, plain, false) == ReadWord(t, text + "'", plain, false)
  {
    var s := "\"'\"" + t;
    assert s[1..] == "'\"" + t;
    assert s[1..][1..] == "\"" + t;
    assert s[1..][1..][1..] == t;
    assert ReadDouble(s[1..][1..]) == Some(("", t));
    assert ReadDouble(s[1..]) == Some((['\''] + "", t));
    assert ['\''] + "" == "'";
    assert s[0] == '"' && !EndsWord(s[0]);
    assert ReadWord(s, text, plain, false) == ReadWord(t, text + "'", plain, false);
  }

  /** A quoted argument is read back, whatever it holds. */
  lemma ReadsArgument(arg: string, t: string, text: string, plain: nat, allPlain: bool)
    ensures ReadWord(ShellQuote(arg) + t, text, plain, allPlain)
            == ReadWord(t, text + arg, if allPlain then plain + PlainPart(arg) else plain, allPlain && Safe(arg))
  {
    hide ReadWord, SafeChar;
    if Safe(arg) {
      ReadsPlain(arg, t, text, plain, allPlain);
    } else {
      if arg == "" {
        assert "''" + t == "'" + "" + Escaped("") + "'" + t;
      } else {
        assert "'" + Escaped(arg) + "'" + t == "'" + "" + Escaped(arg) + "'" + t;
      }
      ReadsQuoted("", arg, t, text, plain, allPlain);
      assert text + "" + arg == text + arg;
    }
  }

  // ---- whole lines -----------------------------------------------------------

  predicate WordEnds(t: string) {
    t == "" || EndsWord(t[0])
  }

  function ArgumentWord(arg: string): Token {
    Word(arg, PlainPart(arg))
  }

  function VariableWord(v: Variable): Token {
    Word(v.0 + "=" + v.1, |v.0| + 1 + PlainPart(v.1))
  }

  function Then(word: Token, rest: Option<seq<Token>>): Option<seq<Token>> {
    if rest.Some? then Some([word] + rest.value) else None
  }

  /** What quoting yields begins a word. */
  lemma QuotedBegins(arg: string)
    ensures ShellQuote(arg) != "" && !EndsWord(ShellQuote(arg)[0]) && ShellQuote(arg)[0] != '&'
  {
    if Safe(arg) {
      SafeIsOrdinary(arg[0]);
    }
  }

  /** A text that reads as one word is one token. */
  lemma WordIsToken(s: string, t: string, word: Token)
    requires s != "" && !EndsWord(s[0]) && ReadWord(s + t, "", 0, true) == Some((word, t))
    ensures Tokens(s + t) == Then(word, Tokens(t))
  {
    hide ReadWord;
    assert (s + t)[0] == s[0];
    assert s[0] != '&';
  }

  lemma ArgumentIsToken(arg: string, t: string)
    requires WordEnds(t)
    ensures Tokens(ShellQuote(arg) + t) == Then(ArgumentWord(arg), Tokens(t))
  {
    hide ShellQuote, Tokens;
    QuotedBegins(arg);
    ReadsArgument(arg, t, "", 0, true);
    assert "" + arg == arg;
    WordIsToken(ShellQuote(arg), t, ArgumentWord(arg));
  }

  lemma FrontIsPlain(name: string, t: string)
    requires ValidName(name)
    ensures var front := name + "=";
            ReadWord(front + t, "", 0, true) == ReadWord(t, front, |front|, true) && !EndsWord(front[0])
  {
    hide ReadWord;
    var front := name + "=";
    assert forall i :: 0 <= i < |front| ==> SafeChar(front[i]);
    ReadsPlain(front, t, "", 0, true);
    assert "" + front == front;
    SafeIsOrdinary(front[0]);
  }

  lemma VariableIsToken(v: Variable, t: string)
    requires WordEnds(t) && ValidName(v.0)
    ensures Tokens(v.0 + "=" + ShellQuote(v.1) + t) == Then(VariableWord(v), Tokens(t))
  {
    hide ShellQuote, Tokens, SafeChar, EndsWord, ValidName;
    var front, rest := v.0 + "=", ShellQuote(v.1) + t;
    assert front + ShellQuote(v.1) + t == front + rest;
    FrontIsPlain(v.0, rest);
    ReadsArgument(v.1, t, front, |front|, true);
    assert (front + ShellQuote(v.1))[0] == front[0];
    WordIsToken(front + ShellQuote(v.1), t, VariableWord(v));
  }

  function ArgumentWords(args: seq<string>): seq<Token> {
    if args == [] then [] else [ArgumentWord(args[0])] + ArgumentWords(args[1..])
  }

  function VariableWords(env: seq<Variable>): seq<Token> {
    if env == [] then [] else [VariableWord(env[0])] + VariableWords(env[1..])
  }

  lemma BlankSkipped(t: string)
    ensures Tokens(" " + t) == Tokens(t)
  {
    assert (" " + t)[1..] == t;
  }

  /** The quoted arguments, joined by spaces, tokenize to the arguments: every list of strings. */
  lemma {:induction false} ArgumentsRoundTrip(args: seq<string>)
    ensures Tokens(Join(Quoted(args), " ")) == Some(ArgumentWords(args))
    decreases |args|
  {
    hide ShellQuote, Tokens;
    if args == [] {
      NoTokens();
    } else if |args| == 1 {
      NoTokens();
      ArgumentIsToken(args[0], "");
      assert ShellQuote(args[0]) + "" == ShellQuote(args[0]);
      assert args[1..] == [];
    } else {
      var rest := Join(Quoted(args[1..]), " ");
      assert Quoted(args)[1..] == Quoted(args[1..]);
      assert ShellQuote(args[0]) + " " + rest == ShellQuote(args[0]) + (" " + rest);
      ArgumentIsToken(args[0], " " + rest);
      BlankSkipped(rest);
      ArgumentsRoundTrip(args[1..]);
    }
  }

  lemma NoTokens()
    ensures Tokens("") == Some([])
  {
  }

  lemma {:induction false} VariablesRead(env: seq<Variable>, t: string)
    requires env != [] && BadName(env).None? && Tokens(t).Some?
    ensures Tokens(Join(Assignments(env), " ") + " " + t) == Some(VariableWords(env) + Tokens(t).value)
    decreases |env|
  {
    hide ShellQuote, Tokens, ValidName;
    var first := env[0].0 + "=" + ShellQuote(env[0].1);
    if |env| == 1 {
      assert Assignments(env) == [first] && env[1..] == [];
      assert first + " " + t == first + (" " + t);
      VariableIsToken(env[0], " " + t);
      BlankSkipped(t);
      assert VariableWords(env) == [VariableWord(env[0])];
    } else {
      var rest := Join(Assignments(env[1..]), " ") + " " + t;
      assert Assignments(env)[1..] == Assignments(env[1..]);
      assert Join(Assignments(env), " ") + " " + t == first + (" " + rest);
      VariablesRead(env[1..], t);
      VariableIsToken(env[0], " " + rest);
      BlankSkipped(rest);
      assert [VariableWord(env[0])] + (VariableWords(env[1..]) + Tokens(t).value)
             == VariableWords(env) + Tokens(t).value;
    }
  }

  function DirectoryTokens(cwd: string): seq<Token> {
    if cwd == "" then [] else [Word("cd", 2), ArgumentWord(cwd), And]
  }

  lemma CdRead(rest: string)
    ensures Tokens("cd" + (" " + rest)) == Then(Word("cd", 2), Tokens(rest))
  {
    hide Tokens;
    ReadsPlain("cd", " " + rest, "", 0, true);
    assert "" + "cd" == "cd";
    assert ReadWord(" " + rest, "cd", 2, true) == Some((Word("cd", 2), " " + rest));
    WordIsToken("cd", " " + rest, Word("cd", 2));
    BlankSkipped(rest);
  }

  lemma DirectoryRead(cwd: string, t: string)
    requires cwd != "" && Tokens(t).Some?
    ensures Tokens("cd " + ShellQuote(cwd) + " && " + t) == Some(DirectoryTokens(cwd) + Tokens(t).value)
  {
    hide ShellQuote, Tokens;
    var tail := " " + ("&& " + t);
    AndRead(t);
    BlankSkipped("&& " + t);
    ArgumentIsToken(cwd, tail);
    CdRead(ShellQuote(cwd) + tail);
    assert "cd " + ShellQuote(cwd) + " && " + t == "cd" + (" " + (ShellQuote(cwd) + tail));
    assert [Word("cd", 2)] + ([ArgumentWord(cwd)] + ([And] + Tokens(t).value))
           == DirectoryTokens(cwd) + Tokens(t).value;
  }

  lemma AndRead(t: string)
    requires Tokens(t).Some?
    ensures Tokens("&& " + t) == Some([And] + Tokens(t).value)
  {
    BlankSkipped(t);
    assert ("&& " + t)[2..] == " " + t;
  }

  /** A built command line tokenizes to cd, the directory and `&&`, if there is a directory; one
      name=value word for each variable; and the arguments. */
  lemma CommandRoundTrip(args: seq<string>, cwd: string, env: seq<Variable>)
    requires BadName(env).None?
    ensures Tokens(CommandLine(args, cwd, env)) == Some(DirectoryTokens(cwd) + VariableWords(env) + ArgumentWords(args))
  {
    hide ShellQuote, Tokens;
    ArgumentsRoundTrip(args);
    var argv := Join(Quoted(args), " ");
    var run := (if env == [] then "" else Join(Assignments(env), " ") + " ") + argv;
    if env == [] {
      assert run == argv && VariableWords(env) + ArgumentWords(args) == ArgumentWords(args);
    } else {
      VariablesRead(env, argv);
      assert run == Join(Assignments(env), " ") + " " + argv;
    }
    assert Tokens(run) == Some(VariableWords(env) + ArgumentWords(args));
    if cwd != "" {
      DirectoryRead(cwd, run);
      assert DirectoryTokens(cwd) + (VariableWords(env) + ArgumentWords(args))
             == DirectoryTokens(cwd) + VariableWords(env) + ArgumentWords(args);
    } else {
      assert DirectoryTokens(cwd) + VariableWords(env) == VariableWords(env);
    }
  }

  // ---- what the shell makes of the words ---------------------------------------

  /** The length of the name a text begins with. */
  function NameLength(text: string): (n: nat)
    ensures n <= |text|
  {
    if text == "" || !NameChar(text[0]) then 0 else 1 + NameLength(text[1..])
  }

  /** Section 2.10.2, rule 7: an unquoted name and `=` in front make a word an assignment, up to the
      command's first other word. */
  predicate IsAssignment(w: Token) {
    && w.Word?
    && var n := NameLength(w.text);
       0 < n < |w.text| && !('0' <= w.text[0] <= '9') && w.text[n] == '=' && n < w.plain
  }

  function SplitVariable(w: Token): Variable
    requires IsAssignment(w)
  {
    (w.text[..NameLength(w.text)], w.text[NameLength(w.text) + 1..])
  }

  /** The assignments in front of a command, and the words of the command itself. */
  function SplitCommand(words: seq<Token>): (seq<Variable>, seq<Token>) {
    if words == [] || !IsAssignment(words[0]) then ([], words)
    else
      var (env, rest) := SplitCommand(words[1..]);
      ([SplitVariable(words[0])] + env, rest)
  }

  lemma {:induction false} NameThenEquals(name: string, value: string)
    requires forall i :: 0 <= i < |name| ==> NameChar(name[i])
    ensures NameLength(name + "=" + value) == |name|
  {
    if name != "" {
      assert (name + "=" + value)[1..] == name[1..] + "=" + value;
      NameThenEquals(name[1..], value);
    }
  }

  lemma VariableIsAssignment(v: Variable)
    requires ValidName(v.0)
    ensures IsAssignment(VariableWord(v)) && SplitVariable(VariableWord(v)) == v
  {
    NameThenEquals(v.0, v.1);
    var text := v.0 + "=" + v.1;
    assert text[..|v.0|] == v.0 && text[|v.0| + 1..] == v.1;
  }

  lemma {:induction false} NameIsNames(text: string, k: nat)
    requires k < NameLength(text)
    ensures NameChar(text[k])
  {
    if k > 0 {
      NameIsNames(text[1..], k - 1);
    }
  }

  /** A variable is accepted exactly if the shell takes the word made of it for an assignment to that
      name. */
  lemma ValidNameIff(v: Variable)
    ensures ValidName(v.0) <==> IsAssignment(VariableWord(v)) && SplitVariable(VariableWord(v)).0 == v.0
  {
    if ValidName(v.0) {
      VariableIsAssignment(v);
    }
    var w := VariableWord(v);
    if IsAssignment(w) && SplitVariable(w).0 == v.0 {
      assert v.0 == w.text[..NameLength(w.text)];
      forall k | 0 <= k < |v.0|
        ensures NameChar(v.0[k])
      {
        NameIsNames(w.text, k);
      }
    }
  }

  const UPPER := "ABCDEFGHIJKLMNOPQRSTUVWXYZ"
  const LOWER := "abcdefghijklmnopqrstuvwxyz"
  const DIGITS := "0123456789"

  lemma UpperCase(c: char)
    ensures c in UPPER <==> 'A' <= c <= 'Z'
  {
    if 'A' <= c <= 'Z' {
      assert UPPER[(c - 'A') as int] == c;
    }
  }

  lemma LowerCases(c: char)
    ensures c in LOWER <==> 'a' <= c <= 'z'
  {
    if 'a' <= c <= 'z' {
      assert LOWER[(c - 'a') as int] == c;
    }
  }

  lemma Digits(c: char)
    ensures c in DIGITS <==> '0' <= c <= '9'
  {
    if '0' <= c <= '9' {
      assert DIGITS[(c - '0') as int] == c;
    }
  }

  /** A name as section 3.231 of the Base Definitions has it: letters, digits and underscores of the
      portable character set, the first not a digit. */
  lemma NamesAreSpelled(name: string)
    ensures ValidName(name) <==>
              name != "" && name[0] !in DIGITS
              && forall c :: c in name ==> c in UPPER || c in LOWER || c in DIGITS || c == '_'
  {
    hide UPPER, LOWER, DIGITS;
    forall c: char
      ensures NameChar(c) <==> c in UPPER || c in LOWER || c in DIGITS || c == '_'
      ensures '0' <= c <= '9' <==> c in DIGITS
    {
      UpperCase(c);
      LowerCases(c);
      Digits(c);
    }
  }

  lemma OneSplits(w: Token, words: seq<Token>)
    requires IsAssignment(w)
    ensures SplitCommand([w] + words).0 == [SplitVariable(w)] + SplitCommand(words).0
    ensures SplitCommand([w] + words).1 == SplitCommand(words).1
  {
    assert ([w] + words)[1..] == words;
  }

  lemma {:induction false} EnvironmentSplits(env: seq<Variable>, words: seq<Token>)
    requires BadName(env).None?
    ensures SplitCommand(VariableWords(env) + words).0 == env + SplitCommand(words).0
    ensures SplitCommand(VariableWords(env) + words).1 == SplitCommand(words).1
    decreases |env|
  {
    hide IsAssignment, SplitVariable, ValidName, VariableWord, SplitCommand;
    if env == [] {
      assert VariableWords(env) + words == words;
    } else {
      VariableIsAssignment(env[0]);
      EnvironmentSplits(env[1..], words);
      OneSplits(VariableWord(env[0]), VariableWords(env[1..]) + words);
      assert VariableWords(env) + words == [VariableWord(env[0])] + (VariableWords(env[1..]) + words);
      assert [env[0]] + (env[1..] + SplitCommand(words).0) == env + SplitCommand(words).0;
    }
  }

  /** Section 2.4: the reserved words that need no quoting to be quoted here, and two the standard
      lets a shell reserve as well. */
  const RESERVED := ["case", "do", "done", "elif", "else", "esac", "fi", "for", "if", "in", "then", "until", "while",
                     "function", "select"]

  /** Section 2.4 also reserves a name followed by a colon. */
  predicate ReservedText(text: string) {
    text in RESERVED || (text != "" && text[|text| - 1] == ':' && ValidName(text[..|text| - 1]))
  }

  predicate IsReserved(w: Token) {
    w.Word? && w.plain == |w.text| && ReservedText(w.text)
  }

  /** A command with the variables it runs under. */
  datatype Command = Command(env: seq<Variable>, words: seq<Token>)

  /** A simple command; a reserved word in front makes something else of it. */
  function ReadCommand(words: seq<Token>): Option<Command> {
    if words == [] || IsReserved(words[0]) then None
    else var (env, rest) := SplitCommand(words); Some(Command(env, rest))
  }

  function FirstAnd(tokens: seq<Token>): (k: nat)
    ensures k <= |tokens|
    ensures k < |tokens| ==> tokens[k].And?
  {
    if tokens == [] || tokens[0].And? then 0 else 1 + FirstAnd(tokens[1..])
  }

  /** Simple commands joined by `&&`; each must be there. */
  function ReadCommands(tokens: seq<Token>): Option<seq<Command>>
    decreases |tokens|
  {
    var k := FirstAnd(tokens);
    match ReadCommand(tokens[..k])
    case None => None
    case Some(first) =>
      if k == |tokens| then Some([first])
      else
        match ReadCommands(tokens[k + 1..])
        case None => None
        case Some(rest) => Some([first] + rest)
  }

  /** What a line runs, or None if it is not a list of simple commands. */
  function ReadLine(line: string): Option<seq<Command>> {
    match Tokens(line)
    case None => None
    case Some(tokens) => if tokens == [] then Some([]) else ReadCommands(tokens)
  }

  /** What a built line is meant to run: cd, if there is a directory, then the arguments under the
      variables. */
  function Meant(args: seq<string>, cwd: string, env: seq<Variable>): seq<Command> {
    (if cwd == "" then [] else [Command([], [Word("cd", 2), ArgumentWord(cwd)])])
    + (if args == [] && env == [] then [] else [Command(env, ArgumentWords(args))])
  }

  /** A command name that would itself be taken for an assignment: it needs no quotes and begins with
      a name and `=`. */
  predicate LooksAssigned(args: seq<string>) {
    args != [] && Safe(args[0]) && IsAssignment(ArgumentWord(args[0]))
  }

  /** A command name in front of everything that is a reserved word. */
  predicate LooksReserved(args: seq<string>, env: seq<Variable>) {
    env == [] && args != [] && ReservedText(args[0])
  }

  lemma {:induction false} NoAnd(words: seq<Token>, rest: seq<Token>)
    requires forall w :: w in words ==> w.Word?
    ensures FirstAnd(words + [And] + rest) == FirstAnd(words) == |words|
    decreases |words|
  {
    if words != [] {
      assert words[0] in words && (words + [And] + rest)[1..] == words[1..] + [And] + rest;
      NoAnd(words[1..], rest);
    }
  }

  lemma {:induction false} AllWords(args: seq<string>, env: seq<Variable>)
    ensures forall w :: w in VariableWords(env) + ArgumentWords(args) ==> w.Word?
    decreases |args| + |env|
  {
    if args != [] {
      AllWords(args[1..], env);
    } else if env != [] {
      AllWords(args, env[1..]);
    }
  }

  predicate LowerCase(text: string) {
    text != "" && forall i :: 0 <= i < |text| ==> 'a' <= text[i] <= 'z'
  }

  lemma ReservedAreLowerCase()
    ensures forall w :: w in RESERVED ==> LowerCase(w)
  {
    assert LowerCase("case") && LowerCase("do") && LowerCase("done") && LowerCase("elif") && LowerCase("else");
    assert LowerCase("esac") && LowerCase("fi") && LowerCase("for") && LowerCase("if") && LowerCase("in");
    assert LowerCase("then") && LowerCase("until") && LowerCase("while") && LowerCase("function")
           && LowerCase("select");
  }

  /** No reserved word holds an equals sign, and each is safe. */
  lemma ReservedNeedNoQuotes(text: string)
    requires ReservedText(text)
    ensures Safe(text) && '=' !in text
  {
    hide RESERVED;
    ReservedAreLowerCase();
    if text in RESERVED {
      assert LowerCase(text);
    } else {
      var name := text[..|text| - 1];
      assert text == name + ":";
      assert forall c :: c in text ==> c in name || c == ':';
      assert forall i :: 0 <= i < |name| ==> text[i] == name[i];
    }
  }

  lemma {:induction false} NamesAreLong(text: string)
    requires forall i :: 0 <= i < |text| ==> NameChar(text[i])
    ensures NameLength(text) == |text|
  {
    if text != "" {
      NamesAreLong(text[1..]);
    }
  }

  /** The command itself is read as it is meant exactly if its name does not look like anything
      else. */
  lemma CommandReadIff(args: seq<string>, env: seq<Variable>)
    requires BadName(env).None? && (args != [] || env != [])
    ensures ReadCommand(VariableWords(env) + ArgumentWords(args)) == Some(Command(env, ArgumentWords(args)))
            <==> !LooksAssigned(args) && !LooksReserved(args, env)
  {
    hide RESERVED;
    var words := VariableWords(env) + ArgumentWords(args);
    SplitsIff(args, env);
    if env != [] {
      assert words[0] == VariableWord(env[0]);
      assert '=' == words[0].text[|env[0].0|];
      if IsReserved(words[0]) {
        ReservedNeedNoQuotes(words[0].text);
        assert false;
      }
    } else {
      assert words == ArgumentWords(args) && words[0] == ArgumentWord(args[0]);
      if ReservedText(args[0]) {
        ReservedNeedNoQuotes(args[0]);
      }
    }
  }

  lemma SplitsIff(args: seq<string>, env: seq<Variable>)
    requires BadName(env).None?
    ensures SplitCommand(VariableWords(env) + ArgumentWords(args)) == (env, ArgumentWords(args))
            <==> !LooksAssigned(args)
  {
    EnvironmentSplits(env, ArgumentWords(args));
    assert env + [] == env;
    if args != [] {
      assert ArgumentWords(args)[0] == ArgumentWord(args[0]);
      assert IsAssignment(ArgumentWord(args[0])) ==> Safe(args[0]);
      if LooksAssigned(args) {
        var e := SplitCommand(ArgumentWords(args)).0;
        assert |e| > 0;
        assert |env + e| > |env|;
      }
    }
  }

  lemma CdIsCommand(cwd: string)
    ensures ReadCommand([Word("cd", 2), ArgumentWord(cwd)]) == Some(Command([], [Word("cd", 2), ArgumentWord(cwd)]))
  {
    assert NameLength("cd") == 2 by {
      NamesAreLong("cd");
    }
    assert "cd" !in RESERVED;
  }

  /** The shell runs exactly what a built line is meant to run, exactly if the command name neither
      looks like an assignment nor, with no variable in front, is a reserved word, and something
      follows the cd. */
  lemma RunsTheCommandIff(args: seq<string>, cwd: string, env: seq<Variable>)
    requires BadName(env).None?
    ensures ReadLine(CommandLine(args, cwd, env)) == Some(Meant(args, cwd, env))
            <==> !LooksAssigned(args) && !LooksReserved(args, env) && (cwd == "" || args != [] || env != [])
  {
    hide ReadCommand, ReadCommands, LooksAssigned, LooksReserved, Tokens, CommandLine, IsReserved;
    CommandRoundTrip(args, cwd, env);
    AllWords(args, env);
    var words := VariableWords(env) + ArgumentWords(args);
    NothingLooksLikeNothing(args, env);
    NoAnd(words, []);
    OneCommand(words);
    if args != [] || env != [] {
      CommandReadIff(args, env);
      assert words != [];
    } else {
      assert words == [];
    }
    var meant := Command(env, ArgumentWords(args));
    if cwd == "" {
      assert [] + VariableWords(env) + ArgumentWords(args) == words;
      assert [] + [meant] == [meant];
    } else {
      CdIsCommand(cwd);
      var cd := [Word("cd", 2), ArgumentWord(cwd)];
      AndThen(cd, words);
      if ReadCommand(words).Some? {
        var read := ReadCommand(words).value;
        assert ([Command([], cd)] + [read])[1] == read && ([Command([], cd)] + [meant])[1] == meant;
      }
      assert cd + [And] + words != [];
      assert DirectoryTokens(cwd) + VariableWords(env) + ArgumentWords(args) == cd + [And] + words;
    }
  }

  lemma NothingLooksLikeNothing(args: seq<string>, env: seq<Variable>)
    ensures args == [] ==> !LooksAssigned(args) && !LooksReserved(args, env)
  {
  }

  lemma OneCommand(words: seq<Token>)
    requires forall w :: w in words ==> w.Word?
    ensures ReadCommands(words) == if ReadCommand(words).Some? then Some([ReadCommand(words).value]) else None
    ensures ReadCommand([]) == None
  {
    NoAnd(words, []);
    assert words[..|words|] == words;
  }

  lemma AndThen(first: seq<Token>, words: seq<Token>)
    requires (forall w :: w in first ==> w.Word?) && ReadCommand(first).Some?
    ensures ReadCommands(first + [And] + words)
            == if ReadCommands(words).Some? then Some([ReadCommand(first).value] + ReadCommands(words).value) else None
  {
    NoAnd(first, words);
    var all := first + [And] + words;
    assert all[..|first|] == first && all[|first| + 1..] == words;
  }

  /** One command of each kind that is not run as meant: a reserved word, alone and behind a cd, a
      name with a colon, a name like an assignment; and no command behind a cd. */
  lemma NotRunAsMeant()
    ensures ReadLine(CommandLine(["if"], "", [])) != Some(Meant(["if"], "", []))
    ensures ReadLine(CommandLine(["if"], "/tmp", [])) != Some(Meant(["if"], "/tmp", []))
    ensures ReadLine(CommandLine(["foo:"], "", [])) != Some(Meant(["foo:"], "", []))
    ensures ReadLine(CommandLine(["A=b"], "", [])) != Some(Meant(["A=b"], "", []))
    ensures ReadLine(CommandLine([], "/tmp", [])) != Some(Meant([], "/tmp", []))
  {
    hide ReadLine, CommandLine, Meant;
    RunsTheCommandIff(["if"], "", []);
    RunsTheCommandIff(["if"], "/tmp", []);
    assert LooksReserved(["if"], []) by {
      assert RESERVED[8] == "if";
    }
    assert LooksReserved(["foo:"], []) by {
      assert "foo:"[..3] == "foo" && ValidName("foo");
    }
    RunsTheCommandIff(["foo:"], "", []);
    AssignedName();
    RunsTheCommandIff(["A=b"], "", []);
    RunsTheCommandIff([], "/tmp", []);
  }

  lemma AssignedName()
    ensures LooksAssigned(["A=b"])
  {
    NameThenEquals("A", "b");
    assert "A" + "=" + "b" == "A=b";
  }
}
