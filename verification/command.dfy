/** Building the shell command line: `append_argument` in its two forms, the choice of
    runtime binary, and the assembly loop at the end of `main`. Every argument is wrapped
    in double quotes and nothing inside it is escaped. */
module Command {
  import Text
  import Paths
  import Arguments

  const DefaultRuntime: string := "java"
  const NativesProperty: string := "-Dorg.lwjgl.librarypath="
  const StderrToStdout: string := " 2>&1"
  const Quote: char := '"'

  datatype Option<T> = None | Some(value: T)

  /** One argument as the command line carries it: a space, then the text in quotes. */
  function Quoted(argument: string): string
  {
    " \"" + argument + "\""
  }

  /** A sequence of quoted arguments, one after the other. */
  function QuotedAll(words: seq<string>): string
  {
    if words == [] then "" else Quoted(words[0]) + QuotedAll(words[1..])
  }

  /** Reads back a sequence of ` "word"` groups; a word ends at the next quote, so this is
      only a left inverse of `QuotedAll` for words without quotes. */
  function Unquote(s: string): (r: Option<seq<string>>)
    decreases |s|
  {
    if s == "" then Some([])
    else if |s| < 2 || s[0] != ' ' || s[1] != Quote then None
    else
      var body := s[2..];
      var k := Text.IndexOf(body, Quote);
      if k == |body| then None
      else match Unquote(body[k + 1..])
        case None => None
        case Some(words) => Some([body[..k]] + words)
  }

  predicate Unquoted(word: string)
  {
    Quote !in word
  }

  lemma QuotedAllSingle(w: string)
    ensures QuotedAll([w]) == Quoted(w)
  {
    assert [w][1..] == [];
  }

  lemma {:induction false} QuotedAllAppend(a: seq<string>, b: seq<string>)
    ensures QuotedAll(a + b) == QuotedAll(a) + QuotedAll(b)
  {
    if a == [] {
      assert a + b == b;
    } else {
      assert (a + b)[0] == a[0];
      assert (a + b)[1..] == a[1..] + b;
      QuotedAllAppend(a[1..], b);
    }
  }

  /** One quoted word in front is read off and the rest is decoded as before. */
  lemma UnquoteQuoted(w: string, rest: string)
    requires Unquoted(w)
    ensures Unquote(Quoted(w) + rest)
         == match Unquote(rest) case None => None case Some(words) => Some([w] + words)
  {
    var s := Quoted(w) + rest;
    var body := s[2..];
    assert s[0] == ' ' && s[1] == Quote;
    assert body == w + [Quote] + rest;
    Text.IndexOfAfter(w, Quote, rest);
    assert body[..|w|] == w;
    assert body[|w| + 1..] == rest;
  }

  /** Quoting is undone by `Unquote` as long as no word holds a quote. */
  lemma {:induction false} UnquoteQuotedAll(words: seq<string>)
    requires forall w :: w in words ==> Unquoted(w)
    ensures Unquote(QuotedAll(words)) == Some(words)
    decreases |words|
  {
    if words != [] {
      var w, rest := words[0], words[1..];
      assert w in words;
      assert forall x :: x in rest ==> x in words;
      calc {
        Unquote(QuotedAll(words));
        Unquote(Quoted(w) + QuotedAll(rest));
        { UnquoteQuoted(w, QuotedAll(rest)); UnquoteQuotedAll(rest); }
        Some([w] + rest);
        { assert words == [w] + rest; }
        Some(words);
      }
    }
  }

  /** Without escaping, a word holding `" "` reads like two words. */
  lemma QuotingCollides(a: string, b: string)
    ensures QuotedAll([a + "\" \"" + b]) == QuotedAll([a, b])
  {
    assert [a, b][1..] == [b];
    assert [b][1..] == [];
    assert [a + "\" \"" + b][1..] == [];
  }

  /** `append_argument(str, argument)`: the existing text is kept, and what follows it reads
      back as exactly the one argument, provided the argument holds no quote. */
  function AppendArgument(str: string, argument: string): (r: string)
    ensures |r| >= |str| && r[..|str|] == str
    ensures Unquoted(argument) ==> Unquote(r[|str|..]) == Some([argument])
  {
    QuotedReadsBack(str, argument);
    str + Quoted(argument)
  }

  /** One quoted word after any text reads back as that word. */
  lemma QuotedReadsBack(str: string, argument: string)
    ensures (str + Quoted(argument))[..|str|] == str
    ensures Unquoted(argument) ==> Unquote((str + Quoted(argument))[|str|..]) == Some([argument])
  {
    assert (str + Quoted(argument))[|str|..] == Quoted(argument);
    QuotedAllSingle(argument);
    if Unquoted(argument) {
      UnquoteQuotedAll([argument]);
    }
  }

  /** What `append_argument` adds is one element of `QuotedAll`. */
  lemma AppendArgumentQuoted(str: string, argument: string)
    ensures AppendArgument(str, argument) == str + QuotedAll([argument])
  {
    QuotedAllSingle(argument);
  }

  /** `append_argument(str, primary, secondary)`. Its body is
      `str += " \"" + primary += "\" \"" + secondary + "\""`; since `+=` binds weaker than
      `+` and groups to the right, the temporary `" \"" + primary` is extended by the
      rest before being appended, which amounts to two single appends. */
  function AppendArgumentPair(str: string, primary: string, secondary: string): (r: string)
    ensures r == AppendArgument(AppendArgument(str, primary), secondary)
  {
    var temporary := " \"" + primary;
    var extended := temporary + ("\" \"" + secondary + "\"");
    str + extended
  }

  /** The words the runtime receives for the stored arguments: each argument as it is,
      except that an argument equal to the placeholder becomes `-cp` and the new classpath. */
  function LaunchWords(arguments: seq<string>, classpath: string): seq<string>
  {
    if arguments == [] then []
    else
      (if arguments[0] == Arguments.Sentinel then [Arguments.ClasspathFlag, classpath] else [arguments[0]])
      + LaunchWords(arguments[1..], classpath)
  }

  lemma {:induction false} LaunchWordsAppend(a: seq<string>, b: seq<string>, classpath: string)
    ensures LaunchWords(a + b, classpath) == LaunchWords(a, classpath) + LaunchWords(b, classpath)
  {
    if a == [] {
      assert a + b == b;
    } else {
      assert (a + b)[0] == a[0];
      assert (a + b)[1..] == a[1..] + b;
      LaunchWordsAppend(a[1..], b, classpath);
    }
  }

  /** Arguments without the placeholder reach the runtime unchanged and in order. */
  lemma {:induction false} LaunchWordsWithoutSentinel(arguments: seq<string>, classpath: string)
    requires Arguments.Sentinel !in arguments
    ensures LaunchWords(arguments, classpath) == arguments
  {
    if arguments != [] {
      assert arguments[0] in arguments;
      LaunchWordsWithoutSentinel(arguments[1..], classpath);
      assert arguments == [arguments[0]] + arguments[1..];
    }
  }

  /** The placeholder first and one argument after it become `-cp`, the classpath and
      that argument, behind whatever word precedes them. */
  lemma LaunchWordsSentinelFirst(first: string, after: string, classpath: string)
    requires after != Arguments.Sentinel
    ensures [first] + LaunchWords([Arguments.Sentinel, after], classpath)
         == [first, Arguments.ClasspathFlag, classpath, after]
  {
    assert [after][1..] == [];
    assert LaunchWords([after], classpath) == [after];
    assert [Arguments.Sentinel, after][1..] == [after];
    assert LaunchWords([Arguments.Sentinel, after], classpath) == [Arguments.ClasspathFlag, classpath, after];
  }

  /** A stored placeholder alone becomes `-cp` followed by the classpath. */
  lemma LaunchWordsSentinelAlone(classpath: string)
    ensures LaunchWords([Arguments.Sentinel], classpath) == [Arguments.ClasspathFlag, classpath]
  {
    assert [Arguments.Sentinel][1..] == [];
  }

  /** The placeholder between two arguments becomes `-cp` and the classpath, in place. */
  lemma LaunchWordsAroundSentinel(before: string, after: string, classpath: string)
    requires before != Arguments.Sentinel && after != Arguments.Sentinel
    ensures LaunchWords([before, Arguments.Sentinel, after], classpath)
         == [before, Arguments.ClasspathFlag, classpath, after]
  {
    LaunchWordsSentinelFirst(before, after, classpath);
    assert [before, Arguments.Sentinel, after][1..] == [Arguments.Sentinel, after];
  }

  /** What one pass of the loop appends for a stored argument. */
  function AppendStored(str: string, argument: string, classpath: string): (r: string)
    ensures r == str + QuotedAll(LaunchWords([argument], classpath))
  {
    assert [argument][1..] == [];
    if argument == Arguments.Sentinel then
      assert [Arguments.ClasspathFlag, classpath][1..] == [classpath];
      QuotedAllSingle(classpath);
      AppendArgumentPair(str, Arguments.ClasspathFlag, classpath)
    else
      AppendArgumentQuoted(str, argument);
      AppendArgument(str, argument)
  }

  /** The loop over the stored arguments. */
  function AppendArguments(str: string, arguments: seq<string>, classpath: string): string
    decreases |arguments|
  {
    if arguments == [] then str
    else AppendArguments(AppendStored(str, arguments[0], classpath), arguments[1..], classpath)
  }

  /** The loop appends, quoted and in order, exactly the words the runtime is to receive. */
  lemma {:induction false} AppendArgumentsQuoted(str: string, arguments: seq<string>, classpath: string)
    ensures AppendArguments(str, arguments, classpath) == str + QuotedAll(LaunchWords(arguments, classpath))
    decreases |arguments|
  {
    if arguments != [] {
      var head, rest := arguments[0], arguments[1..];
      var first, later := LaunchWords([head], classpath), LaunchWords(rest, classpath);
      var next := AppendStored(str, head, classpath);
      calc {
        AppendArguments(str, arguments, classpath);
        AppendArguments(next, rest, classpath);
        { AppendArgumentsQuoted(next, rest, classpath); }
        next + QuotedAll(later);
        str + QuotedAll(first) + QuotedAll(later);
        { QuotedAllAppend(first, later); }
        str + QuotedAll(first + later);
        { assert arguments == [head] + rest;
          LaunchWordsAppend([head], rest, classpath); }
        str + QuotedAll(LaunchWords(arguments, classpath));
      }
    }
  }

  /** The runtime to run: `<java_home>/bin/java` when an override was given, the directory
      exists and the binary exists; `java` otherwise. */
  function SelectRuntime(javaHome: string, homeExists: bool, binaryExists: bool): (r: string)
    ensures r != DefaultRuntime <==> javaHome != "" && homeExists && binaryExists
    ensures r != DefaultRuntime ==> r == Paths.JavaBinary(javaHome)
  {
    if javaHome != "" && homeExists && binaryExists then Paths.JavaBinary(javaHome) else DefaultRuntime
  }

  /** The command line: the runtime unquoted, the native-library property, the arguments
      with the placeholder substituted, and the stderr redirection. */
  function AssembleCommand(runtime: string, natives: string, arguments: seq<string>, classpath: string): (r: string)
    ensures r == runtime + QuotedAll([NativesProperty + natives] + LaunchWords(arguments, classpath)) + StderrToStdout
  {
    var property := NativesProperty + natives;
    var start := AppendArgument(runtime, property);
    AssemblyQuoted(runtime, property, arguments, classpath);
    AppendArguments(start, arguments, classpath) + StderrToStdout
  }

  /** The property and the loop together append the quoted launch words. */
  lemma AssemblyQuoted(runtime: string, property: string, arguments: seq<string>, classpath: string)
    ensures AppendArguments(AppendArgument(runtime, property), arguments, classpath)
         == runtime + QuotedAll([property] + LaunchWords(arguments, classpath))
  {
    var start := AppendArgument(runtime, property);
    var words := LaunchWords(arguments, classpath);
    calc {
      AppendArguments(start, arguments, classpath);
      { AppendArgumentsQuoted(start, arguments, classpath); }
      start + QuotedAll(words);
      { AppendArgumentQuoted(runtime, property); }
      runtime + QuotedAll([property]) + QuotedAll(words);
      { QuotedAllAppend([property], words); }
      runtime + QuotedAll([property] + words);
    }
  }

  /** The runtime comes first, unquoted. */
  lemma CommandStartsWithRuntime(runtime: string, natives: string, arguments: seq<string>, classpath: string)
    ensures var r := AssembleCommand(runtime, natives, arguments, classpath);
            |r| >= |runtime| && r[..|runtime|] == runtime
  {
    var middle := QuotedAll([NativesProperty + natives] + LaunchWords(arguments, classpath));
    var r := runtime + middle + StderrToStdout;
    assert r[..|runtime|] == runtime;
  }

  /** Read back, the command is the runtime, the quoted words the runtime receives, and the
      redirection, provided no word holds a quote. */
  lemma CommandReadsBack(runtime: string, natives: string, arguments: seq<string>, classpath: string)
    requires Unquoted(natives) && Unquoted(classpath)
    requires forall a :: a in arguments ==> Unquoted(a)
    ensures var r := AssembleCommand(runtime, natives, arguments, classpath);
            var words := [NativesProperty + natives] + LaunchWords(arguments, classpath);
            && |r| >= |runtime| + |StderrToStdout|
            && r[..|runtime|] == runtime
            && r[|r| - |StderrToStdout|..] == StderrToStdout
            && Unquote(r[|runtime|..|r| - |StderrToStdout|]) == Some(words)
  {
    var r := AssembleCommand(runtime, natives, arguments, classpath);
    var words := [NativesProperty + natives] + LaunchWords(arguments, classpath);
    var middle := QuotedAll(words);
    assert r == runtime + middle + StderrToStdout;
    assert r[|runtime|..|r| - |StderrToStdout|] == middle;
    LaunchWordsUnquoted(arguments, classpath);
    assert Unquoted(NativesProperty + natives) by {
      assert Quote !in NativesProperty;
    }
    assert forall w :: w in words ==> Unquoted(w);
    UnquoteQuotedAll(words);
  }

  lemma {:induction false} LaunchWordsUnquoted(arguments: seq<string>, classpath: string)
    requires Unquoted(classpath)
    requires forall a :: a in arguments ==> Unquoted(a)
    ensures forall w :: w in LaunchWords(arguments, classpath) ==> Unquoted(w)
  {
    if arguments != [] {
      assert arguments[0] in arguments;
      assert forall a :: a in arguments[1..] ==> a in arguments;
      LaunchWordsUnquoted(arguments[1..], classpath);
      assert Unquoted(Arguments.ClasspathFlag);
    }
  }
}
