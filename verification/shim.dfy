/** The shim's `main` as a function of its argument vector and the filesystem it sees:
    which exit code it returns, in which order the fatal conditions are checked, and the
    command line it hands to the shell when none of them applies. */
module Shim {
  import Paths
  import Classpath
  import Arguments
  import Command

  /** The fatal outcomes of `main`. */
  datatype ExitCode = NoMinecraft | TooManyArguments | ArgumentBounds | NoPatch

  /** The numeric codes of `enum error_code`. */
  function Value(code: ExitCode): int
  {
    match code
    case NoMinecraft => 1
    case TooManyArguments => 2
    case ArgumentBounds => 3
    case NoPatch => 5
  }

  /** `main` either stops with an error code or runs the command line (and then returns 0,
      whether or not the pipe could be opened). */
  datatype Outcome = Exit(code: ExitCode) | Launch(command: string)

  function Status(outcome: Outcome): (status: int)
    ensures status == 0 <==> outcome.Launch?
  {
    match outcome
    case Exit(code) => Value(code)
    case Launch(_) => 0
  }

  /** What `main` reads from outside: `$HOME` and the set of paths that exist. */
  datatype Environment = Environment(home: string, existing: set<string>)

  function MinecraftOf(env: Environment): string
  {
    Paths.MinecraftDir(env.home)
  }

  /** `main`, without its logging and the relaying of the child's output. */
  function Run(argv: seq<string>, env: Environment): (outcome: Outcome)
    ensures outcome == Exit(NoMinecraft) <==> MinecraftOf(env) !in env.existing
    ensures MinecraftOf(env) in env.existing && |argv| > Arguments.MaxArgc
            ==> outcome == Exit(TooManyArguments)
    ensures MinecraftOf(env) in env.existing && Arguments.Parse(argv) == Arguments.Rejected(Arguments.ArgumentBounds)
            ==> outcome == Exit(ArgumentBounds)
    ensures outcome == Exit(NoPatch)
            <==> MinecraftOf(env) in env.existing && Arguments.Parse(argv).Parsed?
                 && Paths.ShimFat(MinecraftOf(env)) !in env.existing
    ensures outcome.Launch?
            <==> MinecraftOf(env) in env.existing && Arguments.Parse(argv).Parsed?
                 && Paths.ShimFat(MinecraftOf(env)) in env.existing
  {
    var minecraft := MinecraftOf(env);
    if minecraft == "" || minecraft !in env.existing then Exit(NoMinecraft)
    else match Arguments.Parse(argv)
      case Rejected(error) =>
        if error.TooManyArguments? then Exit(TooManyArguments) else Exit(ArgumentBounds)
      case Parsed(invocation) =>
        var fat := Paths.ShimFat(minecraft);
        if fat !in env.existing then Exit(NoPatch)
        else
          var classpath := Classpath.CreateClasspath(invocation.classpath, fat);
          var javaHome := invocation.javaHome;
          var runtime := Command.SelectRuntime(javaHome, javaHome in env.existing,
                                               Paths.JavaBinary(javaHome) in env.existing);
          Launch(Command.AssembleCommand(runtime, Paths.ShimNatives(minecraft), invocation.arguments, classpath))
  }

  /** The launch branch of `Run`, once the scan has produced `invocation`. */
  lemma LaunchAfterParse(argv: seq<string>, env: Environment, invocation: Arguments.Invocation)
    requires Arguments.Parse(argv) == Arguments.Parsed(invocation)
    requires MinecraftOf(env) in env.existing && Paths.ShimFat(MinecraftOf(env)) in env.existing
    ensures var javaHome := invocation.javaHome;
            Run(argv, env)
            == Launch(Command.SelectRuntime(javaHome, javaHome in env.existing, Paths.JavaBinary(javaHome) in env.existing)
                      + Command.QuotedAll([Command.NativesProperty + Paths.ShimNatives(MinecraftOf(env))]
                                          + Command.LaunchWords(invocation.arguments,
                                              Classpath.CreateClasspath(invocation.classpath, Paths.ShimFat(MinecraftOf(env)))))
                      + Command.StderrToStdout)
  {
  }

  /** The command `main` launches for any well-formed argument vector within the ceiling,
      once both directories are found: the runtime chosen for the last `-javahome` value,
      the native-library property, the plain arguments in order with the last `-cp` value,
      rewritten, at every `-cp` position, and the redirection. */
  lemma RunEncoded(program: string, items: seq<Arguments.Item>, env: Environment)
    requires Arguments.WellFormed(items) && 1 + |Arguments.Encode(items)| <= Arguments.MaxArgc
    requires MinecraftOf(env) in env.existing && Paths.ShimFat(MinecraftOf(env)) in env.existing
    ensures var minecraft := MinecraftOf(env);
            var javaHome := Arguments.LastJavaHome(items, "");
            var classpath := Classpath.CreateClasspath(Arguments.LastClasspath(items, ""), Paths.ShimFat(minecraft));
            Run([program] + Arguments.Encode(items), env)
            == Launch(Command.SelectRuntime(javaHome, javaHome in env.existing, Paths.JavaBinary(javaHome) in env.existing)
                      + Command.QuotedAll([Command.NativesProperty + Paths.ShimNatives(minecraft)]
                                          + Command.LaunchWords(Arguments.Passthrough(items), classpath))
                      + Command.StderrToStdout)
  {
    Arguments.ParseEncoded(program, items);
    LaunchAfterParse([program] + Arguments.Encode(items), env, Arguments.Interpret(items));
  }

  /** A launch with `-cp <classpath>` followed by one other argument and no runtime
      override: `java`, the native-library property, the rewritten classpath in the place
      of `-cp`, the other argument, and the redirection. */
  lemma RunWithClasspath(program: string, classpath: string, argument: string, env: Environment)
    requires !Arguments.IsFlag(argument) && argument != Arguments.Sentinel
    requires MinecraftOf(env) in env.existing && Paths.ShimFat(MinecraftOf(env)) in env.existing
    ensures Run([program, Arguments.ClasspathFlag, classpath, argument], env)
         == Launch(Command.DefaultRuntime
                   + Command.QuotedAll([Command.NativesProperty + Paths.ShimNatives(MinecraftOf(env)),
                                        Arguments.ClasspathFlag,
                                        Classpath.CreateClasspath(classpath, Paths.ShimFat(MinecraftOf(env))),
                                        argument])
                   + Command.StderrToStdout)
  {
    var argv := [program, Arguments.ClasspathFlag, classpath, argument];
    var minecraft := MinecraftOf(env);
    var newClasspath := Classpath.CreateClasspath(classpath, Paths.ShimFat(minecraft));
    var property := Command.NativesProperty + Paths.ShimNatives(minecraft);
    var stored := [Arguments.Sentinel, argument];
    var words := [property, Arguments.ClasspathFlag, newClasspath, argument];
    Arguments.ParseClasspathThenArgument(program, classpath, argument);
    Command.LaunchWordsSentinelFirst(property, argument, newClasspath);
    calc {
      Run(argv, env);
      { LaunchAfterParse(argv, env, Arguments.Invocation("", classpath, stored)); }
      Launch(Command.DefaultRuntime + Command.QuotedAll([property] + Command.LaunchWords(stored, newClasspath))
             + Command.StderrToStdout);
      Launch(Command.DefaultRuntime + Command.QuotedAll(words) + Command.StderrToStdout);
    }
  }

  /** The replacement archive the shim splices in names the LWJGL family, so feeding the
      shim's own classpath back through it changes nothing (when `$HOME` has no ':'). */
  lemma ShimRewriteIdempotent(env: Environment, classpath: string)
    requires Classpath.NoDelimiter(env.home)
    ensures var fat := Paths.ShimFat(MinecraftOf(env));
            Classpath.CreateClasspath(Classpath.CreateClasspath(classpath, fat), fat)
            == Classpath.CreateClasspath(classpath, fat)
  {
    Classpath.RewriteIdempotent(classpath, Paths.ShimFat(MinecraftOf(env)));
  }

  /** With `-javahome <dir>` alone, the command is the chosen runtime, the native-library
      property and the redirection; the runtime is `<dir>/bin/java` when the override is
      usable and plain `java` otherwise. */
  lemma RunRuntimeChoice(program: string, javaHome: string, env: Environment)
    requires MinecraftOf(env) in env.existing && Paths.ShimFat(MinecraftOf(env)) in env.existing
    ensures var usable := javaHome != "" && javaHome in env.existing && Paths.JavaBinary(javaHome) in env.existing;
            Run([program, Arguments.JavaHomeFlag, javaHome], env)
            == Launch((if usable then Paths.JavaBinary(javaHome) else Command.DefaultRuntime)
                      + Command.Quoted(Command.NativesProperty + Paths.ShimNatives(MinecraftOf(env)))
                      + Command.StderrToStdout)
  {
    var minecraft := MinecraftOf(env);
    var property := Command.NativesProperty + Paths.ShimNatives(minecraft);
    var newClasspath := Classpath.CreateClasspath("", Paths.ShimFat(minecraft));
    var runtime := Command.SelectRuntime(javaHome, javaHome in env.existing, Paths.JavaBinary(javaHome) in env.existing);
    Arguments.ParseJavaHomeOnly(program, javaHome);
    assert Command.LaunchWords([], newClasspath) == [];
    calc {
      Run([program, Arguments.JavaHomeFlag, javaHome], env);
      { LaunchAfterParse([program, Arguments.JavaHomeFlag, javaHome], env, Arguments.Invocation(javaHome, "", [])); }
      Launch(runtime + Command.QuotedAll([property] + Command.LaunchWords([], newClasspath)) + Command.StderrToStdout);
      { assert [property] + Command.LaunchWords([], newClasspath) == [property]; }
      Launch(runtime + Command.QuotedAll([property]) + Command.StderrToStdout);
      { Command.QuotedAllSingle(property); }
      Launch(runtime + Command.Quoted(property) + Command.StderrToStdout);
    }
  }
}
