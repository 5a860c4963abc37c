# MinecraftAppleSiliconShim launcher shim, modelled in Dafny

The shim stands in for the Java executable in a Minecraft launcher profile. It reads the
launcher's argument vector and intercepts two options. `-javahome <dir>` picks another
runtime. `-cp <classpath>` has every LWJGL archive removed from its classpath, and the
shim's own `lwjglfat.jar` is appended instead. The shim then builds one shell command
line: the runtime, a native-library property, every other argument double-quoted, and
a stderr redirection. When something is missing it stops with a numeric exit code.

The model follows `main.cpp` module by module:

- `Text`: a case-sensitive substring test (`std::string::find`) and the first-position search the
  classpath split relies on.
- `Paths`: `std::filesystem::path::operator/` for a relative right operand on a POSIX
  system. Also the four derived paths: `$HOME/Library/Application Support/minecraft`,
  `shim/lwjglfat.jar`, `shim/lwjglnatives` and `<java_home>/bin/java`.
- `Classpath`: the `std::getline(':')` split, the `"lwjgl"` filter and `create_classpath`.
- `Arguments`: the `argc` ceiling and the left-to-right scan of `main`. A method with a
  `uint8` cursor shows that the source's 8-bit loop counter computes the same result as
  the unbounded scan.
- `Command`: both overloads of `append_argument`, the runtime choice and the assembly
  of the command line, plus a decoder (`Unquote`) used as the partner of the quoting.
- `Shim`: `main` as a function of the argument vector and the filesystem it sees. It
  returns either an exit code or the command to launch.

The argument scan is also described by an independent grammar. An argument vector is a
sequence of items: plain tokens, `-javahome` pairs and `-cp` pairs. `Interpret` gives the
meaning of such a sequence, and the lemmas show that the scan computes exactly that
meaning. They also show that a flag left without a value, and nothing else, makes the
scan fail.

Behaviour of `main.cpp` worth noting:

- The shim's own replacement path, `<minecraft>/shim/lwjglfat.jar`, contains `lwjgl`. When
  `$HOME` contains no ':', the path is a single classpath entry, and a second pass drops it
  again. Rewriting twice then gives the same classpath as rewriting once
  (`Classpath.RewriteIdempotent`, `Shim.ShimRewriteIdempotent`). A replacement outside the
  LWJGL family would be duplicated instead (`Classpath.RewriteTwiceDuplicates`).
- `-cp` and the rewritten classpath appear where `-cp` stood among the launcher's
  arguments, between the arguments that surrounded it (`Shim.RunWithClasspath`,
  `Shim.RunEncoded`).
- A flag in the last position fails the scan only when the scan reaches it as a flag. In
  `prog -cp -cp`, the second `-cp` is the value of the first, and the scan succeeds
  (`Arguments.ParseFlagAsValue`, `Arguments.ParseCharacterized`).
- The placeholder for the `-cp` position is the plain string `_CLASSPATH_POSITION_`. A
  launcher argument spelled the same way is also replaced by `-cp` and the new classpath
  (`Command.LaunchWordsSentinelAlone`, with `Shim.RunEncoded` for a plain item so spelled).
- Once the log file has taken over `std::cout`'s buffer (main.cpp:89-91), the returns
  with codes 2, 3 and 5 (main.cpp:96, 103, 112, 130) leave it in place; only the launch
  path restores it (main.cpp:179). The log stream is destroyed when `main` returns, and the
  flush of `std::cout` at program exit then uses a destroyed buffer. That is undefined
  behaviour, so the process may end abnormally instead of with the code `main` returned.
  The model reports the value `main` returns.

## Model

| member | source | states |
|---|---|---|
| Text.ContainsOccurs | main.cpp:49 | the substring test holds exactly when the pattern occurs at some position of the token |
| Paths.Join | main.cpp:78 | `p / q` starts with `p` and ends with `q`; between them is one '/' unless `p` is empty or already ends in '/'; it adds no ':' |
| Paths.MinecraftDir | main.cpp:78 | the Minecraft directory is never empty, extends `$HOME`, and has no ':' when `$HOME` has none |
| Paths.ShimFat | main.cpp:124 | the replacement archive path names the LWJGL family, and has no ':' when the Minecraft directory has none |
| Paths.ShimNatives | main.cpp:125 | the native-library directory extends the Minecraft directory and ends in `lwjglnatives` |
| Paths.JavaBinary | main.cpp:152 | the override binary extends the override directory, ends in `java`, and differs from plain `java` when an override is given |
| Classpath.Split | main.cpp:46-48 | no token holds ':'; the input gives no tokens exactly when it is empty |
| Classpath.SplitTerminated | main.cpp:46-48 | entries each followed by ':' read back as those same entries, however the rest continues (empty entries included) |
| Classpath.TerminateSplit | main.cpp:46-55 | re-emitting every token followed by ':' gives the input back, with a ':' added only if it did not already end in one (trailing-delimiter quirk) |
| Classpath.SplitTrailingDelimiter | main.cpp:46-48 | a trailing ':' yields no empty final token |
| Classpath.Survivors | main.cpp:49-53 | every surviving entry is an input entry that does not contain `lwjgl` |
| Classpath.SurvivorsAppend | main.cpp:48-56 | filtering works entry by entry: filtering a concatenation is the concatenation of the filtered parts, so relative order is kept |
| Classpath.SurvivorsCount | main.cpp:49-53 | an entry containing `lwjgl` occurs zero times in the result; any other entry occurs exactly as often as in the input |
| Classpath.CreateClasspath | main.cpp:39-63 | the result ends with the replacement path, and an empty old classpath yields exactly the replacement path |
| Classpath.RewriteReparse | main.cpp:39-63 | reading the new classpath back gives the surviving old entries in order, then the replacement path's entries |
| Classpath.RewriteIdempotent | main.cpp:49-59 | with a replacement that contains `lwjgl` and no ':', rewriting twice equals rewriting once |
| Classpath.RewriteTwiceDuplicates | main.cpp:49-59 | with a non-empty replacement outside the family and without ':', a second pass appends a second copy of it |
| Classpath.RewriteDropsExcludedEntry | main.cpp:46-59 | `a:b:c` with only `b` naming `lwjgl` becomes `a:c:` followed by the replacement path |
| Classpath.RewriteCleanClasspath | main.cpp:46-59 | with no excluded entry the old classpath is kept verbatim, empty segments included, and one ':' is added before the replacement unless it already ends in ':' |
| Arguments.Scan | main.cpp:100-121 | the scan itself never reports too many arguments |
| Arguments.Parse | main.cpp:94-97 | too many arguments is reported exactly when `argc` exceeds 255, before any token is looked at |
| Arguments.ScanItem | main.cpp:100-120 | one step of the scan consumes one item, a plain token or a flag with its value, and applies its effect |
| Arguments.ApplyThenRest | main.cpp:100-121 | one item's effect composes with the rest: the last override and the last classpath win, and stored arguments keep their order |
| Arguments.ScanEncoded | main.cpp:100-121 | scanning a well-formed item sequence adds exactly its meaning: the last `-javahome` value, the last `-cp` value, and the plain tokens plus one placeholder per `-cp`, in order |
| Arguments.ScanDangling | main.cpp:101-112 | a flag with no value after a well-formed prefix fails with the bounds error |
| Arguments.ParseEncoded | main.cpp:94-121 | a well-formed argument vector within the ceiling parses to its meaning under the grammar |
| Arguments.ParseDangling | main.cpp:94-112 | a well-formed vector followed by a flag without a value is rejected with the bounds error |
| Arguments.DecodeSplits | main.cpp:100-121 | every token sequence splits into well-formed items followed by nothing or by a single flag |
| Arguments.ParseCharacterized | main.cpp:94-121 | every vector within the ceiling parses to the meaning of its items, or is rejected with the bounds error exactly when a flag is left without a value |
| Arguments.ParseNoFlags | main.cpp:100-121 | without recognised flags the stored arguments are `argv[1..]` unchanged and in order, and neither value is set |
| Arguments.ParseClasspathThenArgument | main.cpp:110-120 | `-cp X a` stores the placeholder then `a`, and records `X` |
| Arguments.ParseJavaHomeOnly | main.cpp:101-107 | `-javahome X` stores nothing and records `X` |
| Arguments.ParseRepeatedClasspath | main.cpp:110-117 | with two `-cp` pairs the last value wins and each pair leaves its own placeholder |
| Arguments.ParseRepeatedJavaHome | main.cpp:101-107 | with two `-javahome` pairs the last value wins |
| Arguments.ParseFlagAsValue | main.cpp:100-118 | a flag's value is taken verbatim even when it is itself a flag |
| Arguments.ScanWithByteCursor | main.cpp:94-121 | the loop with an 8-bit cursor and its `0xff` guard computes the same result as the unbounded scan |
| Command.AppendArgument | main.cpp:24-26 | one call keeps the existing text, and what it appends reads back as exactly that one argument, provided the argument holds no quote |
| Command.UnquoteQuotedAll | main.cpp:24-26 | a run of quoted words decodes back to the words when none holds a quote |
| Command.QuotingCollides | main.cpp:24-26 | embedded quotes are not escaped: one word holding `" "` reads the same as two words |
| Command.AppendArgumentPair | main.cpp:28-30 | the two-argument overload equals two one-argument appends |
| Command.AppendStored | main.cpp:166-173 | one pass of the loop appends the quoted words for one stored argument, with `-cp` and the new classpath in place of the placeholder |
| Command.AppendArgumentsQuoted | main.cpp:166-173 | the loop appends, quoted and in order, exactly the words the runtime is to receive |
| Command.LaunchWordsAppend | main.cpp:166-173 | the substitution of placeholders works element by element over concatenations |
| Command.LaunchWordsWithoutSentinel | main.cpp:166-173 | arguments without the placeholder reach the runtime unchanged and in order |
| Command.LaunchWordsSentinelAlone | main.cpp:166-170 | a stored argument equal to the placeholder, whether `-cp` pushed it or the launcher passed it, becomes `-cp` followed by the new classpath |
| Command.LaunchWordsAroundSentinel | main.cpp:166-173 | a placeholder between two arguments becomes `-cp` and the classpath at that position |
| Command.SelectRuntime | main.cpp:143-160 | the runtime differs from `java` exactly when an override is given, its directory exists and its binary exists, and it is then `<java_home>/bin/java` |
| Command.AssembleCommand | main.cpp:162-176 | the command is the runtime, then the quoted native-library property and the quoted launch words, then ` 2>&1` |
| Command.CommandStartsWithRuntime | main.cpp:143-176 | the command starts with the chosen runtime, unquoted |
| Command.CommandReadsBack | main.cpp:162-176 | when no word holds a quote, the command splits back into runtime, property plus launch words, and redirection |
| Shim.Status | main.cpp:16-22 | the exit status is 0 exactly for a launch |
| Shim.Run | main.cpp:78-176 | no Minecraft directory gives code 1, and nothing else does; then a vector over 255 gives 2; then a bounds failure gives 3, before the patch check; a missing replacement archive gives 5 exactly after a successful parse; otherwise the shim launches |
| Shim.RunEncoded | main.cpp:100-176 | for every well-formed vector within the ceiling, once both directories exist, the shim launches the runtime chosen for the last `-javahome` value, the native-library property, the plain arguments in order with `-cp` and the last `-cp` value, rewritten, at every `-cp` position, and the redirection |
| Shim.RunWithClasspath | main.cpp:100-176 | `-cp X a` launches `java`, the property, `-cp`, the rewritten `X` and `a`, in that order, then the redirection |
| Shim.ShimRewriteIdempotent | main.cpp:124-140 | feeding the shim's own rewritten classpath back through it changes nothing when `$HOME` has no ':' |
| Shim.RunRuntimeChoice | main.cpp:143-176 | with `-javahome X` alone, the command is exactly the runtime, the quoted native-library property and the redirection, where the runtime is `X/bin/java` if `X` is non-empty and both `X` and its binary exist, and plain `java` otherwise |

## Left out

- `getenv("HOME")` and `std::filesystem::exists` are inputs. `$HOME` is a string, and the
  filesystem is the set of paths that exist. Symbolic links and races between the checks
  are not modelled.
- Failing `exists` calls are not modelled. The shim uses the throwing overload of
  `std::filesystem::exists` (main.cpp:79, 128, 148, 154). Any stat failure other than
  "not found" (a path component without search permission, a name that is too long)
  throws `filesystem_error`. Nothing catches it, so the shim ends through `std::terminate`
  with none of its exit codes. For example, `-javahome /root/jdk` without search
  permission on `/root` aborts at main.cpp:148, where the model falls back to `java`.
- A missing `$HOME` is not modelled: `getenv` returning a null pointer is undefined
  behaviour in the source.
- Paths.Join: models `operator/` only for a relative right operand without a root name,
  which is every use in the shim. An absolute `-javahome` value is still a plain left
  operand, so the joins the shim performs are all covered.
- The log-file redirection through `rdbuf` and all diagnostic printing are left out. They
  do not affect the value `main` returns or the command. On the returns with codes 2, 3
  and 5 the redirection is never undone, so the flush at exit uses a destroyed stream (see
  above); the model reports the returned value, not how the process ends.
- `popen`, the `fgets` relay loop and `pclose` are process I/O. `main` returns 0 after them
  whether or not the pipe opened, which `Shim.Status` reflects.
- The shell's interpretation of the command string is left out. The model stops at the
  string, and `Command.QuotingCollides` shows why a shell may split it differently from
  the argument list.
- Arguments.Scan: its own contract only rules out the too-many-arguments error. What the
  scan computes is stated against the grammar by `Arguments.ScanEncoded`,
  `Arguments.ScanDangling` and `Arguments.ParseCharacterized`.
- `argv` entries are strings without the terminating NUL. `strcmp` equality is string
  equality.
