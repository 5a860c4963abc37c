/** The argument scan at the top of the shim's `main`: the launcher's argument vector is
    read left to right, `-javahome <path>` and `-cp <classpath>` are taken out (the latter
    leaving a placeholder at its position), and every other token is kept as it is. */
module Arguments {

  /** The largest `argc` the shim accepts. */
  const MaxArgc: nat := 255

  const JavaHomeFlag: string := "-javahome"
  const ClasspathFlag: string := "-cp"

  /** The placeholder stored where `-cp <classpath>` stood. It is an ordinary string, so a
      launcher argument spelled the same way is indistinguishable from it. */
  const Sentinel: string := "_CLASSPATH_POSITION_"

  /** What the scan collects: the `-javahome` value, the `-cp` value (both empty when
      absent) and the arguments to pass on. */
  datatype Invocation = Invocation(javaHome: string, classpath: string, arguments: seq<string>)

  const Initial: Invocation := Invocation("", "", [])

  /** `RES_TOO_MANY_ARGS` and `RES_ARGUMENT_BOUNDS`. */
  datatype ParseError = TooManyArguments | ArgumentBounds

  datatype ParseResult = Parsed(invocation: Invocation) | Rejected(error: ParseError)

  predicate IsFlag(token: string)
  {
    token == JavaHomeFlag || token == ClasspathFlag
  }

  /** The scan from cursor `i` on (index 0 is the program name), with the values collected
      so far. A recognised flag in the last position has no value and fails the scan. */
  function Scan(argv: seq<string>, i: nat, acc: Invocation): (r: ParseResult)
    ensures r != Rejected(TooManyArguments)
    decreases |argv| - i
  {
    if i >= |argv| then Parsed(acc)
    else if argv[i] == JavaHomeFlag then
      if i + 1 >= |argv| then Rejected(ArgumentBounds)
      else Scan(argv, i + 2, acc.(javaHome := argv[i + 1]))
    else if argv[i] == ClasspathFlag then
      if i + 1 >= |argv| then Rejected(ArgumentBounds)
      else Scan(argv, i + 2, acc.(classpath := argv[i + 1], arguments := acc.arguments + [Sentinel]))
    else
      Scan(argv, i + 1, acc.(arguments := acc.arguments + [argv[i]]))
  }

  /** The whole argument handling: the `argc` ceiling first, then the scan from index 1. */
  function Parse(argv: seq<string>): (r: ParseResult)
    ensures r == Rejected(TooManyArguments) <==> |argv| > MaxArgc
  {
    if |argv| > MaxArgc then Rejected(TooManyArguments) else Scan(argv, 1, Initial)
  }

  // ---------------------------------------------------------------------------
  // A grammar for argument vectors, as an independent description of the scan.

  /** One unit of the launcher's argument vector as the shim reads it. */
  datatype Item = Plain(token: string) | JavaHome(path: string) | Classpath(value: string)

  function Tokens(item: Item): seq<string>
  {
    match item
    case Plain(t) => [t]
    case JavaHome(p) => [JavaHomeFlag, p]
    case Classpath(v) => [ClasspathFlag, v]
  }

  function Encode(items: seq<Item>): seq<string>
  {
    if items == [] then [] else Tokens(items[0]) + Encode(items[1..])
  }

  /** A plain token is never one of the two flags (a flag value may be anything). */
  predicate WellFormed(items: seq<Item>)
  {
    forall item :: item in items && item.Plain? ==> !IsFlag(item.token)
  }

  /** The path of the last `JavaHome` item, or `default` when there is none. */
  function LastJavaHome(items: seq<Item>, default: string): string
  {
    if items == [] then default
    else match items[|items| - 1]
      case JavaHome(p) => p
      case _ => LastJavaHome(items[..|items| - 1], default)
  }

  /** The value of the last `Classpath` item, or `default` when there is none. */
  function LastClasspath(items: seq<Item>, default: string): string
  {
    if items == [] then default
    else match items[|items| - 1]
      case Classpath(v) => v
      case _ => LastClasspath(items[..|items| - 1], default)
  }

  /** Plain tokens as they are, one placeholder per classpath, nothing for a runtime override. */
  function Passthrough(items: seq<Item>): seq<string>
  {
    if items == [] then [] else Stored(items[0]) + Passthrough(items[1..])
  }

  /** What one item leaves in the stored arguments. */
  function Stored(item: Item): seq<string>
  {
    match item
    case Plain(t) => [t]
    case JavaHome(_) => []
    case Classpath(_) => [Sentinel]
  }

  /** What an argument vector made of `items` means: last value wins for both flags. */
  function Interpret(items: seq<Item>): Invocation
  {
    Invocation(LastJavaHome(items, ""), LastClasspath(items, ""), Passthrough(items))
  }

  lemma {:induction false} LastJavaHomeCons(item: Item, rest: seq<Item>, default: string)
    ensures LastJavaHome([item] + rest, default)
         == LastJavaHome(rest, if item.JavaHome? then item.path else default)
    decreases |rest|
  {
    var items := [item] + rest;
    if rest != [] {
      assert items[..|items| - 1] == [item] + rest[..|rest| - 1];
      assert items[|items| - 1] == rest[|rest| - 1];
      LastJavaHomeCons(item, rest[..|rest| - 1], default);
    } else {
      assert items[..|items| - 1] == [];
    }
  }

  lemma {:induction false} LastClasspathCons(item: Item, rest: seq<Item>, default: string)
    ensures LastClasspath([item] + rest, default)
         == LastClasspath(rest, if item.Classpath? then item.value else default)
    decreases |rest|
  {
    var items := [item] + rest;
    if rest != [] {
      assert items[..|items| - 1] == [item] + rest[..|rest| - 1];
      assert items[|items| - 1] == rest[|rest| - 1];
      LastClasspathCons(item, rest[..|rest| - 1], default);
    } else {
      assert items[..|items| - 1] == [];
    }
  }

  /** The effect of one item on the collected values. */
  function Apply(acc: Invocation, item: Item): Invocation
  {
    match item
    case Plain(_) => acc.(arguments := acc.arguments + Stored(item))
    case JavaHome(p) => acc.(javaHome := p)
    case Classpath(v) => acc.(classpath := v, arguments := acc.arguments + Stored(item))
  }

  /** The scan consumes one encoded item in one step. */
  lemma ScanItem(argv: seq<string>, i: nat, acc: Invocation, item: Item, rest: seq<string>)
    requires i <= |argv| && argv[i..] == Tokens(item) + rest
    requires item.Plain? ==> !IsFlag(item.token)
    ensures i + |Tokens(item)| <= |argv| && argv[i + |Tokens(item)|..] == rest
    ensures Scan(argv, i, acc) == Scan(argv, i + |Tokens(item)|, Apply(acc, item))
  {
    var n := |Tokens(item)|;
    assert argv[i..][..n] == Tokens(item);
    assert argv[i..][n..] == rest;
    assert argv[i] == Tokens(item)[0];
    if n == 2 {
      assert argv[i + 1] == Tokens(item)[1];
    }
  }

  /** Appending one item in front shifts the meaning of the rest by that item's effect. */
  lemma ApplyThenRest(acc: Invocation, item: Item, rest: seq<Item>)
    ensures Invocation(LastJavaHome(rest, Apply(acc, item).javaHome), LastClasspath(rest, Apply(acc, item).classpath),
                       Apply(acc, item).arguments + Passthrough(rest))
         == Invocation(LastJavaHome([item] + rest, acc.javaHome), LastClasspath([item] + rest, acc.classpath),
                       acc.arguments + Passthrough([item] + rest))
  {
    ApplyFields(acc, item);
    LastJavaHomeCons(item, rest, acc.javaHome);
    LastClasspathCons(item, rest, acc.classpath);
    PassthroughCons(acc.arguments, item, rest);
  }

  lemma ApplyFields(acc: Invocation, item: Item)
    ensures Apply(acc, item).javaHome == if item.JavaHome? then item.path else acc.javaHome
    ensures Apply(acc, item).classpath == if item.Classpath? then item.value else acc.classpath
    ensures Apply(acc, item).arguments == acc.arguments + Stored(item)
  {
  }

  lemma PassthroughCons(stored: seq<string>, item: Item, rest: seq<Item>)
    ensures stored + Passthrough([item] + rest) == stored + Stored(item) + Passthrough(rest)
  {
    assert ([item] + rest)[1..] == rest;
  }

  lemma WellFormedTail(items: seq<Item>)
    requires items != [] && WellFormed(items)
    ensures WellFormed(items[1..])
    ensures items[0].Plain? ==> !IsFlag(items[0].token)
  {
    assert items[0] in items;
    forall x | x in items[1..] ensures x in items { }
  }

  lemma EncodeCons(items: seq<Item>)
    requires items != []
    ensures Encode(items) == Tokens(items[0]) + Encode(items[1..])
  {
  }

  /** Scanning an encoded item sequence from any state adds exactly what the items mean. */
  lemma {:induction false} ScanEncoded(argv: seq<string>, i: nat, acc: Invocation, items: seq<Item>)
    requires i <= |argv| && argv[i..] == Encode(items) && WellFormed(items)
    ensures Scan(argv, i, acc) == Parsed(Invocation(LastJavaHome(items, acc.javaHome),
                                                   LastClasspath(items, acc.classpath),
                                                   acc.arguments + Passthrough(items)))
    decreases |items|
  {
    if items == [] {
      assert acc.arguments + [] == acc.arguments;
    } else {
      var item, rest := items[0], items[1..];
      var n := |Tokens(item)|;
      WellFormedTail(items);
      EncodeCons(items);
      calc {
        Scan(argv, i, acc);
        { ScanItem(argv, i, acc, item, Encode(rest)); }
        Scan(argv, i + n, Apply(acc, item));
        { ScanEncoded(argv, i + n, Apply(acc, item), rest); }
        Parsed(Invocation(LastJavaHome(rest, Apply(acc, item).javaHome), LastClasspath(rest, Apply(acc, item).classpath),
                          Apply(acc, item).arguments + Passthrough(rest)));
        { ApplyThenRest(acc, item, rest); assert [item] + rest == items; }
        Parsed(Invocation(LastJavaHome(items, acc.javaHome), LastClasspath(items, acc.classpath),
                          acc.arguments + Passthrough(items)));
      }
    }
  }

  /** A flag left without a value after an encoded item sequence fails the scan. */
  lemma {:induction false} ScanDangling(argv: seq<string>, i: nat, acc: Invocation, items: seq<Item>, flag: string)
    requires i <= |argv| && argv[i..] == Encode(items) + [flag] && WellFormed(items) && IsFlag(flag)
    ensures Scan(argv, i, acc) == Rejected(ArgumentBounds)
    decreases |items|
  {
    if items == [] {
      assert argv[i..] == [flag];
      assert argv[i] == flag && i + 1 == |argv|;
    } else {
      var item, rest := items[0], items[1..];
      var n := |Tokens(item)|;
      WellFormedTail(items);
      EncodeCons(items);
      assert argv[i..] == Tokens(item) + (Encode(rest) + [flag]);
      ScanItem(argv, i, acc, item, Encode(rest) + [flag]);
      ScanDangling(argv, i + n, Apply(acc, item), rest, flag);
    }
  }

  /** Parsing a well-formed vector yields its meaning: flags and their values are taken
      out, every `-cp` pair leaves one placeholder at its position, every other token
      stays in order, and the last value of each flag wins. */
  lemma ParseEncoded(program: string, items: seq<Item>)
    requires WellFormed(items) && 1 + |Encode(items)| <= MaxArgc
    ensures Parse([program] + Encode(items)) == Parsed(Interpret(items))
  {
    var argv := [program] + Encode(items);
    assert argv[1..] == Encode(items);
    ScanEncoded(argv, 1, Initial, items);
    assert [] + Passthrough(items) == Passthrough(items);
  }

  /** A recognised flag reached by the scan in the last position is `RES_ARGUMENT_BOUNDS`. */
  lemma ParseDangling(program: string, items: seq<Item>, flag: string)
    requires WellFormed(items) && IsFlag(flag) && 2 + |Encode(items)| <= MaxArgc
    ensures Parse([program] + Encode(items) + [flag]) == Rejected(ArgumentBounds)
  {
    var argv := [program] + Encode(items) + [flag];
    assert argv[1..] == Encode(items) + [flag];
    ScanDangling(argv, 1, Initial, items, flag);
  }

  /** Reads a token list as items, reporting a flag left over at the end. */
  datatype Decoded = Decoded(items: seq<Item>, dangling: seq<string>)

  /** Reads a token sequence back into items, greedily, as the scan does; a flag in the
      last position is left over as the dangling remainder. */
  function Decode(tokens: seq<string>): Decoded
    decreases |tokens|
  {
    if tokens == [] then Decoded([], [])
    else if IsFlag(tokens[0]) then
      if |tokens| == 1 then Decoded([], tokens)
      else
        var item := if tokens[0] == JavaHomeFlag then JavaHome(tokens[1]) else Classpath(tokens[1]);
        var rest := Decode(tokens[2..]);
        Decoded([item] + rest.items, rest.dangling)
    else
      var rest := Decode(tokens[1..]);
      Decoded([Plain(tokens[0])] + rest.items, rest.dangling)
  }

  lemma EncodePrepend(item: Item, items: seq<Item>)
    ensures Encode([item] + items) == Tokens(item) + Encode(items)
  {
    assert ([item] + items)[1..] == items;
  }

  lemma WellFormedPrepend(item: Item, items: seq<Item>)
    requires WellFormed(items) && (item.Plain? ==> !IsFlag(item.token))
    ensures WellFormed([item] + items)
  {
  }

  /** A decoding is a faithful split of `tokens`: the items are well formed, encoding them
      and putting the remainder back gives the tokens, and the remainder is empty or one flag. */
  predicate SplitsInto(tokens: seq<string>, d: Decoded)
  {
    && WellFormed(d.items)
    && Encode(d.items) + d.dangling == tokens
    && (d.dangling == [] || (|d.dangling| == 1 && IsFlag(d.dangling[0])))
  }

  lemma SplitsIntoPrepend(item: Item, tail: seq<string>, rest: Decoded)
    requires SplitsInto(tail, rest) && (item.Plain? ==> !IsFlag(item.token))
    ensures SplitsInto(Tokens(item) + tail, Decoded([item] + rest.items, rest.dangling))
  {
    WellFormedPrepend(item, rest.items);
    EncodePrepend(item, rest.items);
    calc {
      Encode([item] + rest.items) + rest.dangling;
      Tokens(item) + Encode(rest.items) + rest.dangling;
      Tokens(item) + (Encode(rest.items) + rest.dangling);
      Tokens(item) + tail;
    }
  }

  /** Decoding always yields a faithful split. */
  lemma {:induction false} DecodeSplits(tokens: seq<string>)
    ensures SplitsInto(tokens, Decode(tokens))
    decreases |tokens|
  {
    if tokens == [] {
      assert Encode([]) + [] == [];
    } else if IsFlag(tokens[0]) {
      if |tokens| == 1 {
        assert Encode([]) + tokens == tokens;
      } else {
        var item := if tokens[0] == JavaHomeFlag then JavaHome(tokens[1]) else Classpath(tokens[1]);
        DecodeSplits(tokens[2..]);
        SplitsIntoPrepend(item, tokens[2..], Decode(tokens[2..]));
        assert Tokens(item) + tokens[2..] == tokens;
      }
    } else {
      DecodeSplits(tokens[1..]);
      SplitsIntoPrepend(Plain(tokens[0]), tokens[1..], Decode(tokens[1..]));
      assert Tokens(Plain(tokens[0])) + tokens[1..] == tokens;
    }
  }

  /** Every argument vector within the ceiling is either a well-formed item sequence,
      parsed to its meaning, or one followed by a value-less flag, rejected. */
  lemma ParseCharacterized(argv: seq<string>)
    requires 1 <= |argv| <= MaxArgc
    ensures var d := Decode(argv[1..]);
            Parse(argv) == if d.dangling == [] then Parsed(Interpret(d.items)) else Rejected(ArgumentBounds)
  {
    var d := Decode(argv[1..]);
    DecodeSplits(argv[1..]);
    assert argv == [argv[0]] + argv[1..];
    if d.dangling == [] {
      assert Encode(d.items) + [] == Encode(d.items);
      ParseEncoded(argv[0], d.items);
    } else {
      assert d.dangling == [d.dangling[0]];
      assert argv == [argv[0]] + Encode(d.items) + [d.dangling[0]];
      ParseDangling(argv[0], d.items, d.dangling[0]);
    }
  }

  /** Without either flag, the stored arguments are `argv[1..]` unchanged and nothing else is set. */
  lemma {:induction false} ScanNoFlags(argv: seq<string>, i: nat, acc: Invocation)
    requires 1 <= i <= |argv|
    requires forall j :: i <= j < |argv| ==> !IsFlag(argv[j])
    ensures Scan(argv, i, acc) == Parsed(acc.(arguments := acc.arguments + argv[i..]))
    decreases |argv| - i
  {
    if i == |argv| {
      assert acc.arguments + argv[i..] == acc.arguments;
    } else {
      ScanNoFlags(argv, i + 1, acc.(arguments := acc.arguments + [argv[i]]));
      assert argv[i..] == [argv[i]] + argv[i + 1..];
    }
  }

  lemma ParseNoFlags(argv: seq<string>)
    requires 1 <= |argv| <= MaxArgc
    requires forall j :: 1 <= j < |argv| ==> !IsFlag(argv[j])
    ensures Parse(argv) == Parsed(Invocation("", "", argv[1..]))
  {
    ScanNoFlags(argv, 1, Initial);
  }

  /** `-cp` and its value leave the placeholder; the next argument follows it. */
  lemma ParseClasspathThenArgument(program: string, classpath: string, argument: string)
    requires !IsFlag(argument)
    ensures Parse([program, ClasspathFlag, classpath, argument])
         == Parsed(Invocation("", classpath, [Sentinel, argument]))
  {
    var argv := [program, ClasspathFlag, classpath, argument];
    var once := Invocation("", classpath, [Sentinel]);
    var done := Invocation("", classpath, [Sentinel, argument]);
    assert argv[1] == ClasspathFlag && argv[2] == classpath && argv[3] == argument;
    assert Initial.(classpath := classpath, arguments := Initial.arguments + [Sentinel]) == once;
    assert Scan(argv, 4, done) == Parsed(done);
    assert Scan(argv, 3, once) == Scan(argv, 4, done);
    assert Scan(argv, 1, Initial) == Scan(argv, 3, once);
  }

  /** `-javahome` and its value vanish from the stored arguments. */
  lemma ParseJavaHomeOnly(program: string, javaHome: string)
    ensures Parse([program, JavaHomeFlag, javaHome]) == Parsed(Invocation(javaHome, "", []))
  {
    var argv := [program, JavaHomeFlag, javaHome];
    var done := Invocation(javaHome, "", []);
    assert argv[1] == JavaHomeFlag && argv[2] == javaHome;
    assert Initial.(javaHome := javaHome) == done;
    assert Scan(argv, 3, done) == Parsed(done);
  }

  /** A repeated `-cp` keeps the last value and leaves one placeholder per occurrence. */
  lemma ParseRepeatedClasspath(program: string, first: string, second: string)
    ensures Parse([program, ClasspathFlag, first, ClasspathFlag, second])
         == Parsed(Invocation("", second, [Sentinel, Sentinel]))
  {
    var argv := [program, ClasspathFlag, first, ClasspathFlag, second];
    var once := Invocation("", first, [Sentinel]);
    var twice := Invocation("", second, [Sentinel, Sentinel]);
    assert argv[1] == ClasspathFlag && argv[2] == first;
    assert Initial.(classpath := first, arguments := Initial.arguments + [Sentinel]) == once;
    assert Scan(argv, 5, twice) == Parsed(twice);
    assert Scan(argv, 3, once) == Scan(argv, 5, twice);
    assert Scan(argv, 1, Initial) == Scan(argv, 3, once);
  }

  /** A repeated `-javahome` keeps the last value. */
  lemma ParseRepeatedJavaHome(program: string, first: string, second: string)
    ensures Parse([program, JavaHomeFlag, first, JavaHomeFlag, second])
         == Parsed(Invocation(second, "", []))
  {
    var argv := [program, JavaHomeFlag, first, JavaHomeFlag, second];
    var once := Invocation(first, "", []);
    var twice := Invocation(second, "", []);
    assert argv[1] == JavaHomeFlag && argv[2] == first;
    assert Initial.(javaHome := first) == once;
    assert Scan(argv, 5, twice) == Parsed(twice);
    assert Scan(argv, 3, once) == Scan(argv, 5, twice);
    assert Scan(argv, 1, Initial) == Scan(argv, 3, once);
  }

  /** A flag's value is taken verbatim even when it is itself a flag. */
  lemma ParseFlagAsValue(program: string)
    ensures Parse([program, JavaHomeFlag, ClasspathFlag, ClasspathFlag, JavaHomeFlag])
         == Parsed(Invocation(ClasspathFlag, JavaHomeFlag, [Sentinel]))
  {
    var argv := [program, JavaHomeFlag, ClasspathFlag, ClasspathFlag, JavaHomeFlag];
    var once := Invocation(ClasspathFlag, "", []);
    var twice := Invocation(ClasspathFlag, JavaHomeFlag, [Sentinel]);
    assert Scan(argv, 5, twice) == Parsed(twice);
    assert Scan(argv, 3, once) == Scan(argv, 5, twice);
    assert Scan(argv, 1, Initial) == Scan(argv, 3, once);
  }

  // ---------------------------------------------------------------------------
  // The scan as written, with the `uint8_t` cursor.

  newtype uint8 = x: int | 0 <= x < 256

  /** The loop of `main` with its 8-bit cursor and its `i == 0xff` guard. The cursor never
      wraps and the guard never fires once `argc <= 255` is checked: the result is `Parse`. */
  method ScanWithByteCursor(argv: seq<string>) returns (r: ParseResult)
    ensures r == Parse(argv)
  {
    if |argv| > MaxArgc {
      return Rejected(TooManyArguments);
    }
    var javaHome, classpath, arguments := "", "", [];
    var i: uint8 := 1;
    while (i as int) < |argv|
      invariant 1 <= i as int && (i as int <= |argv| || i == 1)
      invariant Scan(argv, i as int, Invocation(javaHome, classpath, arguments)) == Parse(argv)
      decreases |argv| - i as int
    {
      if argv[i] == JavaHomeFlag {
        if i == 0xFF || (i as int) + 1 >= |argv| {
          return Rejected(ArgumentBounds);
        }
        i := i + 1;
        javaHome := argv[i];
      } else if argv[i] == ClasspathFlag {
        if i == 0xFF || (i as int) + 1 >= |argv| {
          return Rejected(ArgumentBounds);
        }
        i := i + 1;
        classpath := argv[i];
        arguments := arguments + [Sentinel];
      } else {
        arguments := arguments + [argv[i]];
      }
      i := i + 1;
    }
    r := Parsed(Invocation(javaHome, classpath, arguments));
  }
}
