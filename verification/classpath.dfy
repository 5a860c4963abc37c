/** Classpath rewriting (`create_classpath`): the old classpath is read with
    `std::getline(iss, token, ':')`, every entry naming the LWJGL library family is
    dropped, each survivor is re-emitted followed by ':', and the replacement archive
    is appended last. */
module Classpath {
  import Text

  const Delimiter: char := ':'

  /** Entries containing this (case-sensitive) text are dropped. */
  const Excluded: string := "lwjgl"

  predicate NoDelimiter(s: string)
  {
    Delimiter !in s
  }

  /** The tokens `std::getline` with delimiter ':' yields from `s`: the empty input yields
      none, a final ':' does not start an empty last token, and every other segment,
      empty or not, is a token. */
  function Split(s: string): (r: seq<string>)
    ensures forall e :: e in r ==> NoDelimiter(e)
    ensures r == [] <==> s == ""
    decreases |s|
  {
    if s == "" then []
    else
      var k := Text.IndexOf(s, Delimiter);
      if k == |s| then [s] else [s[..k]] + Split(s[k + 1..])
  }

  /** Each entry followed by a delimiter, as `new_classpath.append(token + ":")` builds it. */
  function Terminate(entries: seq<string>): string
  {
    if entries == [] then "" else entries[0] + [Delimiter] + Terminate(entries[1..])
  }

  lemma TerminateCons(head: string, rest: seq<string>)
    ensures Terminate([head] + rest) == head + [Delimiter] + Terminate(rest)
  {
    assert ([head] + rest)[1..] == rest;
  }

  /** Terminating a concatenation is concatenating the terminated parts. */
  lemma {:induction false} TerminateAppend(a: seq<string>, b: seq<string>)
    ensures Terminate(a + b) == Terminate(a) + Terminate(b)
  {
    if a != [] {
      assert (a + b)[0] == a[0];
      assert (a + b)[1..] == a[1..] + b;
      TerminateAppend(a[1..], b);
      calc {
        Terminate(a + b);
        a[0] + [Delimiter] + Terminate(a[1..] + b);
        a[0] + [Delimiter] + (Terminate(a[1..]) + Terminate(b));
        Terminate(a) + Terminate(b);
      }
    } else {
      assert a + b == b;
    }
  }

  /** Leading and interior segments are tokens even when empty. */
  lemma SplitSegment(a: string, rest: string)
    requires NoDelimiter(a)
    ensures Split(a + [Delimiter] + rest) == [a] + Split(rest)
  {
    var s := a + [Delimiter] + rest;
    Text.IndexOfAfter(a, Delimiter, rest);
    assert s[..|a|] == a;
    assert s[|a| + 1..] == rest;
  }

  /** Re-splitting delimiter-terminated entries gives the entries back, whatever follows. */
  lemma {:induction false} SplitTerminated(entries: seq<string>, rest: string)
    requires forall e :: e in entries ==> NoDelimiter(e)
    ensures Split(Terminate(entries) + rest) == entries + Split(rest)
  {
    if entries != [] {
      var head, tail := entries[0], Terminate(entries[1..]) + rest;
      assert head in entries;
      calc {
        Split(Terminate(entries) + rest);
        { assert Terminate(entries) + rest == head + [Delimiter] + tail; }
        Split(head + [Delimiter] + tail);
        { SplitSegment(head, tail); }
        [head] + Split(tail);
        { SplitTerminated(entries[1..], rest); }
        [head] + (entries[1..] + Split(rest));
        { assert entries == [head] + entries[1..]; }
        entries + Split(rest);
      }
    } else {
      assert Terminate(entries) + rest == rest;
      assert entries + Split(rest) == Split(rest);
    }
  }

  /** Splitting is undone by re-terminating, except that a final segment the input did not
      terminate gets a delimiter. Together with `SplitTerminated` this pins `Split` down. */
  lemma {:induction false} TerminateSplit(s: string)
    ensures Terminate(Split(s)) == if s == "" || s[|s| - 1] == Delimiter then s else s + [Delimiter]
    decreases |s|
  {
    if s != "" {
      var k := Text.IndexOf(s, Delimiter);
      if k < |s| {
        var head, rest := s[..k], s[k + 1..];
        assert s == head + [Delimiter] + rest;
        calc {
          Terminate(Split(s));
          { SplitSegment(head, rest); }
          Terminate([head] + Split(rest));
          { TerminateCons(head, Split(rest)); }
          head + [Delimiter] + Terminate(Split(rest));
        }
        TerminateSplit(rest);
        if rest == "" {
          assert s[|s| - 1] == Delimiter;
        } else {
          assert s[|s| - 1] == rest[|rest| - 1];
          if rest[|rest| - 1] != Delimiter {
            assert head + [Delimiter] + (rest + [Delimiter]) == s + [Delimiter];
          }
        }
      } else {
        assert s[..k] == s;
        SplitSingle(s);
        TerminateCons(s, []);
        assert s[|s| - 1] in s;
      }
    }
  }

  /** A trailing delimiter does not produce an empty last token. */
  lemma SplitTrailingDelimiter(a: string)
    requires NoDelimiter(a)
    ensures Split(a + [Delimiter]) == [a]
  {
    SplitSegment(a, "");
  }

  /** The entries kept by the rewrite: those not containing the excluded text. */
  function Survivors(entries: seq<string>): (r: seq<string>)
    ensures forall e :: e in r ==> e in entries && !Text.Contains(e, Excluded)
    ensures |r| <= |entries|
  {
    if entries == [] then []
    else if Text.Contains(entries[0], Excluded) then Survivors(entries[1..])
    else [entries[0]] + Survivors(entries[1..])
  }

  /** Filtering distributes over concatenation, so survivors keep their relative order. */
  lemma {:induction false} SurvivorsAppend(a: seq<string>, b: seq<string>)
    ensures Survivors(a + b) == Survivors(a) + Survivors(b)
  {
    if a != [] {
      assert (a + b)[0] == a[0];
      assert (a + b)[1..] == a[1..] + b;
      SurvivorsAppend(a[1..], b);
    } else {
      assert a + b == b;
    }
  }

  /** An entry without the excluded text survives as often as it occurs; every other entry is gone. */
  lemma {:induction false} SurvivorsCount(entries: seq<string>, x: string)
    ensures multiset(Survivors(entries))[x] == if Text.Contains(x, Excluded) then 0 else multiset(entries)[x]
  {
    if entries != [] {
      SurvivorsCount(entries[1..], x);
      assert entries == [entries[0]] + entries[1..];
    }
  }

  /** Entries that all survive are kept unchanged. */
  lemma {:induction false} SurvivorsOfClean(entries: seq<string>)
    requires forall e :: e in entries ==> !Text.Contains(e, Excluded)
    ensures Survivors(entries) == entries
  {
    if entries != [] {
      SurvivorsOfClean(entries[1..]);
    }
  }

  /** `create_classpath(old_classpath, new_lwjgl_jar)`. */
  function CreateClasspath(oldClasspath: string, jar: string): (r: string)
    ensures |r| >= |jar| && r[|r| - |jar|..] == jar
    ensures oldClasspath == "" ==> r == jar
  {
    Terminate(Survivors(Split(oldClasspath))) + jar
  }

  /** Reading the rewritten classpath back gives the surviving old entries, in their old
      order, followed by the entries of the replacement path. */
  lemma RewriteReparse(oldClasspath: string, jar: string)
    ensures Split(CreateClasspath(oldClasspath, jar)) == Survivors(Split(oldClasspath)) + Split(jar)
  {
    SplitTerminated(Survivors(Split(oldClasspath)), jar);
  }

  /** A non-empty entry without delimiters reads back as itself. */
  lemma SplitSingle(a: string)
    requires NoDelimiter(a) && a != ""
    ensures Split(a) == [a]
  {
    Text.IndexOfAbsent(a, Delimiter);
  }

  /** A replacement that names the excluded family and holds no delimiter (such as
      `<minecraft>/shim/lwjglfat.jar`) is dropped on a second pass, so rewriting twice
      equals rewriting once. */
  lemma RewriteIdempotent(oldClasspath: string, jar: string)
    requires Text.Contains(jar, Excluded) && NoDelimiter(jar)
    ensures CreateClasspath(CreateClasspath(oldClasspath, jar), jar) == CreateClasspath(oldClasspath, jar)
  {
    var kept := Survivors(Split(oldClasspath));
    var once := CreateClasspath(oldClasspath, jar);
    assert jar != "" by {
      Text.ContainsOccurs(jar, Excluded);
      var i: nat :| Text.OccursAt(jar, Excluded, i);
    }
    calc {
      Split(once);
      { RewriteReparse(oldClasspath, jar); }
      kept + Split(jar);
      { SplitSingle(jar); }
      kept + [jar];
    }
    calc {
      Survivors(kept + [jar]);
      { SurvivorsAppend(kept, [jar]); }
      Survivors(kept) + Survivors([jar]);
      { SurvivorsOfClean(kept); assert Survivors([jar]) == []; }
      kept;
    }
  }

  /** A replacement outside the excluded family survives a second pass, so rewriting twice
      appends a second copy of it. */
  lemma RewriteTwiceDuplicates(oldClasspath: string, jar: string)
    requires !Text.Contains(jar, Excluded) && NoDelimiter(jar) && jar != ""
    ensures CreateClasspath(CreateClasspath(oldClasspath, jar), jar)
         == CreateClasspath(oldClasspath, jar) + [Delimiter] + jar
  {
    var kept := Survivors(Split(oldClasspath));
    var once := CreateClasspath(oldClasspath, jar);
    assert once == Terminate(kept) + jar;
    calc {
      CreateClasspath(once, jar);
      Terminate(Survivors(Split(once))) + jar;
      { RewriteReparse(oldClasspath, jar); }
      Terminate(Survivors(kept + Split(jar))) + jar;
      { SplitSingle(jar); }
      Terminate(Survivors(kept + [jar])) + jar;
      { SurvivorsAppend(kept, [jar]); }
      Terminate(Survivors(kept) + Survivors([jar])) + jar;
      { SurvivorsOfClean(kept); assert Survivors([jar]) == [jar]; }
      Terminate(kept + [jar]) + jar;
      { TerminateAppend(kept, [jar]); }
      Terminate(kept) + Terminate([jar]) + jar;
      { assert Terminate([jar]) == jar + [Delimiter]; }
      Terminate(kept) + (jar + [Delimiter]) + jar;
      once + [Delimiter] + jar;
    }
  }

  /** Three delimiter-separated entries read back as those three entries. */
  lemma SplitThree(a: string, b: string, c: string)
    requires NoDelimiter(a) && NoDelimiter(b) && NoDelimiter(c) && c != ""
    ensures Split(a + [Delimiter] + b + [Delimiter] + c) == [a, b, c]
  {
    calc {
      Split(a + [Delimiter] + b + [Delimiter] + c);
      { assert a + [Delimiter] + b + [Delimiter] + c == a + [Delimiter] + (b + [Delimiter] + c); }
      Split(a + [Delimiter] + (b + [Delimiter] + c));
      { SplitSegment(a, b + [Delimiter] + c); }
      [a] + Split(b + [Delimiter] + c);
      { SplitSegment(b, c); }
      [a] + ([b] + Split(c));
      { SplitSingle(c); }
      [a, b, c];
    }
  }

  /** Filtering three entries, the middle one excluded. */
  lemma SurvivorsThree(a: string, b: string, c: string)
    requires !Text.Contains(a, Excluded) && Text.Contains(b, Excluded) && !Text.Contains(c, Excluded)
    ensures Survivors([a, b, c]) == [a, c]
  {
    assert [c][1..] == [];
    assert Survivors([c]) == [c];
    assert [b, c][1..] == [c];
    assert Survivors([b, c]) == [c];
    assert [a, b, c][1..] == [b, c];
  }

  /** Two entries, each followed by the delimiter. */
  lemma TerminateTwo(a: string, c: string)
    ensures Terminate([a, c]) == a + [Delimiter] + c + [Delimiter]
  {
    assert [a, c][1..] == [c];
    assert [c][1..] == [];
    assert Terminate([c]) == c + [Delimiter] + Terminate([]);
  }

  /** An excluded entry between two kept ones disappears; the kept ones stay in order. */
  lemma RewriteDropsExcludedEntry(a: string, b: string, c: string, jar: string)
    requires NoDelimiter(a) && NoDelimiter(b) && NoDelimiter(c) && c != ""
    requires !Text.Contains(a, Excluded) && Text.Contains(b, Excluded) && !Text.Contains(c, Excluded)
    ensures CreateClasspath(a + [Delimiter] + b + [Delimiter] + c, jar) == a + [Delimiter] + c + [Delimiter] + jar
  {
    var entries := [a, b, c];
    calc {
      CreateClasspath(a + [Delimiter] + b + [Delimiter] + c, jar);
      { SplitThree(a, b, c); }
      Terminate(Survivors(entries)) + jar;
      { SurvivorsThree(a, b, c); }
      Terminate([a, c]) + jar;
      { TerminateTwo(a, c); }
      a + [Delimiter] + c + [Delimiter] + jar;
    }
  }

  /** When no entry is excluded the classpath comes back as it was, empty leading and
      interior segments included, with the replacement after one delimiter; an input
      already ending in ':' gets no second one. */
  lemma RewriteCleanClasspath(oldClasspath: string, jar: string)
    requires forall e :: e in Split(oldClasspath) ==> !Text.Contains(e, Excluded)
    ensures CreateClasspath(oldClasspath, jar)
         == (if oldClasspath == "" || oldClasspath[|oldClasspath| - 1] == Delimiter
             then oldClasspath else oldClasspath + [Delimiter]) + jar
  {
    SurvivorsOfClean(Split(oldClasspath));
    TerminateSplit(oldClasspath);
  }
}
