/**
 * Command lines from the repository's own tests, traced through `parse` pass by pass.
 * Where a test uses one particular value, the lemma here covers every value of that
 * shape (a non-empty token without whitespace).
 */
module Scenarios {
  import opened Wrappers
  import opened Cursor
  import opened Schema
  import opened Conversion
  import opened ValueStore
  import opened Machine
  import opened Properties

  /** A token the string conversion reads back whole. */
  predicate IsWord(s: string)
  {
    |s| > 0 && forall j :: 0 <= j < |s| ==> !IsSpace(s[j])
  }

  /** Spec `k` found with the string `word`. */
  function Bind(store: Store, k: nat, word: string): Store
    requires k < |store.values| && k < |store.found|
  {
    Store(store.values[k := StringValue(word)], store.found[k := true])
  }

  /** Storing a word in a string parameter stores that word. */
  lemma StoreWord(schema: seq<Spec>, store: Store, index: nat, word: string)
    requires WellTyped(schema, store) && index < |schema| && !schema[index].kind.Flag?
    requires schema[index].kind.valueType == Text && IsWord(word)
    ensures TryStoreAt(schema, store, index, word) ==
            (true, Store(store.values[index := StringValue(word)], store.found[index := true]))
  {
    ExtractWordOfWord("", word, "");
    assert "" + word + "" == word;
  }

  /** `-t`/`--test` a flag, `-o`/`--output` a named string parameter defaulting to `"-"`. */
  function OutputSchema(): seq<Spec>
  {
    [Spec('t', "test", "", Flag), Spec('o', "output", "", Named(Text))]
  }

  function OutputDefaults(): seq<Value>
  {
    [BoolValue(false), StringValue("-")]
  }

  lemma OutputSchemaFits()
    ensures WellFormed(OutputSchema()) && DefaultsFit(OutputSchema(), OutputDefaults())
    ensures InitialStore(OutputSchema(), OutputDefaults()) == Store([BoolValue(false), StringValue("-")], [false, false])
  {
  }

  /** `a.out -to <value>`: the cluster sets `t`, then `o` takes the whole next token. */
  lemma NamedWithSpace(value: CString)
    requires IsWord(value)
    ensures WellFormed(OutputSchema()) && DefaultsFit(OutputSchema(), OutputDefaults())
    ensures Parse(OutputSchema(), ["a.out", "-to", value], NothingParsedYet,
                  InitialStore(OutputSchema(), OutputDefaults())) ==
            Finished(Okay, Store([BoolValue(true), StringValue(value)], [true, true]))
  {
    OutputSchemaFits();
    var schema, argv := OutputSchema(), ["a.out", "-to", value];
    var store0 := Store([BoolValue(false), StringValue("-")], [false, false]);
    var store1 := Store([BoolValue(true), StringValue("-")], [true, false]);
    var store2 := Store([BoolValue(true), StringValue(value)], [true, true]);
    var c0 := Start(store0);
    var c1 := Config(SingleDashArguments, Position(1, 1), store0);
    var c2 := Config(SingleDashArguments, Position(1, 2), store1);
    var c3 := Config(ParserState.None, Position(3, 0), store2);
    assert Run(schema, argv, c0) == Run(schema, argv, c1) by {
      RunUnfolds(schema, argv, c0);
      assert LoopBody(schema, argv, c0) == Continue(c1);
    }
    assert Run(schema, argv, c1) == Run(schema, argv, c2) by {
      ClusterFlag(schema, argv, c1.pos, store0, 0);
      assert SetFlag(schema, store0, 0) == store1;
      assert LoopBody(schema, argv, c1) == Continue(c2);
      RunUnfolds(schema, argv, c1);
    }
    assert Run(schema, argv, c2) == Run(schema, argv, c3) by {
      ClusterParameter(schema, argv, c2.pos, store1, 1);
      StoreWord(schema, store1, 1, value);
      assert store1.values[1 := StringValue(value)] == store2.values;
      assert store1.found[1 := true] == store2.found;
      assert LoopBody(schema, argv, c2) == Continue(c3);
      RunUnfolds(schema, argv, c2);
    }
  }

  /** `a.out -to<value>`: `o` takes the rest of its own token. */
  lemma NamedWithoutSpace(value: CString)
    requires IsWord(value)
    ensures WellFormed(OutputSchema()) && DefaultsFit(OutputSchema(), OutputDefaults())
    ensures Parse(OutputSchema(), ["a.out", "-to" + value], NothingParsedYet,
                  InitialStore(OutputSchema(), OutputDefaults())) ==
            Finished(Okay, Store([BoolValue(true), StringValue(value)], [true, true]))
  {
    OutputSchemaFits();
    var schema, argv := OutputSchema(), ["a.out", "-to" + value];
    var store0 := Store([BoolValue(false), StringValue("-")], [false, false]);
    var store1 := Store([BoolValue(true), StringValue("-")], [true, false]);
    var store2 := Store([BoolValue(true), StringValue(value)], [true, true]);
    var c0 := Start(store0);
    var c1 := Config(SingleDashArguments, Position(1, 1), store0);
    var c2 := Config(SingleDashArguments, Position(1, 2), store1);
    var c3 := Config(ParserState.None, Position(2, 0), store2);
    assert Run(schema, argv, c0) == Run(schema, argv, c1) by {
      RunUnfolds(schema, argv, c0);
      assert LoopBody(schema, argv, c0) == Continue(c1);
    }
    assert Run(schema, argv, c1) == Run(schema, argv, c2) by {
      ClusterFlag(schema, argv, c1.pos, store0, 0);
      assert SetFlag(schema, store0, 0) == store1;
      assert LoopBody(schema, argv, c1) == Continue(c2);
      RunUnfolds(schema, argv, c1);
    }
    assert Run(schema, argv, c2) == Run(schema, argv, c3) by {
      ClusterParameter(schema, argv, c2.pos, store1, 1);
      assert argv[1][3..] == value;
      StoreWord(schema, store1, 1, value);
      assert store1.values[1 := StringValue(value)] == store2.values;
      assert store1.found[1 := true] == store2.found;
      assert LoopBody(schema, argv, c2) == Continue(c3);
      RunUnfolds(schema, argv, c2);
    }
  }

  /** `a.out -o ""`: an empty last token already counts as the end of input, so the
      parameter misses its value. */
  lemma NamedBeforeEmptyLastToken()
    ensures WellFormed(OutputSchema()) && DefaultsFit(OutputSchema(), OutputDefaults())
    ensures Parse(OutputSchema(), ["a.out", "-o", ""], NothingParsedYet,
                  InitialStore(OutputSchema(), OutputDefaults())) ==
            Finished(MissingArgument('o'), InitialStore(OutputSchema(), OutputDefaults()))
  {
    OutputSchemaFits();
    var schema, argv := OutputSchema(), ["a.out", "-o", ""];
    var store0 := Store([BoolValue(false), StringValue("-")], [false, false]);
    var c0 := Start(store0);
    var c1 := Config(SingleDashArguments, Position(1, 1), store0);
    assert Run(schema, argv, c0) == Run(schema, argv, c1) by {
      RunUnfolds(schema, argv, c0);
      assert LoopBody(schema, argv, c0) == Continue(c1);
    }
    assert Run(schema, argv, c1) == Finished(MissingArgument('o'), store0) by {
      RunUnfolds(schema, argv, c1);
      ClusterParameter(schema, argv, c1.pos, store0, 1);
      assert Eof(argv, Position(2, 0));
    }
  }

  /** `-i`/`--input` a named integer parameter defaulting to 42. */
  function NumberSchema(): seq<Spec>
  {
    [Spec('i', "input", "", Named(Integer))]
  }

  function NumberDefaults(): seq<Value>
  {
    [IntValue(42)]
  }

  lemma NumberSchemaFits()
    ensures WellFormed(NumberSchema()) && DefaultsFit(NumberSchema(), NumberDefaults())
    ensures InitialStore(NumberSchema(), NumberDefaults()) == Store([IntValue(42)], [false])
  {
  }

  /** `a.out -i<text>`: whatever `-i` reads from the rest of its token is stored. */
  lemma NumberInToken(token: CString, n: int)
    requires |token| > 2 && token[0] == '-' && token[1] == 'i'
    requires ExtractInt(token[2..]) == Some(n)
    ensures WellFormed(NumberSchema()) && DefaultsFit(NumberSchema(), NumberDefaults())
    ensures Parse(NumberSchema(), ["a.out", token], NothingParsedYet,
                  InitialStore(NumberSchema(), NumberDefaults())) ==
            Finished(Okay, Store([IntValue(n)], [true]))
  {
    NumberSchemaFits();
    var schema, argv := NumberSchema(), ["a.out", token];
    var store0 := Store([IntValue(42)], [false]);
    var store1 := Store([IntValue(n)], [true]);
    var c0 := Start(store0);
    var c1 := Config(SingleDashArguments, Position(1, 1), store0);
    var c2 := Config(ParserState.None, Position(2, 0), store1);
    assert Run(schema, argv, c0) == Run(schema, argv, c1) by {
      RunUnfolds(schema, argv, c0);
      assert LoopBody(schema, argv, c0) == Continue(c1);
    }
    assert Run(schema, argv, c1) == Run(schema, argv, c2) by {
      ClusterParameter(schema, argv, c1.pos, store0, 0);
      assert store0.values[0 := IntValue(n)] == store1.values;
      assert LoopBody(schema, argv, c1) == Continue(c2);
      RunUnfolds(schema, argv, c1);
    }
  }

  /** `a.out -i<digits>` (such as `-i43`): the rest of the token is read as the number
      it spells, when that fits in 32 bits. */
  lemma NumberWithoutSpace(digits: CString)
    requires |digits| > 0 && forall j :: 0 <= j < |digits| ==> IsDigit(digits[j])
    requires DecimalValue(digits) <= MaxInt32
    ensures WellFormed(NumberSchema()) && DefaultsFit(NumberSchema(), NumberDefaults())
    ensures Parse(NumberSchema(), ["a.out", "-i" + digits], NothingParsedYet,
                  InitialStore(NumberSchema(), NumberDefaults())) ==
            Finished(Okay, Store([IntValue(DecimalValue(digits))], [true]))
  {
    var token: CString := "-i" + digits;
    ExtractIntOfDigits(digits, "");
    assert token[2..] == digits + "";
    NumberInToken(token, DecimalValue(digits));
  }

  /** `a.out -i<word>` with a word that starts with neither a digit, a sign nor
      whitespace (such as `-iabc`): the parameter counts as found but keeps its default,
      and the parse fails with `ArgumentTypeMismatch`. */
  lemma NumberMismatch(word: CString)
    requires word != [] && !IsDigit(word[0]) && !IsSpace(word[0]) && word[0] != '+' && word[0] != '-'
    ensures WellFormed(NumberSchema()) && DefaultsFit(NumberSchema(), NumberDefaults())
    ensures Parse(NumberSchema(), ["a.out", "-i" + word], NothingParsedYet,
                  InitialStore(NumberSchema(), NumberDefaults())) ==
            Finished(ArgumentTypeMismatch, Store([IntValue(42)], [true]))
  {
    NumberSchemaFits();
    var schema, argv := NumberSchema(), ["a.out", "-i" + word];
    var store0 := Store([IntValue(42)], [false]);
    var c0 := Start(store0);
    var c1 := Config(SingleDashArguments, Position(1, 1), store0);
    assert Run(schema, argv, c0) == Run(schema, argv, c1) by {
      RunUnfolds(schema, argv, c0);
      assert LoopBody(schema, argv, c0) == Continue(c1);
    }
    assert Run(schema, argv, c1) == Finished(ArgumentTypeMismatch, Store([IntValue(42)], [true])) by {
      ClusterParameter(schema, argv, c1.pos, store0, 0);
      assert argv[1][2..] == word;
      ExtractIntNeedsLeadingDigit("", "", word);
      assert "" + ("" + word) == word;
      assert store0.found[0 := true] == [true];
      assert LoopBody(schema, argv, c1) == Return(ArgumentTypeMismatch, Store([IntValue(42)], [true]));
      RunUnfolds(schema, argv, c1);
    }
  }

  /** Seven flags, each named by its own letter. */
  function LetterFlags(): seq<Spec>
  {
    [Spec('t', "t", "", Flag), Spec('a', "a", "", Flag), Spec('x', "x", "", Flag), Spec('z', "z", "", Flag),
     Spec('d', "d", "", Flag), Spec('b', "b", "", Flag), Spec('c', "c", "", Flag)]
  }

  /** That schema has flags `t` and `a` and no spec `y`. */
  lemma LetterFlagsFit()
    ensures WellFormed(LetterFlags()) && !HasAbbreviation(LetterFlags(), 'y')
    ensures LetterFlags()[0] == Spec('t', "t", "", Flag) && LetterFlags()[1] == Spec('a', "a", "", Flag)
  {
  }

  /** A token `-c...`, with `c` neither `-` nor whitespace, opens a cluster. */
  lemma ClusterOpens(schema: seq<Spec>, argv: seq<CString>, store: Store, i: nat)
    requires WellFormed(schema) && WellTyped(schema, store) && 1 <= i < |argv|
    requires |argv[i]| >= 2 && argv[i][0] == '-' && argv[i][1] != '-' && !IsSpace(argv[i][1])
    ensures Run(schema, argv, Config(ParserState.None, Position(i, 0), store)) ==
            Run(schema, argv, Config(SingleDashArguments, Position(i, 1), store))
  {
    var c0 := Config(ParserState.None, Position(i, 0), store);
    NotSpaceIsInside(argv, c0.pos);
    NotSpaceIsInside(argv, Position(i, 1));
    assert LoopBody(schema, argv, c0) == Continue(Config(SingleDashArguments, Position(i, 1), store));
    RunUnfolds(schema, argv, c0);
  }

  /** The end of a cluster that is not the last token closes it. */
  lemma ClusterCloses(schema: seq<Spec>, argv: seq<CString>, store: Store, i: nat)
    requires WellFormed(schema) && WellTyped(schema, store) && 1 <= i < |argv| - 1
    ensures Run(schema, argv, Config(SingleDashArguments, Position(i, |argv[i]|), store)) ==
            Run(schema, argv, Config(ParserState.None, Position(i + 1, 0), store))
  {
    var c := Config(SingleDashArguments, Position(i, |argv[i]|), store);
    assert !Eof(argv, c.pos) && Current(argv, c.pos) == ' ';
    assert Advanced(argv, c.pos) == Position(i + 1, 0);
    assert LoopBody(schema, argv, c) == Continue(Config(ParserState.None, Position(i + 1, 0), store));
    RunUnfolds(schema, argv, c);
  }

  /** A token `-c` naming flag `k`, not the last token: the flag is set and the loop
      goes on at the next token. */
  lemma SingleFlagTokenPass(schema: seq<Spec>, argv: seq<CString>, store: Store, i: nat, k: nat)
    requires WellFormed(schema) && WellTyped(schema, store) && 1 <= i < |argv| - 1
    requires k < |schema| && schema[k].kind.Flag? && !IsSpace(schema[k].abbreviation)
    requires schema[k].abbreviation != '-' && argv[i] == ['-', schema[k].abbreviation]
    ensures Run(schema, argv, Config(ParserState.None, Position(i, 0), store)) ==
            Run(schema, argv, Config(ParserState.None, Position(i + 1, 0), SetFlag(schema, store, k)))
  {
    ClusterOpens(schema, argv, store, i);
    ClusterFlagPass(schema, argv, Position(i, 1), store, k);
    ClusterCloses(schema, argv, SetFlag(schema, store, k), i);
  }

  /** A bare word goes to spec `k`, the first optionally-named string spec not found yet. */
  lemma BareWordPass(schema: seq<Spec>, argv: seq<CString>, store: Store, i: nat, k: nat)
    requires WellFormed(schema) && WellTyped(schema, store) && 1 <= i < |argv|
    requires IsWord(argv[i]) && argv[i][0] != '-'
    requires k < |schema| && schema[k].kind == OptionallyNamed(Text) && !store.found[k]
    requires forall j :: 0 <= j < k && schema[j].kind.OptionallyNamed? ==> store.found[j]
    ensures Run(schema, argv, Config(ParserState.None, Position(i, 0), store)) ==
            Run(schema, argv, Config(ParserState.None, Position(i + 1, 0),
                                     Bind(store, k, argv[i])))
  {
    var c := Config(ParserState.None, Position(i, 0), store);
    var next := Config(ParserState.None, Position(i + 1, 0), Bind(store, k, argv[i]));
    NotSpaceIsInside(argv, c.pos);
    BareTokenInStateNone(schema, argv, c);
    assert ArgTail(argv, c.pos) == argv[i];
    UnnamedArgumentBindsFirstUnseen(schema, argv, ParserState.None, c.pos, store, k);
    StoreWord(schema, store, k, argv[i]);
    assert UnnamedArgumentStep(schema, argv, ParserState.None, c.pos, store) == Continue(next);
    assert LoopBody(schema, argv, c) == Continue(next);
    RunUnfolds(schema, argv, c);
  }

  /** A flag in a cluster, as a whole pass of the loop. */
  lemma ClusterFlagPass(schema: seq<Spec>, argv: seq<CString>, pos: Position, store: Store, i: nat)
    requires WellFormed(schema) && ValidPosition(argv, pos) && !Eof(argv, pos) && WellTyped(schema, store)
    requires i < |schema| && schema[i].kind.Flag?
    requires schema[i].abbreviation == Current(argv, pos) && !IsSpace(Current(argv, pos))
    ensures ValidPosition(argv, Position(pos.argumentIndex, pos.charOffset + 1))
    ensures Run(schema, argv, Config(SingleDashArguments, pos, store)) ==
            Run(schema, argv, Config(SingleDashArguments, Position(pos.argumentIndex, pos.charOffset + 1),
                                     SetFlag(schema, store, i)))
  {
    var c := Config(SingleDashArguments, pos, store);
    ClusterFlag(schema, argv, pos, store, i);
    assert LoopBody(schema, argv, c) ==
           Continue(Config(SingleDashArguments, Position(pos.argumentIndex, pos.charOffset + 1), SetFlag(schema, store, i)));
    RunUnfolds(schema, argv, c);
  }

  /** `a.out -atyb -z -x` under any schema where `a` and `t` are flags and no spec is `y`,
      such as `LetterFlags()`: `a` and `t` are set, then `y` ends the parse with
      `UnknownOption` naming it; nothing after it is read. */
  lemma UnknownFlagInCluster(schema: seq<Spec>, store: Store, ia: nat, it: nat)
    requires WellFormed(schema) && WellTyped(schema, store)
    requires ia < |schema| && schema[ia].abbreviation == 'a' && schema[ia].kind.Flag?
    requires it < |schema| && schema[it].abbreviation == 't' && schema[it].kind.Flag?
    requires !HasAbbreviation(schema, 'y')
    ensures Parse(schema, ["a.out", "-atyb", "-z", "-x"], NothingParsedYet, store) ==
            Finished(UnknownOption(ShortOption('y')), SetFlag(schema, SetFlag(schema, store, ia), it))
  {
    var argv: seq<CString> := ["a.out", "-atyb", "-z", "-x"];
    var store2 := SetFlag(schema, SetFlag(schema, store, ia), it);
    FlagsAThenT(schema, argv, store, ia, it);
    assert !Eof(argv, Position(1, 3)) && Current(argv, Position(1, 3)) == 'y';
    UnknownInClusterPass(schema, argv, Position(1, 3), store2);
  }

  /** A first token opening with `-at`, where `a` and `t` are flags: both are set and the
      cluster goes on at its fourth character. */
  lemma FlagsAThenT(schema: seq<Spec>, argv: seq<CString>, store: Store, ia: nat, it: nat)
    requires WellFormed(schema) && WellTyped(schema, store)
    requires ia < |schema| && schema[ia].abbreviation == 'a' && schema[ia].kind.Flag?
    requires it < |schema| && schema[it].abbreviation == 't' && schema[it].kind.Flag?
    requires |argv| > 1 && |argv[1]| > 3 && argv[1][0] == '-' && argv[1][1] == 'a' && argv[1][2] == 't'
    ensures ValidPosition(argv, Position(1, 3))
    ensures Run(schema, argv, Start(store)) ==
            Run(schema, argv, Config(SingleDashArguments, Position(1, 3), SetFlag(schema, SetFlag(schema, store, ia), it)))
  {
    var store1 := SetFlag(schema, store, ia);
    ClusterOpens(schema, argv, store, 1);
    assert !Eof(argv, Position(1, 1)) && Current(argv, Position(1, 1)) == 'a';
    ClusterFlagPass(schema, argv, Position(1, 1), store, ia);
    assert !Eof(argv, Position(1, 2)) && Current(argv, Position(1, 2)) == 't';
    ClusterFlagPass(schema, argv, Position(1, 2), store1, it);
  }

  /** A character of a cluster that names no spec ends the run with `UnknownOption`. */
  lemma UnknownInClusterPass(schema: seq<Spec>, argv: seq<CString>, pos: Position, store: Store)
    requires WellFormed(schema) && ValidPosition(argv, pos) && !Eof(argv, pos) && WellTyped(schema, store)
    requires !IsSpace(Current(argv, pos)) && !HasAbbreviation(schema, Current(argv, pos))
    ensures Run(schema, argv, Config(SingleDashArguments, pos, store)) ==
            Finished(UnknownOption(ShortOption(Current(argv, pos))), store)
  {
    var c := Config(SingleDashArguments, pos, store);
    ClusterUnknown(schema, argv, pos, store);
    assert LoopBody(schema, argv, c) == Return(UnknownOption(ShortOption(Current(argv, pos))), store);
    RunUnfolds(schema, argv, c);
  }

  /** A cluster `-atb` of three flags, not the last token, as whole passes. */
  lemma ClusterOfThreeFlags(schema: seq<Spec>, argv: seq<CString>, store: Store, ia: nat, it: nat, ib: nat)
    requires WellFormed(schema) && WellTyped(schema, store)
    requires ia < |schema| && schema[ia].abbreviation == 'a' && schema[ia].kind.Flag?
    requires it < |schema| && schema[it].abbreviation == 't' && schema[it].kind.Flag?
    requires ib < |schema| && schema[ib].abbreviation == 'b' && schema[ib].kind.Flag?
    requires |argv| >= 3 && argv[1] == "-atb"
    ensures Run(schema, argv, Start(store)) ==
            Run(schema, argv, Config(ParserState.None, Position(2, 0),
                                     SetFlag(schema, SetFlag(schema, SetFlag(schema, store, ia), it), ib)))
  {
    var s1 := SetFlag(schema, store, ia);
    var s2 := SetFlag(schema, s1, it);
    var s3 := SetFlag(schema, s2, ib);
    ClusterOpens(schema, argv, store, 1);
    ClusterFlagPass(schema, argv, Position(1, 1), store, ia);
    ClusterFlagPass(schema, argv, Position(1, 2), s1, it);
    ClusterFlagPass(schema, argv, Position(1, 3), s2, ib);
    ClusterCloses(schema, argv, s3, 1);
  }

  /** A last token `-c` naming flag `k`: the flag is set and the parse succeeds. */
  lemma LastFlagToken(schema: seq<Spec>, argv: seq<CString>, store: Store, i: nat, k: nat)
    requires WellFormed(schema) && WellTyped(schema, store) && 1 <= i == |argv| - 1
    requires k < |schema| && schema[k].kind.Flag? && !IsSpace(schema[k].abbreviation)
    requires schema[k].abbreviation != '-' && argv[i] == ['-', schema[k].abbreviation]
    ensures Run(schema, argv, Config(ParserState.None, Position(i, 0), store)) ==
            Finished(Okay, SetFlag(schema, store, k))
  {
    ClusterOpens(schema, argv, store, i);
    ClusterFlagPass(schema, argv, Position(i, 1), store, k);
    assert Eof(argv, Position(i, 2));
  }

  /** `a.out -atb -z -x` under any schema where those five letters are flags, such as
      `LetterFlags()`: the five flags read `true` and count as found, every other spec
      keeps what it held, and the parse succeeds. */
  lemma ClusteredFlags(schema: seq<Spec>, argv: seq<CString>, store: Store, ia: nat, it: nat, ib: nat, iz: nat, ix: nat)
    requires WellFormed(schema) && WellTyped(schema, store)
    requires ia < |schema| && schema[ia].abbreviation == 'a' && schema[ia].kind.Flag?
    requires it < |schema| && schema[it].abbreviation == 't' && schema[it].kind.Flag?
    requires ib < |schema| && schema[ib].abbreviation == 'b' && schema[ib].kind.Flag?
    requires iz < |schema| && schema[iz].abbreviation == 'z' && schema[iz].kind.Flag?
    requires ix < |schema| && schema[ix].abbreviation == 'x' && schema[ix].kind.Flag?
    requires |argv| == 4 && argv[1] == "-atb" && argv[2] == "-z" && argv[3] == "-x"
    ensures Parse(schema, argv, NothingParsedYet, store) ==
            Finished(Okay, SetFlag(schema, SetFlag(schema, SetFlag(schema, SetFlag(schema, SetFlag(schema, store,
                                   ia), it), ib), iz), ix))
  {
    var s3 := SetFlag(schema, SetFlag(schema, SetFlag(schema, store, ia), it), ib);
    var s4 := SetFlag(schema, s3, iz);
    var s5 := SetFlag(schema, s4, ix);
    ClusterOfThreeFlags(schema, argv, store, ia, it, ib);
    SingleFlagTokenPass(schema, argv, s3, 2, iz);
    LastFlagToken(schema, argv, s4, 3, ix);
    SameOutcome(schema, argv, Config(ParserState.None, Position(2, 0), s3),
                Config(ParserState.None, Position(3, 0), s4), Finished(Okay, s5));
    SameOutcome(schema, argv, Start(store), Config(ParserState.None, Position(2, 0), s3), Finished(Okay, s5));
  }

  /** A token `--...` with more after its dashes opens a long option. */
  lemma LongOptionOpens(schema: seq<Spec>, argv: seq<CString>, store: Store, i: nat)
    requires WellFormed(schema) && WellTyped(schema, store) && 1 <= i < |argv|
    requires |argv[i]| > 2 && argv[i][0] == '-' && argv[i][1] == '-' && !IsSpace(argv[i][2])
    ensures Run(schema, argv, Config(ParserState.None, Position(i, 0), store)) ==
            Run(schema, argv, Config(DoubleDashArgument, Position(i, 2), store))
  {
    var c := Config(ParserState.None, Position(i, 0), store);
    DoubleDashToken(schema, argv, c);
    RunUnfolds(schema, argv, c);
  }

  /** The name of flag `k` after the two dashes: the flag is set and the loop goes on
      at the next token. */
  lemma LongFlagRead(schema: seq<Spec>, argv: seq<CString>, store: Store, i: nat, k: nat)
    requires WellFormed(schema) && WellTyped(schema, store) && 1 <= i < |argv| && 2 < |argv[i]|
    requires k < |schema| && schema[k].kind.Flag? && argv[i][2..] == schema[k].name && '=' !in schema[k].name
    ensures Run(schema, argv, Config(DoubleDashArgument, Position(i, 2), store)) ==
            Run(schema, argv, Config(ParserState.None, Position(i + 1, 0), SetFlag(schema, store, k)))
  {
    var d := Config(DoubleDashArgument, Position(i, 2), store);
    var next := Config(ParserState.None, Position(i + 1, 0), SetFlag(schema, store, k));
    assert !Eof(argv, d.pos);
    LongOptionWithoutValue(schema, argv, d.pos, store, k);
    assert LoopBody(schema, argv, d) == Continue(next);
    RunUnfolds(schema, argv, d);
  }

  /** A name `--name` can carry: not empty, not starting with whitespace, no `=`. */
  predicate LongName(name: string)
  {
    |name| > 0 && !IsSpace(name[0]) && '=' !in name
  }

  /** Token `i` is `--name` for flag `k`, whose name the loop can read whole. */
  predicate LongFlagAt(schema: seq<Spec>, argv: seq<CString>, i: nat, k: nat)
  {
    1 <= i < |argv| && k < |schema| && schema[k].kind.Flag? && LongName(schema[k].name) &&
    argv[i] == "--" + schema[k].name
  }

  /** A token `--name` naming flag `k`, as whole passes of the loop. */
  lemma LongFlagPass(schema: seq<Spec>, argv: seq<CString>, store: Store, i: nat, k: nat)
    requires WellFormed(schema) && WellTyped(schema, store) && LongFlagAt(schema, argv, i, k)
    ensures Run(schema, argv, Config(ParserState.None, Position(i, 0), store)) ==
            Run(schema, argv, Config(ParserState.None, Position(i + 1, 0), SetFlag(schema, store, k)))
  {
    var name := schema[k].name;
    assert argv[i][2..] == name && argv[i][2] == name[0];
    LongOptionOpens(schema, argv, store, i);
    LongFlagRead(schema, argv, store, i, k);
  }

  /** Spec `k` is a flag with this name. */
  predicate FlagNamed(schema: seq<Spec>, k: nat, name: string)
  {
    k < |schema| && schema[k].kind.Flag? && schema[k].name == name
  }

  /** Seven flags with names `t_arg`, `a_arg`, and so on. */
  function LongLetterFlags(): seq<Spec>
  {
    [Spec('t', "t_arg", "", Flag), Spec('a', "a_arg", "", Flag), Spec('x', "x_arg", "", Flag),
     Spec('z', "z_arg", "", Flag), Spec('d', "d_arg", "", Flag), Spec('b', "b_arg", "", Flag),
     Spec('c', "c_arg", "", Flag)]
  }

  lemma LongLetterFlagsFit()
    ensures WellFormed(LongLetterFlags())
    ensures FlagNamed(LongLetterFlags(), 1, "a_arg") && FlagNamed(LongLetterFlags(), 0, "t_arg") &&
            FlagNamed(LongLetterFlags(), 5, "b_arg") && FlagNamed(LongLetterFlags(), 3, "z_arg") &&
            FlagNamed(LongLetterFlags(), 2, "x_arg")
  {
  }

  /** Two loop states that lead to the same outcome. */
  lemma SameOutcome(schema: seq<Spec>, argv: seq<CString>, a: Config, b: Config, r: Outcome)
    requires WellFormed(schema) && ValidConfig(schema, argv, a) && ValidConfig(schema, argv, b)
    requires Run(schema, argv, a) == Run(schema, argv, b) && Run(schema, argv, b) == r
    ensures Run(schema, argv, a) == r
  {
  }

  /** Past the last token the loop ends with `Okay`. */
  lemma AtEndOfInput(schema: seq<Spec>, argv: seq<CString>, store: Store, i: nat)
    requires WellFormed(schema) && WellTyped(schema, store) && 1 <= i == |argv|
    ensures Run(schema, argv, Config(ParserState.None, Position(i, 0), store)) == Finished(Okay, store)
  {
    assert Eof(argv, Position(i, 0));
  }

  /** `--a_arg --t_arg` as tokens 1 and 2: both flags are set. */
  lemma LongFlagsFirstTwo(schema: seq<Spec>, argv: seq<CString>, store: Store, ka: nat, kt: nat)
    requires WellFormed(schema) && WellTyped(schema, store)
    requires FlagNamed(schema, ka, "a_arg") && FlagNamed(schema, kt, "t_arg")
    requires |argv| >= 3 && argv[1] == "--a_arg" && argv[2] == "--t_arg"
    ensures Run(schema, argv, Start(store)) ==
            Run(schema, argv, Config(ParserState.None, Position(3, 0), SetFlag(schema, SetFlag(schema, store, ka), kt)))
  {
    var s1 := SetFlag(schema, store, ka);
    assert LongFlagAt(schema, argv, 1, ka);
    LongFlagPass(schema, argv, store, 1, ka);
    assert LongFlagAt(schema, argv, 2, kt);
    LongFlagPass(schema, argv, s1, 2, kt);
  }

  /** `--b_arg --z_arg` as tokens 3 and 4: both flags are set. */
  lemma LongFlagsNextTwo(schema: seq<Spec>, argv: seq<CString>, store: Store, kb: nat, kz: nat)
    requires WellFormed(schema) && WellTyped(schema, store)
    requires FlagNamed(schema, kb, "b_arg") && FlagNamed(schema, kz, "z_arg")
    requires |argv| >= 5 && argv[3] == "--b_arg" && argv[4] == "--z_arg"
    ensures Run(schema, argv, Config(ParserState.None, Position(3, 0), store)) ==
            Run(schema, argv, Config(ParserState.None, Position(5, 0), SetFlag(schema, SetFlag(schema, store, kb), kz)))
  {
    var s1 := SetFlag(schema, store, kb);
    assert LongFlagAt(schema, argv, 3, kb);
    LongFlagPass(schema, argv, store, 3, kb);
    assert LongFlagAt(schema, argv, 4, kz);
    LongFlagPass(schema, argv, s1, 4, kz);
  }

  /** `--x_arg` as the last token, 5: the flag is set and the parse succeeds. */
  lemma LongFlagsLast(schema: seq<Spec>, argv: seq<CString>, store: Store, kx: nat)
    requires WellFormed(schema) && WellTyped(schema, store)
    requires FlagNamed(schema, kx, "x_arg")
    requires |argv| == 6 && argv[5] == "--x_arg"
    ensures Run(schema, argv, Config(ParserState.None, Position(5, 0), store)) ==
            Finished(Okay, SetFlag(schema, store, kx))
  {
    LongFlagPass(schema, argv, store, 5, kx);
    AtEndOfInput(schema, argv, SetFlag(schema, store, kx), 6);
  }

  /** `a.out --a_arg --t_arg --b_arg --z_arg --x_arg` under any schema with flags of those
      names, such as `LongLetterFlags()`: those five read `true` and count as found, every
      other spec keeps what it held, and the parse succeeds. */
  lemma LongFlagsOnly(schema: seq<Spec>, argv: seq<CString>, store: Store, ka: nat, kt: nat, kb: nat, kz: nat, kx: nat)
    requires WellFormed(schema) && WellTyped(schema, store)
    requires FlagNamed(schema, ka, "a_arg") && FlagNamed(schema, kt, "t_arg") && FlagNamed(schema, kb, "b_arg")
    requires FlagNamed(schema, kz, "z_arg") && FlagNamed(schema, kx, "x_arg")
    requires |argv| == 6 && argv[1] == "--a_arg" && argv[2] == "--t_arg" && argv[3] == "--b_arg"
    requires argv[4] == "--z_arg" && argv[5] == "--x_arg"
    ensures Parse(schema, argv, NothingParsedYet, store) ==
            Finished(Okay, SetFlag(schema, SetFlag(schema, SetFlag(schema, SetFlag(schema, SetFlag(schema, store,
                                   ka), kt), kb), kz), kx))
  {
    var s2 := SetFlag(schema, SetFlag(schema, store, ka), kt);
    var s4 := SetFlag(schema, SetFlag(schema, s2, kb), kz);
    var s5 := SetFlag(schema, s4, kx);
    LongFlagsFirstTwo(schema, argv, store, ka, kt);
    LongFlagsNextTwo(schema, argv, s2, kb, kz);
    LongFlagsLast(schema, argv, s4, kx);
    SameOutcome(schema, argv, Config(ParserState.None, Position(3, 0), s2),
                Config(ParserState.None, Position(5, 0), s4), Finished(Okay, s5));
    SameOutcome(schema, argv, Start(store), Config(ParserState.None, Position(3, 0), s2), Finished(Okay, s5));
  }

  /** `first`, `second` and `third`, optionally named strings defaulting to `"-"`, with
      the flag `option` between the second and the third. */
  function InputSchema(): seq<Spec>
  {
    [Spec('f', "first", "", OptionallyNamed(Text)), Spec('s', "second", "", OptionallyNamed(Text)),
     Spec('o', "option", "", Flag), Spec('t', "third", "", OptionallyNamed(Text))]
  }

  function InputDefaults(): seq<Value>
  {
    [StringValue("-"), StringValue("-"), BoolValue(false), StringValue("-")]
  }

  lemma InputSchemaFits()
    ensures WellFormed(InputSchema()) && DefaultsFit(InputSchema(), InputDefaults())
    ensures InitialStore(InputSchema(), InputDefaults()) ==
            Store([StringValue("-"), StringValue("-"), BoolValue(false), StringValue("-")], [false, false, false, false])
  {
  }

  /** Bare words starting `argv` that are not options. */
  predicate BareWord(s: string)
  {
    IsWord(s) && s[0] != '-'
  }

  /** The shape of `InputSchema()` the bare-token scenarios rely on: optionally-named
      strings at 0, 1 and 3, the flag `o` at 2. */
  predicate InputShape(schema: seq<Spec>)
  {
    WellFormed(schema) && |schema| == 4 &&
    schema[0].kind == OptionallyNamed(Text) && schema[1].kind == OptionallyNamed(Text) &&
    schema[2].kind == Flag && schema[2].abbreviation == 'o' && schema[3].kind == OptionallyNamed(Text)
  }

  lemma InputSchemaShape()
    ensures InputShape(InputSchema())
  {
    InputSchemaFits();
  }

  /** Nothing has been found yet. */
  predicate NoneFound(store: Store)
  {
    forall k :: 0 <= k < |store.found| ==> !store.found[k]
  }

  /** `a.out <a> -o <b> <c> ...` up to the fourth token: `<a>` fills spec 0, then the
      flag is set. */
  lemma InputsFirstHalf(schema: seq<Spec>, argv: seq<CString>, store: Store)
    requires InputShape(schema) && WellTyped(schema, store) && NoneFound(store)
    requires |argv| >= 5 && BareWord(argv[1]) && argv[2] == "-o"
    ensures Run(schema, argv, Start(store)) ==
            Run(schema, argv, Config(ParserState.None, Position(3, 0), SetFlag(schema, Bind(store, 0, argv[1]), 2)))
  {
    BareWordPass(schema, argv, store, 1, 0);
    SingleFlagTokenPass(schema, argv, Bind(store, 0, argv[1]), 2, 2);
  }

  /** The next two tokens: `<b>` skips the spec already found and fills spec 1, `<c>`
      skips the flag and fills spec 3. */
  lemma InputsSecondHalf(schema: seq<Spec>, argv: seq<CString>, store: Store)
    requires InputShape(schema) && WellTyped(schema, store)
    requires store.found[0] && !store.found[1] && !store.found[3]
    requires |argv| >= 5 && BareWord(argv[3]) && BareWord(argv[4])
    ensures Run(schema, argv, Config(ParserState.None, Position(3, 0), store)) ==
            Run(schema, argv, Config(ParserState.None, Position(5, 0), Bind(Bind(store, 1, argv[3]), 3, argv[4])))
  {
    BareWordPass(schema, argv, store, 3, 1);
    BareWordPass(schema, argv, Bind(store, 1, argv[3]), 4, 3);
  }

  /** The store after the first four tokens, spelt out. */
  lemma InputsFinalStore(schema: seq<Spec>, store: Store, a: string, b: string, c: string)
    requires InputShape(schema) && WellTyped(schema, store)
    ensures Bind(Bind(SetFlag(schema, Bind(store, 0, a), 2), 1, b), 3, c) ==
            Store([StringValue(a), StringValue(b), BoolValue(true), StringValue(c)], [true, true, true, true])
  {
    var s4 := Bind(Bind(SetFlag(schema, Bind(store, 0, a), 2), 1, b), 3, c);
    assert s4.values == [StringValue(a), StringValue(b), BoolValue(true), StringValue(c)];
    assert s4.found == [true, true, true, true];
  }

  /** `a.out <a> -o <b> <c> ...`: the bare words fill the three optionally-named specs
      in schema order; the flag in between does not disturb that order. */
  lemma InputsInOrder(schema: seq<Spec>, argv: seq<CString>, store: Store)
    requires InputShape(schema) && WellTyped(schema, store) && NoneFound(store)
    requires |argv| >= 5 && BareWord(argv[1]) && argv[2] == "-o" && BareWord(argv[3]) && BareWord(argv[4])
    ensures Run(schema, argv, Start(store)) ==
            Run(schema, argv, Config(ParserState.None, Position(5, 0),
                  Store([StringValue(argv[1]), StringValue(argv[3]), BoolValue(true), StringValue(argv[4])],
                        [true, true, true, true])))
  {
    InputsFirstHalf(schema, argv, store);
    var s2 := SetFlag(schema, Bind(store, 0, argv[1]), 2);
    InputsSecondHalf(schema, argv, s2);
    var s4 := Bind(Bind(s2, 1, argv[3]), 3, argv[4]);
    InputsFinalStore(schema, store, argv[1], argv[3], argv[4]);
    var c4 := Config(ParserState.None, Position(5, 0), s4);
    SameOutcome(schema, argv, Start(store), Config(ParserState.None, Position(3, 0), s2), Run(schema, argv, c4));
  }

  /** `a.out first_arg -o second_arg third_arg`, for any three bare words and any schema
      shaped like `InputSchema()`: the parse succeeds with the words in the three
      optionally-named specs and the flag set. */
  lemma OptionallyNamedNotUsingName(schema: seq<Spec>, defaults: seq<Value>, argv: seq<CString>)
    requires InputShape(schema) && DefaultsFit(schema, defaults)
    requires |argv| == 5 && BareWord(argv[1]) && argv[2] == "-o" && BareWord(argv[3]) && BareWord(argv[4])
    ensures Parse(schema, argv, NothingParsedYet, InitialStore(schema, defaults)) ==
            Finished(Okay, Store([StringValue(argv[1]), StringValue(argv[3]), BoolValue(true), StringValue(argv[4])],
                                 [true, true, true, true]))
  {
    InputsInOrder(schema, argv, InitialStore(schema, defaults));
    assert Eof(argv, Position(5, 0));
  }

  /** The same with a fourth bare word: every optionally-named spec is taken, so the
      fourth is one too many. */
  lemma OptionallyNamedTooManyArguments(schema: seq<Spec>, defaults: seq<Value>, argv: seq<CString>)
    requires InputShape(schema) && DefaultsFit(schema, defaults)
    requires |argv| == 6 && BareWord(argv[1]) && argv[2] == "-o" && BareWord(argv[3]) && BareWord(argv[4])
    requires BareWord(argv[5])
    ensures Parse(schema, argv, NothingParsedYet, InitialStore(schema, defaults)) ==
            Finished(ExcessUnnamedArguments,
                     Store([StringValue(argv[1]), StringValue(argv[3]), BoolValue(true), StringValue(argv[4])],
                           [true, true, true, true]))
  {
    InputsInOrder(schema, argv, InitialStore(schema, defaults));
    var s4 := Store([StringValue(argv[1]), StringValue(argv[3]), BoolValue(true), StringValue(argv[4])], [true, true, true, true]);
    var c := Config(ParserState.None, Position(5, 0), s4);
    NotSpaceIsInside(argv, c.pos);
    BareTokenInStateNone(schema, argv, c);
    UnnamedArgumentExcess(schema, argv, ParserState.None, c.pos, s4);
    assert LoopBody(schema, argv, c) == Return(ExcessUnnamedArguments, s4);
    RunUnfolds(schema, argv, c);
  }
}
