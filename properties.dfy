/**
 * What the parser guarantees, stated over the functions of module `Machine`: how each
 * kind of token is handled, what the store can and cannot become, how a run ends, the
 * inputs on which the source's loop never ends, and a sufficient condition for it to end.
 */
module Properties {
  import opened Wrappers
  import opened Cursor
  import opened Schema
  import opened Conversion
  import opened ValueStore
  import opened Machine

  // ---------------------------------------------------------------------------------
  // The store only grows

  /** The store a pass leaves behind, whether the loop goes on or returns. */
  function StoreOf(t: Transition): Store
  {
    match t
    case Continue(next) => next.store
    case Return(_, store) => store
  }

  /** `after` extends `before`: a spec once found stays found, and a spec still not
      found holds the value it held before. */
  predicate Grows(schema: seq<Spec>, before: Store, after: Store)
    requires WellTyped(schema, before) && WellTyped(schema, after)
  {
    forall i :: 0 <= i < |schema| ==>
      (before.found[i] ==> after.found[i]) && (!after.found[i] ==> after.values[i] == before.values[i])
  }

  /** A flag reads `true` exactly when it was found. */
  predicate FlagsMirrorFound(schema: seq<Spec>, store: Store)
    requires WellTyped(schema, store)
  {
    forall i :: 0 <= i < |schema| && schema[i].kind.Flag? ==> store.values[i] == BoolValue(store.found[i])
  }

  lemma TryStoreAtGrows(schema: seq<Spec>, store: Store, index: nat, text: string)
    requires WellTyped(schema, store) && index < |schema| && !schema[index].kind.Flag?
    ensures Grows(schema, store, TryStoreAt(schema, store, index, text).1)
    ensures FlagsMirrorFound(schema, store) ==> FlagsMirrorFound(schema, TryStoreAt(schema, store, index, text).1)
  {
  }

  lemma SetFlagGrows(schema: seq<Spec>, store: Store, index: nat)
    requires WellTyped(schema, store) && index < |schema| && schema[index].kind.Flag?
    ensures Grows(schema, store, SetFlag(schema, store, index))
    ensures FlagsMirrorFound(schema, store) ==> FlagsMirrorFound(schema, SetFlag(schema, store, index))
  {
  }

  /** `StoreOf(t)` extends `store` and keeps flags mirroring what was found. */
  predicate KeepsStore(schema: seq<Spec>, store: Store, t: Transition)
    requires WellTyped(schema, store) && WellTyped(schema, StoreOf(t))
  {
    Grows(schema, store, StoreOf(t)) &&
    (FlagsMirrorFound(schema, store) ==> FlagsMirrorFound(schema, StoreOf(t)))
  }

  lemma UnnamedArgumentStepGrows(schema: seq<Spec>, argv: seq<CString>, state: ParserState, pos: Position, store: Store)
    requires WellFormed(schema) && ValidPosition(argv, pos) && pos.argumentIndex < |argv| && WellTyped(schema, store)
    ensures WellTyped(schema, StoreOf(UnnamedArgumentStep(schema, argv, state, pos, store)))
    ensures KeepsStore(schema, store, UnnamedArgumentStep(schema, argv, state, pos, store))
  {
    var abbreviation := FirstUnseenOptionallyNamed(schema, store.found);
    if abbreviation.Some? {
      FirstUnseenIndex(schema, store.found);
      TryStoreAtGrows(schema, store, IndexOf(schema, abbreviation.value), ArgTail(argv, pos));
    }
  }

  lemma SingleDashStepGrows(schema: seq<Spec>, argv: seq<CString>, pos: Position, store: Store)
    requires WellFormed(schema) && ValidPosition(argv, pos) && !Eof(argv, pos) && WellTyped(schema, store)
    ensures WellTyped(schema, StoreOf(SingleDashStep(schema, argv, pos, store)))
    ensures KeepsStore(schema, store, SingleDashStep(schema, argv, pos, store))
  {
    var c := Current(argv, pos);
    KindTestsAgreeWithIndexOf(schema, c);
    if !IsSpace(c) && HasAbbreviation(schema, c) {
      var index := IndexOf(schema, c);
      if IsFlag(schema, c) {
        SetFlagGrows(schema, store, index);
      } else {
        NotSpaceIsInside(argv, pos);
        var afterAbbreviation := Advanced(argv, pos);
        var tail := ArgTail(argv, afterAbbreviation);
        TryStoreAtGrows(schema, store, index, tail);
        var nextArgument := NextArgument(afterAbbreviation);
        if tail == [] && !Eof(argv, nextArgument) {
          TryStoreAtGrows(schema, store, index, ArgTail(argv, nextArgument));
        }
      }
    }
  }

  lemma DoubleDashStepGrows(schema: seq<Spec>, argv: seq<CString>, pos: Position, store: Store)
    requires WellFormed(schema) && ValidPosition(argv, pos) && !Eof(argv, pos) && WellTyped(schema, store)
    ensures WellTyped(schema, StoreOf(DoubleDashStep(schema, argv, pos, store)))
    ensures KeepsStore(schema, store, DoubleDashStep(schema, argv, pos, store))
  {
    var equals := FindFrom(ArgTail(argv, pos), '=', 0);
    if equals.Some? {
      LongOptionWithValueGrows(schema, argv, pos, store, equals.value);
    } else {
      LongOptionWithoutValueGrows(schema, argv, pos, store);
    }
  }

  lemma LongOptionWithValueGrows(schema: seq<Spec>, argv: seq<CString>, pos: Position, store: Store, e: nat)
    requires WellFormed(schema) && ValidPosition(argv, pos) && !Eof(argv, pos) && WellTyped(schema, store)
    requires FindFrom(ArgTail(argv, pos), '=', 0) == Some(e)
    ensures WellTyped(schema, StoreOf(DoubleDashStep(schema, argv, pos, store)))
    ensures KeepsStore(schema, store, DoubleDashStep(schema, argv, pos, store))
  {
    var t := DoubleDashStep(schema, argv, pos, store);
    var tail := ArgTail(argv, pos);
    var name := tail[..e];
    var abbreviation := AbbreviationOfName(schema, name);
    if abbreviation.Some? {
      AbbreviationOfNameResolves(schema, name);
      KindTestsAgreeWithIndexOf(schema, abbreviation.value);
      var index := IndexOf(schema, abbreviation.value);
      var argument := tail[e + 1..];
      if !IsFlag(schema, abbreviation.value) && argument != [] {
        TryStoreAtGrows(schema, store, index, argument);
        assert StoreOf(t) == TryStoreAt(schema, store, index, argument).1;
      } else {
        assert StoreOf(t) == store;
      }
    } else {
      assert StoreOf(t) == store;
    }
  }

  lemma LongOptionWithoutValueGrows(schema: seq<Spec>, argv: seq<CString>, pos: Position, store: Store)
    requires WellFormed(schema) && ValidPosition(argv, pos) && !Eof(argv, pos) && WellTyped(schema, store)
    requires FindFrom(ArgTail(argv, pos), '=', 0).None?
    ensures WellTyped(schema, StoreOf(DoubleDashStep(schema, argv, pos, store)))
    ensures KeepsStore(schema, store, DoubleDashStep(schema, argv, pos, store))
  {
    var t := DoubleDashStep(schema, argv, pos, store);
    var name := ArgTail(argv, pos);
    var abbreviation := AbbreviationOfName(schema, name);
    if abbreviation.Some? {
      AbbreviationOfNameResolves(schema, name);
      KindTestsAgreeWithIndexOf(schema, abbreviation.value);
      var index := IndexOf(schema, abbreviation.value);
      if IsFlag(schema, abbreviation.value) {
        SetFlagGrows(schema, store, index);
        assert StoreOf(t) == SetFlag(schema, store, index);
      } else if !Eof(argv, NextArgument(pos)) {
        var argument := ArgTail(argv, NextArgument(pos));
        TryStoreAtGrows(schema, store, index, argument);
        assert StoreOf(t) == TryStoreAt(schema, store, index, argument).1;
      } else {
        assert StoreOf(t) == store;
      }
    } else {
      assert StoreOf(t) == store;
    }
  }

  lemma NoneStepGrows(schema: seq<Spec>, argv: seq<CString>, pos: Position, store: Store)
    requires WellFormed(schema) && ValidPosition(argv, pos) && !Eof(argv, pos) && WellTyped(schema, store)
    ensures WellTyped(schema, StoreOf(NoneStep(schema, argv, pos, store)))
    ensures KeepsStore(schema, store, NoneStep(schema, argv, pos, store))
  {
    var t := NoneStep(schema, argv, pos, store);
    var c := Current(argv, pos);
    if c == '-' {
      NotSpaceIsInside(argv, pos);
      if Peek(argv, pos) != '-' && IsSpace(Peek(argv, pos)) {
        var abbreviation := FirstUnseenOptionallyNamed(schema, store.found);
        if abbreviation.Some? {
          FirstUnseenIndex(schema, store.found);
          var index := IndexOf(schema, abbreviation.value);
          TryStoreAtGrows(schema, store, index, "-");
          assert StoreOf(t) == TryStoreAt(schema, store, index, "-").1;
        }
      } else {
        assert StoreOf(t) == store;
      }
    } else if !IsSpace(c) {
      UnnamedArgumentStepGrows(schema, argv, ParserState.None, pos, store);
    }
  }

  /** One pass writes the store only through `try_store_at` and `set_flag`. */
  lemma LoopBodyGrows(schema: seq<Spec>, argv: seq<CString>, cfg: Config)
    requires WellFormed(schema) && ValidConfig(schema, argv, cfg) && !Eof(argv, cfg.pos)
    ensures WellTyped(schema, StoreOf(LoopBody(schema, argv, cfg)))
    ensures KeepsStore(schema, cfg.store, LoopBody(schema, argv, cfg))
  {
    match cfg.state
    case None => NoneStepGrows(schema, argv, cfg.pos, cfg.store);
    case SingleDashArguments => SingleDashStepGrows(schema, argv, cfg.pos, cfg.store);
    case DoubleDashArgument => DoubleDashStepGrows(schema, argv, cfg.pos, cfg.store);
    case AfterFreestandingDoubleDash => UnnamedArgumentStepGrows(schema, argv, cfg.state, cfg.pos, cfg.store);
  }

  /** Over a whole run: nothing found is ever forgotten, a spec that was never found
      keeps the value it started with (its default), and flags read `true` exactly when
      they were given. */
  lemma {:induction false} RunGrows(schema: seq<Spec>, argv: seq<CString>, cfg: Config)
    requires WellFormed(schema) && ValidConfig(schema, argv, cfg)
    ensures Grows(schema, cfg.store, Run(schema, argv, cfg).store)
    ensures FlagsMirrorFound(schema, cfg.store) ==> FlagsMirrorFound(schema, Run(schema, argv, cfg).store)
    decreases |argv| - cfg.pos.argumentIndex, CharsLeft(argv, cfg.pos)
  {
    if !Eof(argv, cfg.pos) {
      RunUnfolds(schema, argv, cfg);
      LoopBodyGrows(schema, argv, cfg);
      var t := LoopBody(schema, argv, cfg);
      if t.Continue? && t.next.pos != cfg.pos {
        RunGrows(schema, argv, t.next);
      }
    }
  }

  /** A first `parse` on a freshly built parser: whatever it ends with, every spec not
      found still holds its default, and every flag reads `true` exactly when it was
      found. */
  lemma ParseKeepsDefaults(schema: seq<Spec>, argv: seq<CString>, defaults: seq<Value>)
    requires WellFormed(schema) && |argv| >= 1 && DefaultsFit(schema, defaults)
    ensures var r := Parse(schema, argv, NothingParsedYet, InitialStore(schema, defaults));
            (forall i :: 0 <= i < |schema| && !r.store.found[i] ==> r.store.values[i] == defaults[i]) &&
            (forall i :: 0 <= i < |schema| && schema[i].kind.Flag? ==> r.store.values[i] == BoolValue(r.store.found[i]))
  {
    RunGrows(schema, argv, Start(InitialStore(schema, defaults)));
  }

  /** A second `parse` writes `CannotParseAgain` and leaves the store alone. */
  lemma ParseAgain(schema: seq<Spec>, argv: seq<CString>, result: ParseResult, store: Store)
    requires WellFormed(schema) && |argv| >= 1 && WellTyped(schema, store)
    requires result != NothingParsedYet
    ensures Parse(schema, argv, result, store) == Finished(CannotParseAgain, store)
  {
  }

  // ---------------------------------------------------------------------------------
  // How a run ends

  /** The loop's state after `n` passes from `cfg`; nothing once the loop has left,
      at end of input or through an early return. */
  function Passes(schema: seq<Spec>, argv: seq<CString>, cfg: Config, n: nat): (r: Option<Config>)
    requires WellFormed(schema) && ValidConfig(schema, argv, cfg)
    ensures r.Some? ==> ValidConfig(schema, argv, r.value)
    decreases n
  {
    if n == 0 then Some(cfg)
    else if Eof(argv, cfg.pos) then Option.None
    else
      match LoopBody(schema, argv, cfg)
      case Return(_, _) => Option.None
      case Continue(next) => Passes(schema, argv, next, n - 1)
  }

  /** The pass that decides how a run ends: the loop test fails there (`Okay`), or
      the handler returns (its error), or the pass changes nothing (`Diverges`). */
  predicate EndsHere(schema: seq<Spec>, argv: seq<CString>, c: Config, r: Outcome)
    requires WellFormed(schema) && ValidConfig(schema, argv, c)
  {
    if Eof(argv, c.pos) then r == Finished(Okay, c.store)
    else
      var t := LoopBody(schema, argv, c);
      (t.Return? && r == Finished(t.result, t.store)) ||
      (t.Continue? && t.next == c && r == Diverges(c.store))
  }

  /** One pass, as `Passes` takes it. */
  lemma PassesUnfolds(schema: seq<Spec>, argv: seq<CString>, cfg: Config, n: nat)
    requires WellFormed(schema) && ValidConfig(schema, argv, cfg) && !Eof(argv, cfg.pos)
    ensures LoopBody(schema, argv, cfg).Return? ==> Passes(schema, argv, cfg, n + 1).None?
    ensures LoopBody(schema, argv, cfg).Continue? ==>
              Passes(schema, argv, cfg, n + 1) == Passes(schema, argv, LoopBody(schema, argv, cfg).next, n)
  {
  }

  /** Every outcome of a run is decided at some pass the loop actually reaches. */
  lemma {:induction false} RunEndsAtAPass(schema: seq<Spec>, argv: seq<CString>, cfg: Config)
    requires WellFormed(schema) && ValidConfig(schema, argv, cfg)
    ensures exists n :: Passes(schema, argv, cfg, n).Some? &&
                        EndsHere(schema, argv, Passes(schema, argv, cfg, n).value, Run(schema, argv, cfg))
    decreases |argv| - cfg.pos.argumentIndex, CharsLeft(argv, cfg.pos)
  {
    assert Passes(schema, argv, cfg, 0) == Some(cfg);
    if !Eof(argv, cfg.pos) {
      var t := LoopBody(schema, argv, cfg);
      RunUnfolds(schema, argv, cfg);
      if t.Continue? && t.next.pos != cfg.pos {
        RunEndsAtAPass(schema, argv, t.next);
        var n :| Passes(schema, argv, t.next, n).Some? &&
                 EndsHere(schema, argv, Passes(schema, argv, t.next, n).value, Run(schema, argv, t.next));
        PassesUnfolds(schema, argv, cfg, n);
      }
    }
  }

  /** A pass that leaves the cursor where it was is the `None` state on whitespace:
      every other branch of every handler moves the cursor or returns. */
  lemma StuckOnlyOnSpace(schema: seq<Spec>, argv: seq<CString>, cfg: Config)
    requires WellFormed(schema) && ValidConfig(schema, argv, cfg) && !Eof(argv, cfg.pos)
    ensures var t := LoopBody(schema, argv, cfg);
            t.Continue? && t.next.pos == cfg.pos <==>
              cfg.state == ParserState.None && IsSpace(Current(argv, cfg.pos))
  {
    if cfg.state == ParserState.None && Current(argv, cfg.pos) == '-' {
      NotSpaceIsInside(argv, cfg.pos);
    }
  }

  /** `Okay` is written only once the loop has reached the end of input; an error only
      by a handler returning early at a pass the loop reached; and a run diverges only
      at a pass in state `None` on whitespace. */
  lemma RunOutcomes(schema: seq<Spec>, argv: seq<CString>, cfg: Config)
    requires WellFormed(schema) && ValidConfig(schema, argv, cfg)
    ensures var r := Run(schema, argv, cfg);
            exists n :: Passes(schema, argv, cfg, n).Some? &&
              var c := Passes(schema, argv, cfg, n).value;
              (r.Finished? && r.result == Okay ==> Eof(argv, c.pos) && c.store == r.store) &&
              (r.Finished? && r.result != Okay ==>
                 !Eof(argv, c.pos) && IsError(r.result) && LoopBody(schema, argv, c) == Return(r.result, r.store)) &&
              (r.Diverges? ==>
                 !Eof(argv, c.pos) && c.state == ParserState.None && IsSpace(Current(argv, c.pos)) && c.store == r.store)
  {
    RunEndsAtAPass(schema, argv, cfg);
    var n :| Passes(schema, argv, cfg, n).Some? &&
             EndsHere(schema, argv, Passes(schema, argv, cfg, n).value, Run(schema, argv, cfg));
    var c := Passes(schema, argv, cfg, n).value;
    if !Eof(argv, c.pos) {
      StuckOnlyOnSpace(schema, argv, c);
    }
  }

  // ---------------------------------------------------------------------------------
  // After a freestanding `--`

  /** In state `AfterFreestandingDoubleDash` every token, whatever it starts with,
      goes to `handle_unnamed_argument`, and the state is kept. */
  lemma AfterFreestandingStep(schema: seq<Spec>, argv: seq<CString>, cfg: Config)
    requires WellFormed(schema) && ValidConfig(schema, argv, cfg) && !Eof(argv, cfg.pos)
    requires cfg.state == AfterFreestandingDoubleDash
    ensures cfg.pos.argumentIndex < |argv|
    ensures LoopBody(schema, argv, cfg) == UnnamedArgumentStep(schema, argv, cfg.state, cfg.pos, cfg.store)
    ensures LoopBody(schema, argv, cfg).Continue? ==> LoopBody(schema, argv, cfg).next.state == AfterFreestandingDoubleDash
  {
  }

  /** The reference for what follows a freestanding `--`: every remaining token, in
      order and whatever it starts with, goes through `handle_unnamed_argument`, until
      the input ends (`Okay`) or a token cannot be bound. */
  function BareTokensRun(schema: seq<Spec>, argv: seq<CString>, pos: Position, store: Store): Outcome
    requires WellFormed(schema) && ValidPosition(argv, pos) && WellTyped(schema, store)
    decreases |argv| - pos.argumentIndex
  {
    if Eof(argv, pos) then Finished(Okay, store)
    else
      match UnnamedArgumentStep(schema, argv, AfterFreestandingDoubleDash, pos, store)
      case Return(result, stored) => Finished(result, stored)
      case Continue(next) => BareTokensRun(schema, argv, NextArgument(pos), next.store)
  }

  /** Once the freestanding `--` has been read the state is never left: the rest of the
      run is `BareTokensRun`, so it never diverges and no later token is read as an
      option. */
  lemma {:induction false} AfterFreestandingRun(schema: seq<Spec>, argv: seq<CString>, cfg: Config)
    requires WellFormed(schema) && ValidConfig(schema, argv, cfg)
    requires cfg.state == AfterFreestandingDoubleDash
    ensures Run(schema, argv, cfg) == BareTokensRun(schema, argv, cfg.pos, cfg.store)
    decreases |argv| - cfg.pos.argumentIndex
  {
    if !Eof(argv, cfg.pos) {
      AfterFreestandingStep(schema, argv, cfg);
      RunUnfolds(schema, argv, cfg);
      var t := LoopBody(schema, argv, cfg);
      if t.Continue? {
        assert t.next == Config(AfterFreestandingDoubleDash, NextArgument(cfg.pos), t.next.store);
        AfterFreestandingRun(schema, argv, t.next);
      }
    }
  }

  // ---------------------------------------------------------------------------------
  // Bare tokens

  /** `handle_unnamed_argument` stores the rest of the token in the first spec, in
      schema order, that is optionally named and not found yet; specs already given
      by name are skipped. The spec counts as found even if the conversion fails. */
  lemma UnnamedArgumentBindsFirstUnseen(schema: seq<Spec>, argv: seq<CString>, state: ParserState,
                                        pos: Position, store: Store, i: nat)
    requires WellFormed(schema) && ValidPosition(argv, pos) && pos.argumentIndex < |argv| && WellTyped(schema, store)
    requires i < |schema| && schema[i].kind.OptionallyNamed? && !store.found[i]
    requires forall j :: 0 <= j < i && schema[j].kind.OptionallyNamed? ==> store.found[j]
    ensures var stored := TryStoreAt(schema, store, i, ArgTail(argv, pos));
            UnnamedArgumentStep(schema, argv, state, pos, store) ==
              if stored.0 then Continue(Config(state, Position(pos.argumentIndex + 1, 0), stored.1))
              else Return(ArgumentTypeMismatch, stored.1)
  {
    FirstUnseenIs(schema, store.found, i);
    IndexOfUnique(schema, schema[i].abbreviation, i);
  }

  /** The first unseen optionally-named spec is the one before which every
      optionally-named spec was found. */
  lemma FirstUnseenIs(schema: seq<Spec>, found: seq<bool>, i: nat)
    requires WellFormed(schema) && |found| == |schema|
    requires i < |schema| && schema[i].kind.OptionallyNamed? && !found[i]
    requires forall j :: 0 <= j < i && schema[j].kind.OptionallyNamed? ==> found[j]
    ensures FirstUnseenOptionallyNamed(schema, found) == Some(schema[i].abbreviation)
  {
    FirstUnseenIndex(schema, found);
  }

  /** Once every optionally-named spec has been found, a bare token is one too many. */
  lemma UnnamedArgumentExcess(schema: seq<Spec>, argv: seq<CString>, state: ParserState, pos: Position, store: Store)
    requires WellFormed(schema) && ValidPosition(argv, pos) && pos.argumentIndex < |argv| && WellTyped(schema, store)
    requires forall j :: 0 <= j < |schema| && schema[j].kind.OptionallyNamed? ==> store.found[j]
    ensures UnnamedArgumentStep(schema, argv, state, pos, store) == Return(ExcessUnnamedArguments, store)
  {
    FirstUnseenIndex(schema, store.found);
  }

  /** In state `None` a token that starts with neither `-` nor whitespace is a bare token. */
  lemma BareTokenInStateNone(schema: seq<Spec>, argv: seq<CString>, cfg: Config)
    requires WellFormed(schema) && ValidConfig(schema, argv, cfg) && !Eof(argv, cfg.pos)
    requires cfg.state == ParserState.None
    requires Current(argv, cfg.pos) != '-' && !IsSpace(Current(argv, cfg.pos))
    ensures cfg.pos.argumentIndex < |argv|
    ensures LoopBody(schema, argv, cfg) == UnnamedArgumentStep(schema, argv, ParserState.None, cfg.pos, cfg.store)
  {
  }

  // ---------------------------------------------------------------------------------
  // Clusters `-xyz`

  /** A flag in a cluster is set, and the cursor moves on to the next character of the
      cluster. */
  lemma ClusterFlag(schema: seq<Spec>, argv: seq<CString>, pos: Position, store: Store, i: nat)
    requires WellFormed(schema) && ValidPosition(argv, pos) && !Eof(argv, pos) && WellTyped(schema, store)
    requires i < |schema| && schema[i].kind.Flag?
    requires schema[i].abbreviation == Current(argv, pos) && !IsSpace(Current(argv, pos))
    ensures SingleDashStep(schema, argv, pos, store) ==
              Continue(Config(SingleDashArguments, Position(pos.argumentIndex, pos.charOffset + 1),
                              SetFlag(schema, store, i)))
  {
    ClusterCharacter(schema, argv, pos, i);
  }

  /** A parameter in a cluster takes the rest of the token when there is one, and the
      whole next token otherwise; with no next token the result is `MissingArgument`
      naming it. Either way the cluster ends there. */
  lemma ClusterParameter(schema: seq<Spec>, argv: seq<CString>, pos: Position, store: Store, i: nat)
    requires WellFormed(schema) && ValidPosition(argv, pos) && !Eof(argv, pos) && WellTyped(schema, store)
    requires i < |schema| && !schema[i].kind.Flag?
    requires schema[i].abbreviation == Current(argv, pos) && !IsSpace(Current(argv, pos))
    ensures pos.argumentIndex < |argv| && pos.charOffset < |argv[pos.argumentIndex]|
    ensures var rest := argv[pos.argumentIndex][pos.charOffset + 1..];
            rest != [] ==>
              var stored := TryStoreAt(schema, store, i, rest);
              SingleDashStep(schema, argv, pos, store) ==
                if stored.0 then Continue(Config(ParserState.None, Position(pos.argumentIndex + 1, 0), stored.1))
                else Return(ArgumentTypeMismatch, stored.1)
    ensures var rest := argv[pos.argumentIndex][pos.charOffset + 1..];
            rest == [] && Eof(argv, Position(pos.argumentIndex + 1, 0)) ==>
              SingleDashStep(schema, argv, pos, store) == Return(MissingArgument(schema[i].abbreviation), store)
    ensures var rest := argv[pos.argumentIndex][pos.charOffset + 1..];
            rest == [] && !Eof(argv, Position(pos.argumentIndex + 1, 0)) ==>
              pos.argumentIndex + 1 < |argv| &&
              var stored := TryStoreAt(schema, store, i, argv[pos.argumentIndex + 1]);
              SingleDashStep(schema, argv, pos, store) ==
                if stored.0 then Continue(Config(ParserState.None, Position(pos.argumentIndex + 2, 0), stored.1))
                else Return(ArgumentTypeMismatch, stored.1)
  {
    ClusterCharacter(schema, argv, pos, i);
    if pos.charOffset + 1 < |argv[pos.argumentIndex]| {
      ClusterValueInToken(schema, argv, pos, store, i);
    } else if Eof(argv, Position(pos.argumentIndex + 1, 0)) {
      ClusterValueMissing(schema, argv, pos, store, i);
    } else {
      ClusterValueInNextToken(schema, argv, pos, store, i);
    }
  }

  /** The parameter's value is the rest of the cluster's token. */
  lemma ClusterValueInToken(schema: seq<Spec>, argv: seq<CString>, pos: Position, store: Store, i: nat)
    requires WellFormed(schema) && ValidPosition(argv, pos) && !Eof(argv, pos) && WellTyped(schema, store)
    requires i < |schema| && !schema[i].kind.Flag?
    requires schema[i].abbreviation == Current(argv, pos) && !IsSpace(Current(argv, pos))
    requires pos.argumentIndex < |argv| && pos.charOffset + 1 < |argv[pos.argumentIndex]|
    ensures var stored := TryStoreAt(schema, store, i, argv[pos.argumentIndex][pos.charOffset + 1..]);
            SingleDashStep(schema, argv, pos, store) ==
              if stored.0 then Continue(Config(ParserState.None, Position(pos.argumentIndex + 1, 0), stored.1))
              else Return(ArgumentTypeMismatch, stored.1)
  {
    ClusterCharacter(schema, argv, pos, i);
    var after := Position(pos.argumentIndex, pos.charOffset + 1);
    var rest := argv[pos.argumentIndex][pos.charOffset + 1..];
    assert ArgTail(argv, after) == rest && rest != [];
    assert NextArgument(after) == Position(pos.argumentIndex + 1, 0);
  }

  /** The cluster's token ends at the parameter and no token follows. */
  lemma ClusterValueMissing(schema: seq<Spec>, argv: seq<CString>, pos: Position, store: Store, i: nat)
    requires WellFormed(schema) && ValidPosition(argv, pos) && !Eof(argv, pos) && WellTyped(schema, store)
    requires i < |schema| && !schema[i].kind.Flag?
    requires schema[i].abbreviation == Current(argv, pos) && !IsSpace(Current(argv, pos))
    requires pos.argumentIndex < |argv| && pos.charOffset + 1 == |argv[pos.argumentIndex]|
    requires Eof(argv, Position(pos.argumentIndex + 1, 0))
    ensures SingleDashStep(schema, argv, pos, store) == Return(MissingArgument(schema[i].abbreviation), store)
  {
    ClusterCharacter(schema, argv, pos, i);
    var after := Position(pos.argumentIndex, pos.charOffset + 1);
    assert ArgTail(argv, after) == [];
    assert NextArgument(after) == Position(pos.argumentIndex + 1, 0);
  }

  /** The cluster's token ends at the parameter and its value is the whole next token. */
  lemma ClusterValueInNextToken(schema: seq<Spec>, argv: seq<CString>, pos: Position, store: Store, i: nat)
    requires WellFormed(schema) && ValidPosition(argv, pos) && !Eof(argv, pos) && WellTyped(schema, store)
    requires i < |schema| && !schema[i].kind.Flag?
    requires schema[i].abbreviation == Current(argv, pos) && !IsSpace(Current(argv, pos))
    requires pos.argumentIndex < |argv| && pos.charOffset + 1 == |argv[pos.argumentIndex]|
    requires !Eof(argv, Position(pos.argumentIndex + 1, 0))
    ensures pos.argumentIndex + 1 < |argv|
    ensures var stored := TryStoreAt(schema, store, i, argv[pos.argumentIndex + 1]);
            SingleDashStep(schema, argv, pos, store) ==
              if stored.0 then Continue(Config(ParserState.None, Position(pos.argumentIndex + 2, 0), stored.1))
              else Return(ArgumentTypeMismatch, stored.1)
  {
    ClusterCharacter(schema, argv, pos, i);
    var after := Position(pos.argumentIndex, pos.charOffset + 1);
    var next := Position(pos.argumentIndex + 1, 0);
    assert ArgTail(argv, after) == [];
    assert NextArgument(after) == next;
    assert ArgTail(argv, next) == argv[pos.argumentIndex + 1];
    assert NextArgument(next) == Position(pos.argumentIndex + 2, 0);
  }

  /** The character under the cursor is spec `i`'s abbreviation, and the cursor can
      step past it within the token. */
  lemma ClusterCharacter(schema: seq<Spec>, argv: seq<CString>, pos: Position, i: nat)
    requires WellFormed(schema) && ValidPosition(argv, pos) && !Eof(argv, pos)
    requires i < |schema| && schema[i].abbreviation == Current(argv, pos) && !IsSpace(Current(argv, pos))
    ensures pos.argumentIndex < |argv| && pos.charOffset < |argv[pos.argumentIndex]|
    ensures Advanced(argv, pos) == Position(pos.argumentIndex, pos.charOffset + 1)
    ensures HasAbbreviation(schema, Current(argv, pos)) && IndexOf(schema, Current(argv, pos)) == i
    ensures IsFlag(schema, Current(argv, pos)) <==> schema[i].kind.Flag?
    ensures (IsNamedParameter(schema, Current(argv, pos)) || IsOptionallyNamedParameter(schema, Current(argv, pos)))
              <==> !schema[i].kind.Flag?
  {
    var c := Current(argv, pos);
    IndexOfUnique(schema, c, i);
    KindTestsAgreeWithIndexOf(schema, c);
    NotSpaceIsInside(argv, pos);
  }

  /** A character no spec carries ends the parse with `UnknownOption` naming it. */
  lemma ClusterUnknown(schema: seq<Spec>, argv: seq<CString>, pos: Position, store: Store)
    requires WellFormed(schema) && ValidPosition(argv, pos) && !Eof(argv, pos) && WellTyped(schema, store)
    requires !IsSpace(Current(argv, pos)) && !HasAbbreviation(schema, Current(argv, pos))
    ensures SingleDashStep(schema, argv, pos, store) == Return(UnknownOption(ShortOption(Current(argv, pos))), store)
  {
    KindTestsAgreeWithIndexOf(schema, Current(argv, pos));
  }

  // ---------------------------------------------------------------------------------
  // Long options `--name` and `--name=value`

  /** A name spec `k` carries resolves to `k`, whose kind the kind tests report. */
  lemma LongOptionName(schema: seq<Spec>, name: string, k: nat)
    requires WellFormed(schema) && k < |schema| && schema[k].name == name
    ensures AbbreviationOfName(schema, name) == Some(schema[k].abbreviation)
    ensures HasAbbreviation(schema, schema[k].abbreviation) && IndexOf(schema, schema[k].abbreviation) == k
    ensures IsFlag(schema, schema[k].abbreviation) <==> schema[k].kind.Flag?
  {
    AbbreviationOfNameResolves(schema, name);
    var a := AbbreviationOfName(schema, name).value;
    IndexOfUnique(schema, a, k);
    KindTestsAgreeWithIndexOf(schema, a);
  }

  /** `find('=')` reports the first `=`. */
  lemma FindFirst(s: string, e: nat)
    requires e < |s| && s[e] == '=' && forall k :: 0 <= k < e ==> s[k] != '='
    ensures FindFrom(s, '=', 0) == Some(e)
  {
  }

  /** The name of a long option is its text up to the first `=`, or all of it; a name
      no spec carries ends the parse with `UnknownOption` naming it. */
  lemma LongOptionUnknown(schema: seq<Spec>, argv: seq<CString>, pos: Position, store: Store, name: string)
    requires WellFormed(schema) && ValidPosition(argv, pos) && !Eof(argv, pos) && WellTyped(schema, store)
    requires pos.argumentIndex < |argv|
    requires var tail := ArgTail(argv, pos);
             |name| <= |tail| && name == tail[..|name|] && '=' !in name &&
             (|name| == |tail| || tail[|name|] == '=')
    requires forall k :: 0 <= k < |schema| ==> schema[k].name != name
    ensures DoubleDashStep(schema, argv, pos, store) == Return(UnknownOption(LongOption(name)), store)
  {
    var tail := ArgTail(argv, pos);
    if |name| < |tail| {
      FindFirst(tail, |name|);
    } else {
      assert tail == name;
    }
    AbbreviationOfNameResolves(schema, name);
  }

  /** `--name=value` for a known name: a flag gives `CannotSetValueOfFlag`, then an
      empty value gives `MissingArgument`; only then is the value stored. */
  lemma LongOptionWithValue(schema: seq<Spec>, argv: seq<CString>, pos: Position, store: Store, e: nat, k: nat)
    requires WellFormed(schema) && ValidPosition(argv, pos) && !Eof(argv, pos) && WellTyped(schema, store)
    requires pos.argumentIndex < |argv|
    requires var tail := ArgTail(argv, pos);
             e < |tail| && tail[e] == '=' && forall j :: 0 <= j < e ==> tail[j] != '='
    requires k < |schema| && schema[k].name == ArgTail(argv, pos)[..e]
    ensures var tail := ArgTail(argv, pos);
            DoubleDashStep(schema, argv, pos, store) ==
              if schema[k].kind.Flag? then Return(CannotSetValueOfFlag(tail[..e]), store)
              else if tail[e + 1..] == [] then Return(MissingArgument('\0'), store)
              else
                var stored := TryStoreAt(schema, store, k, tail[e + 1..]);
                if stored.0 then Continue(Config(ParserState.None, Position(pos.argumentIndex + 1, 0), stored.1))
                else Return(ArgumentTypeMismatch, stored.1)
  {
    var tail := ArgTail(argv, pos);
    FindFirst(tail, e);
    LongOptionName(schema, schema[k].name, k);
    var t := DoubleDashStep(schema, argv, pos, store);
    if schema[k].kind.Flag? {
      assert t == Return(CannotSetValueOfFlag(tail[..e]), store);
    } else if tail[e + 1..] == [] {
      assert t == Return(MissingArgument('\0'), store);
    } else {
      assert NextArgument(pos) == Position(pos.argumentIndex + 1, 0);
    }
  }

  /** `--name` for a known name: a flag is set; a parameter takes the whole next token,
      or gives `MissingArgument` when there is none. */
  lemma LongOptionWithoutValue(schema: seq<Spec>, argv: seq<CString>, pos: Position, store: Store, k: nat)
    requires WellFormed(schema) && ValidPosition(argv, pos) && !Eof(argv, pos) && WellTyped(schema, store)
    requires pos.argumentIndex < |argv|
    requires '=' !in ArgTail(argv, pos)
    requires k < |schema| && schema[k].name == ArgTail(argv, pos)
    ensures schema[k].kind.Flag? ==>
              DoubleDashStep(schema, argv, pos, store) ==
                Continue(Config(ParserState.None, Position(pos.argumentIndex + 1, 0), SetFlag(schema, store, k)))
    ensures !schema[k].kind.Flag? && Eof(argv, Position(pos.argumentIndex + 1, 0)) ==>
              DoubleDashStep(schema, argv, pos, store) == Return(MissingArgument('\0'), store)
    ensures !schema[k].kind.Flag? && !Eof(argv, Position(pos.argumentIndex + 1, 0)) ==>
              pos.argumentIndex + 1 < |argv| &&
              var stored := TryStoreAt(schema, store, k, argv[pos.argumentIndex + 1]);
              DoubleDashStep(schema, argv, pos, store) ==
                if stored.0 then Continue(Config(ParserState.None, Position(pos.argumentIndex + 2, 0), stored.1))
                else Return(ArgumentTypeMismatch, stored.1)
  {
    var name := ArgTail(argv, pos);
    assert FindFrom(name, '=', 0).None?;
    LongOptionName(schema, name, k);
    var nextArgument := NextArgument(pos);
    assert nextArgument == Position(pos.argumentIndex + 1, 0);
    if schema[k].kind.Flag? {
      assert DoubleDashStep(schema, argv, pos, store) ==
             Continue(Config(ParserState.None, nextArgument, SetFlag(schema, store, k)));
    } else if !Eof(argv, nextArgument) {
      assert ArgTail(argv, nextArgument) == argv[pos.argumentIndex + 1];
      assert NextArgument(nextArgument) == Position(pos.argumentIndex + 2, 0);
    }
  }


  // ---------------------------------------------------------------------------------
  // Tokens starting with `-` in state `None`

  /** A token `--` is the freestanding end of options: the loop moves past it into
      `AfterFreestandingDoubleDash`. A longer token starting `--` is a long option,
      read from its third character. */
  lemma DoubleDashToken(schema: seq<Spec>, argv: seq<CString>, cfg: Config)
    requires WellFormed(schema) && ValidConfig(schema, argv, cfg) && cfg.state == ParserState.None
    requires cfg.pos.argumentIndex < |argv| && cfg.pos.charOffset == 0
    requires var token := argv[cfg.pos.argumentIndex]; |token| >= 2 && token[0] == '-' && token[1] == '-'
    ensures !Eof(argv, cfg.pos)
    ensures var i := cfg.pos.argumentIndex;
            argv[i] == "--" ==>
              LoopBody(schema, argv, cfg) ==
                Continue(Config(AfterFreestandingDoubleDash,
                                if i + 1 < |argv| then Position(i + 1, 0) else Position(i, 2), cfg.store))
    ensures var i := cfg.pos.argumentIndex;
            |argv[i]| > 2 && !IsSpace(argv[i][2]) ==>
              LoopBody(schema, argv, cfg) == Continue(Config(DoubleDashArgument, Position(i, 2), cfg.store))
  {
    NotSpaceIsInside(argv, cfg.pos);
    NotSpaceIsInside(argv, Position(cfg.pos.argumentIndex, 1));
  }

  /** A lone `-` is a bare token with the value `"-"`, stored like any other; the cursor
      then moves one character only, onto the end of the token. */
  lemma LoneDash(schema: seq<Spec>, argv: seq<CString>, cfg: Config, k: nat)
    requires WellFormed(schema) && ValidConfig(schema, argv, cfg) && cfg.state == ParserState.None
    requires cfg.pos.argumentIndex < |argv| && cfg.pos.charOffset == 0 && argv[cfg.pos.argumentIndex] == "-"
    requires k < |schema| && schema[k].kind.OptionallyNamed? && !cfg.store.found[k]
    requires forall j :: 0 <= j < k && schema[j].kind.OptionallyNamed? ==> cfg.store.found[j]
    ensures !Eof(argv, cfg.pos)
    ensures var stored := TryStoreAt(schema, cfg.store, k, "-");
            LoopBody(schema, argv, cfg) ==
              if stored.0 then Continue(Config(ParserState.None, Position(cfg.pos.argumentIndex, 1), stored.1))
              else Return(ArgumentTypeMismatch, stored.1)
  {
    NotSpaceIsInside(argv, cfg.pos);
    FirstUnseenIs(schema, cfg.store.found, k);
    IndexOfUnique(schema, schema[k].abbreviation, k);
  }

  /** A lone `-` when every optionally-named spec has been found is one bare token too
      many: the parse ends with `ExcessUnnamedArguments` and the store untouched. */
  lemma LoneDashExcess(schema: seq<Spec>, argv: seq<CString>, cfg: Config)
    requires WellFormed(schema) && ValidConfig(schema, argv, cfg) && cfg.state == ParserState.None
    requires cfg.pos.argumentIndex < |argv| && cfg.pos.charOffset == 0 && argv[cfg.pos.argumentIndex] == "-"
    requires forall j :: 0 <= j < |schema| && schema[j].kind.OptionallyNamed? ==> cfg.store.found[j]
    ensures !Eof(argv, cfg.pos)
    ensures LoopBody(schema, argv, cfg) == Return(ExcessUnnamedArguments, cfg.store)
  {
    NotSpaceIsInside(argv, cfg.pos);
    FirstUnseenIndex(schema, cfg.store.found);
  }

  // ---------------------------------------------------------------------------------
  // Where the source's loop never ends

  /** In state `None`, whitespace under the cursor before the end of input stops the
      loop for good: the source repeats that pass forever. This is what an empty token
      that is not the last one, or a token starting with whitespace, leads to. */
  lemma SpaceInStateNoneDiverges(schema: seq<Spec>, argv: seq<CString>, cfg: Config)
    requires WellFormed(schema) && ValidConfig(schema, argv, cfg) && !Eof(argv, cfg.pos)
    requires cfg.state == ParserState.None && IsSpace(Current(argv, cfg.pos))
    ensures Run(schema, argv, cfg) == Diverges(cfg.store)
  {
    RunUnfolds(schema, argv, cfg);
    StuckOnlyOnSpace(schema, argv, cfg);
  }

  /** A lone `-` that is not the last token, once stored, leaves the loop stuck on its end. */
  lemma LoneDashBeforeLastDiverges(schema: seq<Spec>, argv: seq<CString>, cfg: Config, k: nat)
    requires WellFormed(schema) && ValidConfig(schema, argv, cfg) && cfg.state == ParserState.None
    requires cfg.pos.argumentIndex < |argv| - 1 && cfg.pos.charOffset == 0 && argv[cfg.pos.argumentIndex] == "-"
    requires k < |schema| && schema[k].kind.OptionallyNamed? && !cfg.store.found[k]
    requires forall j :: 0 <= j < k && schema[j].kind.OptionallyNamed? ==> cfg.store.found[j]
    requires Convert(schema[k].kind.valueType, "-").Some?
    ensures Run(schema, argv, cfg) == Diverges(TryStoreAt(schema, cfg.store, k, "-").1)
  {
    LoneDash(schema, argv, cfg, k);
    RunUnfolds(schema, argv, cfg);
    var next := LoopBody(schema, argv, cfg).next;
    SpaceInStateNoneDiverges(schema, argv, next);
  }

  /** The smallest such input: an empty token before another one, whatever the schema. */
  lemma EmptyMiddleTokenDiverges(schema: seq<Spec>, store: Store)
    requires WellFormed(schema) && WellTyped(schema, store)
    ensures Parse(schema, ["a.out", "", "x"], NothingParsedYet, store) == Diverges(store)
  {
    SpaceInStateNoneDiverges(schema, ["a.out", "", "x"], Start(store));
  }

  // ---------------------------------------------------------------------------------
  // When the loop ends

  /** Inputs on which the loop always ends: no token holds whitespace, and no token
      before the last is empty or a lone `-`. */
  predicate Tame(argv: seq<CString>)
  {
    (forall k :: 1 <= k < |argv| - 1 ==> argv[k] != [] && argv[k] != "-") &&
    (forall k, j :: 1 <= k < |argv| && 0 <= j < |argv[k]| ==> !IsSpace(argv[k][j]))
  }

  /** In state `None` the cursor is at the start of a token, or at the end of input. */
  predicate AtTokenStart(argv: seq<CString>, cfg: Config)
    requires ValidPosition(argv, cfg.pos)
  {
    cfg.state == ParserState.None ==> Eof(argv, cfg.pos) || cfg.pos.charOffset == 0
  }

  lemma TameNoneStep(schema: seq<Spec>, argv: seq<CString>, cfg: Config)
    requires WellFormed(schema) && ValidConfig(schema, argv, cfg) && !Eof(argv, cfg.pos) && Tame(argv)
    requires cfg.state == ParserState.None && cfg.pos.charOffset == 0
    ensures !IsSpace(Current(argv, cfg.pos))
    ensures LoopBody(schema, argv, cfg).Continue? ==> AtTokenStart(argv, LoopBody(schema, argv, cfg).next)
  {
    var i := cfg.pos.argumentIndex;
    assert argv[i] != [];
    if argv[i][0] == '-' {
      NotSpaceIsInside(argv, cfg.pos);
      if |argv[i]| == 1 {
        assert argv[i] == "-";
        assert Eof(argv, Position(i, 1));
      }
    }
  }

  lemma TameSingleDashStep(schema: seq<Spec>, argv: seq<CString>, cfg: Config)
    requires WellFormed(schema) && ValidConfig(schema, argv, cfg) && !Eof(argv, cfg.pos) && Tame(argv)
    requires cfg.state == SingleDashArguments
    ensures LoopBody(schema, argv, cfg).Continue? ==> AtTokenStart(argv, LoopBody(schema, argv, cfg).next)
  {
    var i := cfg.pos.argumentIndex;
    if IsSpace(Current(argv, cfg.pos)) {
      assert cfg.pos.charOffset == |argv[i]|;
    }
  }

  /** On a tame input every pass moves the cursor, and the cursor is at a token start
      whenever the state is `None`. */
  lemma TameStep(schema: seq<Spec>, argv: seq<CString>, cfg: Config)
    requires WellFormed(schema) && ValidConfig(schema, argv, cfg) && !Eof(argv, cfg.pos)
    requires Tame(argv) && AtTokenStart(argv, cfg)
    ensures var t := LoopBody(schema, argv, cfg);
            t.Continue? ==> t.next.pos != cfg.pos && AtTokenStart(argv, t.next)
  {
    StuckOnlyOnSpace(schema, argv, cfg);
    match cfg.state
    case None => TameNoneStep(schema, argv, cfg);
    case SingleDashArguments => TameSingleDashStep(schema, argv, cfg);
    case DoubleDashArgument =>
    case AfterFreestandingDoubleDash =>
  }

  lemma {:induction false} TameRunFinishes(schema: seq<Spec>, argv: seq<CString>, cfg: Config)
    requires WellFormed(schema) && ValidConfig(schema, argv, cfg)
    requires Tame(argv) && AtTokenStart(argv, cfg)
    ensures Run(schema, argv, cfg).Finished?
    decreases |argv| - cfg.pos.argumentIndex, CharsLeft(argv, cfg.pos)
  {
    if !Eof(argv, cfg.pos) {
      RunUnfolds(schema, argv, cfg);
      TameStep(schema, argv, cfg);
      var t := LoopBody(schema, argv, cfg);
      if t.Continue? {
        TameRunFinishes(schema, argv, t.next);
      }
    }
  }

  /** On a tame input `parse` always comes back, with `Okay` or an error. */
  lemma ParseFinishesOnTameInput(schema: seq<Spec>, argv: seq<CString>, store: Store)
    requires WellFormed(schema) && |argv| >= 1 && WellTyped(schema, store) && Tame(argv)
    ensures Parse(schema, argv, NothingParsedYet, store).Finished?
  {
    TameRunFinishes(schema, argv, Start(store));
  }
}
