/**
 * The parser's state machine as functions of the loop's state: the result taxonomy,
 * the four parser states, one function per handler, the loop body, the loop itself
 * (`Run`) and `parse` with its re-parse guard (`Parse`). The class `Parser` is proved
 * to end in the state these functions compute.
 */
module Machine {
  import opened Wrappers
  import opened Cursor
  import opened Schema
  import opened Conversion
  import opened ValueStore

  /** The option `UnknownOption` names: a character from a cluster, a string from a
      long option. */
  datatype OptionName = ShortOption(abbreviation: char) | LongOption(name: string)

  /** `ParseResult`. `MissingArgument` carries `'\0'` when it comes from a long option. */
  datatype ParseResult =
    | Okay
    | NothingParsedYet
    | MissingArgument(abbreviation: char)
    | UnknownOption(option: OptionName)
    | CannotParseAgain
    | ExcessUnnamedArguments
    | CannotSetValueOfFlag(flagName: string)
    | ArgumentTypeMismatch

  /** The results a run of the loop can stop with when it returns early. */
  predicate IsError(result: ParseResult)
  {
    !result.Okay? && !result.NothingParsedYet? && !result.CannotParseAgain?
  }

  datatype ParserState = SingleDashArguments | DoubleDashArgument | AfterFreestandingDoubleDash | None

  /** The loop's state: the parser state, the cursor and the store. */
  datatype Config = Config(state: ParserState, pos: Position, store: Store)

  /** One pass of the loop body: the loop goes on from `next`, or `parse` returns
      having written `result`. */
  datatype Transition = Continue(next: Config) | Return(result: ParseResult, store: Store)

  /** What a call of `parse` ends with. `Diverges` is a loop the source never leaves:
      the body no longer changes anything; `store` is what it holds meanwhile. */
  datatype Outcome = Finished(result: ParseResult, store: Store) | Diverges(store: Store)

  predicate ValidConfig(schema: seq<Spec>, argv: seq<CString>, cfg: Config)
  {
    ValidPosition(argv, cfg.pos) && WellTyped(schema, cfg.store)
  }

  /** What every handler guarantees: going on, it leaves a valid state further on in
      the input; returning, it has written an error. */
  predicate Progresses(schema: seq<Spec>, argv: seq<CString>, cfg: Config, t: Transition)
  {
    match t
    case Continue(next) => ValidConfig(schema, argv, next) && Before(cfg.pos, next.pos)
    case Return(result, store) => WellTyped(schema, store) && IsError(result)
  }

  /** `std::string_view::find(c)` from `offset` on. */
  function FindFrom(s: string, c: char, offset: nat): (r: Option<nat>)
    requires offset <= |s|
    ensures r.None? <==> forall k :: offset <= k < |s| ==> s[k] != c
    ensures r.Some? ==> offset <= r.value < |s| && s[r.value] == c &&
                        forall k :: offset <= k < r.value ==> s[k] != c
    decreases |s| - offset
  {
    if offset == |s| then Option.None
    else if s[offset] == c then Some(offset)
    else FindFrom(s, c, offset + 1)
  }

  /** `handle_unnamed_argument`: the rest of the current argument goes to the first
      optionally-named spec not found yet, and the cursor moves to the next argument.
      The parser state is left as it was. */
  function UnnamedArgumentStep(schema: seq<Spec>, argv: seq<CString>, state: ParserState, pos: Position, store: Store): (t: Transition)
    requires WellFormed(schema) && ValidPosition(argv, pos) && pos.argumentIndex < |argv| && WellTyped(schema, store)
    ensures Progresses(schema, argv, Config(state, pos, store), t)
    ensures t.Continue? ==> t.next.state == state
  {
    var argument := ArgTail(argv, pos);
    var abbreviation := FirstUnseenOptionallyNamed(schema, store.found);
    if abbreviation.None? then Return(ExcessUnnamedArguments, store)
    else
      FirstUnseenIndex(schema, store.found);
      var index := IndexOf(schema, abbreviation.value);
      var (success, stored) := TryStoreAt(schema, store, index, argument);
      if !success then Return(ArgumentTypeMismatch, stored)
      else Continue(Config(state, NextArgument(pos), stored))
  }

  /** `handle_single_dash_arguments`: one character of a `-xyz` cluster. */
  function SingleDashStep(schema: seq<Spec>, argv: seq<CString>, pos: Position, store: Store): (t: Transition)
    requires WellFormed(schema) && ValidPosition(argv, pos) && !Eof(argv, pos) && WellTyped(schema, store)
    ensures Progresses(schema, argv, Config(SingleDashArguments, pos, store), t)
  {
    var c := Current(argv, pos);
    KindTestsAgreeWithIndexOf(schema, c);
    if IsSpace(c) then Continue(Config(ParserState.None, Advanced(argv, pos), store))
    else if IsFlag(schema, c) then
      var index := IndexOf(schema, c);
      Continue(Config(SingleDashArguments, Advanced(argv, pos), SetFlag(schema, store, index)))
    else if IsNamedParameter(schema, c) || IsOptionallyNamedParameter(schema, c) then
      NotSpaceIsInside(argv, pos);
      var afterAbbreviation := Advanced(argv, pos);
      var tail := ArgTail(argv, afterAbbreviation);
      var index := IndexOf(schema, c);
      if tail == [] then
        var nextArgument := NextArgument(afterAbbreviation);
        if Eof(argv, nextArgument) then Return(MissingArgument(c), store)
        else
          var (success, stored) := TryStoreAt(schema, store, index, ArgTail(argv, nextArgument));
          if !success then Return(ArgumentTypeMismatch, stored)
          else Continue(Config(ParserState.None, NextArgument(nextArgument), stored))
      else
        var (success, stored) := TryStoreAt(schema, store, index, tail);
        if !success then Return(ArgumentTypeMismatch, stored)
        else Continue(Config(ParserState.None, NextArgument(afterAbbreviation), stored))
    else Return(UnknownOption(ShortOption(c)), store)
  }

  /** `handle_double_dash_argument`: a `--name` or `--name=value` token, read from just
      after its two dashes. */
  function DoubleDashStep(schema: seq<Spec>, argv: seq<CString>, pos: Position, store: Store): (t: Transition)
    requires WellFormed(schema) && ValidPosition(argv, pos) && !Eof(argv, pos) && WellTyped(schema, store)
    ensures Progresses(schema, argv, Config(DoubleDashArgument, pos, store), t)
  {
    var tail := ArgTail(argv, pos);
    var equals := FindFrom(tail, '=', 0);
    if equals.Some? then
      var parameter := tail[..equals.value];
      var abbreviation := AbbreviationOfName(schema, parameter);
      if abbreviation.None? then Return(UnknownOption(LongOption(parameter)), store)
      else
        AbbreviationOfNameResolves(schema, parameter);
        KindTestsAgreeWithIndexOf(schema, abbreviation.value);
        if IsFlag(schema, abbreviation.value) then Return(CannotSetValueOfFlag(parameter), store)
        else
          var argument := tail[equals.value + 1..];
          if argument == [] then Return(MissingArgument('\0'), store)
          else
            var index := IndexOf(schema, abbreviation.value);
            var (success, stored) := TryStoreAt(schema, store, index, argument);
            if !success then Return(ArgumentTypeMismatch, stored)
            else Continue(Config(ParserState.None, NextArgument(pos), stored))
    else
      var abbreviation := AbbreviationOfName(schema, tail);
      if abbreviation.None? then Return(UnknownOption(LongOption(tail)), store)
      else
        AbbreviationOfNameResolves(schema, tail);
        KindTestsAgreeWithIndexOf(schema, abbreviation.value);
        var index := IndexOf(schema, abbreviation.value);
        if IsFlag(schema, abbreviation.value) then
          Continue(Config(ParserState.None, NextArgument(pos), SetFlag(schema, store, index)))
        else
          var nextArgument := NextArgument(pos);
          if Eof(argv, nextArgument) then Return(MissingArgument('\0'), store)
          else
            var (success, stored) := TryStoreAt(schema, store, index, ArgTail(argv, nextArgument));
            if !success then Return(ArgumentTypeMismatch, stored)
            else Continue(Config(ParserState.None, NextArgument(nextArgument), stored))
  }

  /** The `None` case of `parse`'s switch: classify the token under the cursor. On
      whitespace it does nothing at all, so the loop stays where it is. */
  function NoneStep(schema: seq<Spec>, argv: seq<CString>, pos: Position, store: Store): (t: Transition)
    requires WellFormed(schema) && ValidPosition(argv, pos) && !Eof(argv, pos) && WellTyped(schema, store)
    ensures t.Continue? && t.next.pos == pos ==> t.next == Config(ParserState.None, pos, store)
    ensures t.Continue? && t.next.pos != pos ==> Progresses(schema, argv, Config(ParserState.None, pos, store), t)
    ensures t.Return? ==> Progresses(schema, argv, Config(ParserState.None, pos, store), t)
  {
    var c := Current(argv, pos);
    if c == '-' then
      NotSpaceIsInside(argv, pos);
      var next := Peek(argv, pos);
      if next == '-' then
        var secondDash := Advanced(argv, pos);
        NotSpaceIsInside(argv, secondDash);
        if IsSpace(Peek(argv, secondDash)) then
          Continue(Config(AfterFreestandingDoubleDash, Advanced(argv, Advanced(argv, secondDash)), store))
        else
          Continue(Config(DoubleDashArgument, Advanced(argv, secondDash), store))
      else if IsSpace(next) then
        var abbreviation := FirstUnseenOptionallyNamed(schema, store.found);
        if abbreviation.None? then Return(ExcessUnnamedArguments, store)
        else
          FirstUnseenIndex(schema, store.found);
          var index := IndexOf(schema, abbreviation.value);
          var (success, stored) := TryStoreAt(schema, store, index, "-");
          if !success then Return(ArgumentTypeMismatch, stored)
          else Continue(Config(ParserState.None, Advanced(argv, pos), stored))
      else
        Continue(Config(SingleDashArguments, Advanced(argv, pos), store))
    else if !IsSpace(c) then
      UnnamedArgumentStep(schema, argv, ParserState.None, pos, store)
    else
      Continue(Config(ParserState.None, pos, store))
  }

  /** One pass of `while (not data.eof())`: the switch on the parser state. A pass that
      leaves the cursor where it was changes nothing at all. */
  function LoopBody(schema: seq<Spec>, argv: seq<CString>, cfg: Config): (t: Transition)
    requires WellFormed(schema) && ValidConfig(schema, argv, cfg) && !Eof(argv, cfg.pos)
    ensures t.Continue? && t.next.pos == cfg.pos ==> t.next == cfg
    ensures t.Continue? && t.next.pos != cfg.pos ==> Progresses(schema, argv, cfg, t)
    ensures t.Return? ==> Progresses(schema, argv, cfg, t)
  {
    match cfg.state
    case None => NoneStep(schema, argv, cfg.pos, cfg.store)
    case SingleDashArguments => SingleDashStep(schema, argv, cfg.pos, cfg.store)
    case DoubleDashArgument => DoubleDashStep(schema, argv, cfg.pos, cfg.store)
    case AfterFreestandingDoubleDash => UnnamedArgumentStep(schema, argv, cfg.state, cfg.pos, cfg.store)
  }

  /** What is left of the current argument; with the argument index it bounds the loop. */
  function CharsLeft(argv: seq<CString>, p: Position): nat
    requires ValidPosition(argv, p)
  {
    if p.argumentIndex < |argv| then |argv[p.argumentIndex]| - p.charOffset else 0
  }

  /** The loop of `parse` from `cfg`: `Okay` once the cursor is at end of input, the
      error a handler wrote when it returns early, or `Diverges` when a pass leaves
      everything as it was, after which the source repeats that pass forever. */
  function Run(schema: seq<Spec>, argv: seq<CString>, cfg: Config): (r: Outcome)
    requires WellFormed(schema) && ValidConfig(schema, argv, cfg)
    ensures WellTyped(schema, r.store)
    ensures r.Finished? ==> r.result.Okay? || IsError(r.result)
    decreases |argv| - cfg.pos.argumentIndex, CharsLeft(argv, cfg.pos)
  {
    if Eof(argv, cfg.pos) then Finished(Okay, cfg.store)
    else
      match LoopBody(schema, argv, cfg)
      case Return(result, store) => Finished(result, store)
      case Continue(next) =>
        if next.pos == cfg.pos then Diverges(cfg.store)
        else Run(schema, argv, next)
  }

  /** One pass of the loop, as `Run` takes it. */
  lemma RunUnfolds(schema: seq<Spec>, argv: seq<CString>, cfg: Config)
    requires WellFormed(schema) && ValidConfig(schema, argv, cfg) && !Eof(argv, cfg.pos)
    ensures LoopBody(schema, argv, cfg).Return? ==>
              Run(schema, argv, cfg) == Finished(LoopBody(schema, argv, cfg).result, LoopBody(schema, argv, cfg).store)
    ensures LoopBody(schema, argv, cfg).Continue? && LoopBody(schema, argv, cfg).next.pos == cfg.pos ==>
              Run(schema, argv, cfg) == Diverges(cfg.store)
    ensures LoopBody(schema, argv, cfg).Continue? && LoopBody(schema, argv, cfg).next.pos != cfg.pos ==>
              Run(schema, argv, cfg) == Run(schema, argv, LoopBody(schema, argv, cfg).next)
  {
  }

  /** Where `parse` starts: state `None`, argument 1, offset 0. */
  function Start(store: Store): Config
  {
    Config(ParserState.None, Position(1, 0), store)
  }

  /** `parse(argv)` on a parser holding `result` and `store`: a second call only
      overwrites the result with `CannotParseAgain`; the first runs the loop. */
  function Parse(schema: seq<Spec>, argv: seq<CString>, result: ParseResult, store: Store): (r: Outcome)
    requires WellFormed(schema) && |argv| >= 1 && WellTyped(schema, store)
    ensures !result.NothingParsedYet? ==> r == Finished(CannotParseAgain, store)
    ensures result.NothingParsedYet? && r.Finished? ==> r.result.Okay? || IsError(r.result)
  {
    if !result.NothingParsedYet? then Finished(CannotParseAgain, store)
    else Run(schema, argv, Start(store))
  }
}
