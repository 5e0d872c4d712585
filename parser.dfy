/**
 * The class `Parser`: the store (`m_values`, `m_arguments_found`), the result
 * (`m_parse_result`), and the methods that update them in place. Each method is
 * proved to end in the state the functions of module `Machine` compute.
 */
module Arguably {
  import opened Wrappers
  import opened Cursor
  import opened Schema
  import opened Conversion
  import opened ValueStore
  import opened Machine

  class Parser {
    const schema: seq<Spec>
    var values: seq<Value>
    const found: array<bool>
    var parseResult: ParseResult

    /** The store as a value. */
    function Snapshot(): Store
      reads this, found
    {
      Store(values, found[..])
    }

    ghost predicate Valid()
      reads this, found
    {
      WellFormed(schema) && found.Length == |schema| && WellTyped(schema, Snapshot())
    }

    /** What `ParserBuilder::create` hands over: the schema and its defaults; nothing is
        found and nothing parsed yet. */
    constructor (schema: seq<Spec>, defaults: seq<Value>)
      requires WellFormed(schema) && DefaultsFit(schema, defaults)
      ensures Valid() && fresh(found)
      ensures this.schema == schema && Snapshot() == InitialStore(schema, defaults)
      ensures parseResult == NothingParsedYet
    {
      this.schema := schema;
      values := defaults;
      found := new bool[|schema|](_ => false);
      parseResult := NothingParsedYet;
    }

    /** `operator bool`. */
    function IsOkay(): (ok: bool)
      reads this
      ensures ok <==> parseResult == Okay
    {
      parseResult.Okay?
    }

    /** `was_provided<Abbreviation>()`: whether the spec with this abbreviation was given
        on the command line (the source rejects an unknown abbreviation at compile time). */
    function WasProvided(abbreviation: char): (provided: bool)
      reads this, found
      requires Valid() && HasAbbreviation(schema, abbreviation)
      ensures provided <==>
                exists i :: 0 <= i < |schema| && schema[i].abbreviation == abbreviation && found[i]
    {
      var i := IndexOf(schema, abbreviation);
      assert forall k :: 0 <= k < |schema| && schema[k].abbreviation == abbreviation ==> k == i by {
        forall k | 0 <= k < |schema| && schema[k].abbreviation == abbreviation ensures k == i {
          IndexOfUnique(schema, abbreviation, k);
        }
      }
      found[i]
    }

    /** `get<Abbreviation>()`: the value of the spec with this abbreviation, which has the
        spec's declared type. */
    function Get(abbreviation: char): (v: Value)
      reads this, found
      requires Valid() && HasAbbreviation(schema, abbreviation)
      ensures exists i :: 0 <= i < |schema| && schema[i].abbreviation == abbreviation &&
                          v == values[i] && HasType(v, schema[i].kind)
    {
      values[IndexOf(schema, abbreviation)]
    }

    /** `store_at_impl`: convert the text to the spec's type and, if that works, write it. */
    method StoreAt(index: nat, text: string) returns (success: bool)
      requires index < |values| && index < |schema| && !schema[index].kind.Flag?
      modifies this`values
      ensures success <==> Convert(schema[index].kind.valueType, text).Some?
      ensures values == if success then old(values)[index := Convert(schema[index].kind.valueType, text).value]
                        else old(values)
    {
      var converted := Convert(schema[index].kind.valueType, text);
      if converted.None? {
        return false;
      }
      values := values[index := converted.value];
      return true;
    }

    /** `try_store_at`: mark the spec found, then store; a failed conversion writes
        `ArgumentTypeMismatch`. */
    method TryStoreAt(index: nat, text: string) returns (success: bool)
      requires Valid() && index < |schema| && !schema[index].kind.Flag?
      modifies this, found
      ensures Valid()
      ensures (success, Snapshot()) == ValueStore.TryStoreAt(schema, old(Snapshot()), index, text)
      ensures parseResult == if success then old(parseResult) else ArgumentTypeMismatch
    {
      found[index] := true;
      success := StoreAt(index, text);
      if !success {
        parseResult := ArgumentTypeMismatch;
      }
    }

    /** `set_flag`. */
    method SetFlag(index: nat)
      requires Valid() && index < |schema| && schema[index].kind.Flag?
      modifies this, found
      ensures Valid()
      ensures Snapshot() == ValueStore.SetFlag(schema, old(Snapshot()), index)
      ensures parseResult == old(parseResult)
    {
      found[index] := true;
      values := values[index := BoolValue(true)];
    }

    /** The parser's fields and the cursor agree with transition `t`: the loop goes on
        in `state`, or the handler returned false having written the result. */
    ghost predicate Reached(t: Transition, ok: bool, state: ParserState, data: ArgumentsView)
      reads this, found, data
    {
      match t
      case Continue(next) =>
        ok && next == Config(state, data.Pos(), Snapshot()) && parseResult == NothingParsedYet
      case Return(result, store) =>
        !ok && parseResult == result && Snapshot() == store
    }

    /** `handle_unnamed_argument`; `state` is the caller's, which it leaves alone. */
    method HandleUnnamedArgument(data: ArgumentsView, ghost state: ParserState) returns (ok: bool)
      requires Valid() && data.Valid() && data.argumentIndex < |data.argv|
      requires parseResult == NothingParsedYet
      modifies this, found, data
      ensures Valid()
      ensures Reached(UnnamedArgumentStep(schema, data.argv, state, old(data.Pos()), old(Snapshot())), ok, state, data)
    {
      var argument := ArgTail(data.argv, data.Pos());
      var abbreviation := FirstUnseenOptionallyNamed(schema, found[..]);
      if abbreviation.None? {
        parseResult := ExcessUnnamedArguments;
        return false;
      }
      FirstUnseenIndex(schema, found[..]);
      var index := IndexOf(schema, abbreviation.value);
      var stored := TryStoreAt(index, argument);
      if !stored {
        return false;
      }
      data.NextArg();
      return true;
    }

    /** `handle_single_dash_arguments`. */
    method HandleSingleDashArguments(data: ArgumentsView) returns (ok: bool, state: ParserState)
      requires Valid() && data.Valid() && !Eof(data.argv, data.Pos())
      requires parseResult == NothingParsedYet
      modifies this, found, data
      ensures Valid()
      ensures Reached(SingleDashStep(schema, data.argv, old(data.Pos()), old(Snapshot())), ok, state, data)
    {
      state := SingleDashArguments;
      var c := Current(data.argv, data.Pos());
      KindTestsAgreeWithIndexOf(schema, c);
      if IsSpace(c) {
        state := ParserState.None;
        data.Advance();
        return true, state;
      }
      if IsFlag(schema, c) {
        var index := IndexOf(schema, c);
        SetFlag(index);
        data.Advance();
      } else if IsNamedParameter(schema, c) || IsOptionallyNamedParameter(schema, c) {
        NotSpaceIsInside(data.argv, data.Pos());
        var parameterAbbreviation := data.Consume();
        var tail := ArgTail(data.argv, data.Pos());
        var index := IndexOf(schema, parameterAbbreviation);
        if tail == [] {
          data.NextArg();
          if Eof(data.argv, data.Pos()) {
            parseResult := MissingArgument(parameterAbbreviation);
            return false, state;
          }
          var argument := ArgTail(data.argv, data.Pos());
          var stored := TryStoreAt(index, argument);
          if !stored {
            return false, state;
          }
        } else {
          var stored := TryStoreAt(index, tail);
          if !stored {
            return false, state;
          }
        }
        data.NextArg();
        state := ParserState.None;
      } else {
        parseResult := UnknownOption(ShortOption(c));
        return false, state;
      }
      return true, state;
    }

    /** `handle_double_dash_argument`. */
    method HandleDoubleDashArgument(data: ArgumentsView) returns (ok: bool, state: ParserState)
      requires Valid() && data.Valid() && !Eof(data.argv, data.Pos())
      requires parseResult == NothingParsedYet
      modifies this, found, data
      ensures Valid()
      ensures Reached(DoubleDashStep(schema, data.argv, old(data.Pos()), old(Snapshot())), ok, state, data)
    {
      var argTail := ArgTail(data.argv, data.Pos());
      var equalsIndex := FindFrom(argTail, '=', 0);
      if equalsIndex.Some? {
        ok, state := HandleLongOptionWithValue(data, equalsIndex.value);
      } else {
        ok, state := HandleLongOptionWithoutValue(data);
      }
    }

    /** `handle_double_dash_argument` on a `--name=value` token. */
    method HandleLongOptionWithValue(data: ArgumentsView, equalsIndex: nat) returns (ok: bool, state: ParserState)
      requires Valid() && data.Valid() && !Eof(data.argv, data.Pos())
      requires FindFrom(ArgTail(data.argv, data.Pos()), '=', 0) == Some(equalsIndex)
      requires parseResult == NothingParsedYet
      modifies this, found, data
      ensures Valid()
      ensures Reached(DoubleDashStep(schema, data.argv, old(data.Pos()), old(Snapshot())), ok, state, data)
    {
      ghost var t := DoubleDashStep(schema, data.argv, data.Pos(), Snapshot());
      state := DoubleDashArgument;
      var argTail := ArgTail(data.argv, data.Pos());
      var parameter := argTail[..equalsIndex];
      var abbreviation := AbbreviationOfName(schema, parameter);
      if abbreviation.None? {
        assert t == Return(UnknownOption(LongOption(parameter)), Snapshot());
        parseResult := UnknownOption(LongOption(parameter));
        return false, state;
      }
      AbbreviationOfNameResolves(schema, parameter);
      KindTestsAgreeWithIndexOf(schema, abbreviation.value);
      if IsFlag(schema, abbreviation.value) {
        assert t == Return(CannotSetValueOfFlag(parameter), Snapshot());
        parseResult := CannotSetValueOfFlag(parameter);
        return false, state;
      }
      var argument := argTail[equalsIndex + 1..];
      if argument == [] {
        assert t == Return(MissingArgument('\0'), Snapshot());
        parseResult := MissingArgument('\0');
        return false, state;
      }
      var index := IndexOf(schema, abbreviation.value);
      ghost var r := ValueStore.TryStoreAt(schema, Snapshot(), index, argument);
      assert t == if r.0 then Continue(Config(ParserState.None, NextArgument(data.Pos()), r.1))
                  else Return(ArgumentTypeMismatch, r.1);
      var stored := TryStoreAt(index, argument);
      if !stored {
        return false, state;
      }
      data.NextArg();
      state := ParserState.None;
      return true, state;
    }

    /** `handle_double_dash_argument` on a `--name` token: a flag is set, any other
        spec takes the whole next argument. */
    method HandleLongOptionWithoutValue(data: ArgumentsView) returns (ok: bool, state: ParserState)
      requires Valid() && data.Valid() && !Eof(data.argv, data.Pos())
      requires FindFrom(ArgTail(data.argv, data.Pos()), '=', 0).None?
      requires parseResult == NothingParsedYet
      modifies this, found, data
      ensures Valid()
      ensures Reached(DoubleDashStep(schema, data.argv, old(data.Pos()), old(Snapshot())), ok, state, data)
    {
      state := DoubleDashArgument;
      var parameter := ArgTail(data.argv, data.Pos());
      var abbreviation := AbbreviationOfName(schema, parameter);
      if abbreviation.None? {
        parseResult := UnknownOption(LongOption(parameter));
        return false, state;
      }
      AbbreviationOfNameResolves(schema, parameter);
      KindTestsAgreeWithIndexOf(schema, abbreviation.value);
      if IsFlag(schema, abbreviation.value) {
        var index := IndexOf(schema, abbreviation.value);
        SetFlag(index);
      } else {
        data.NextArg();
        if Eof(data.argv, data.Pos()) {
          parseResult := MissingArgument('\0');
          return false, state;
        }
        var argument := ArgTail(data.argv, data.Pos());
        var index := IndexOf(schema, abbreviation.value);
        var stored := TryStoreAt(index, argument);
        if !stored {
          return false, state;
        }
      }
      data.NextArg();
      state := ParserState.None;
      return true, state;
    }

    /** The `None` case of `parse`'s switch: a token starting `--`, `-` or neither. On
        whitespace it changes nothing and leaves the cursor where it was. */
    method ClassifyToken(data: ArgumentsView) returns (ok: bool, state: ParserState)
      requires Valid() && data.Valid() && !Eof(data.argv, data.Pos())
      requires parseResult == NothingParsedYet
      modifies this, found, data
      ensures Valid()
      ensures Reached(NoneStep(schema, data.argv, old(data.Pos()), old(Snapshot())), ok, state, data)
    {
      state := ParserState.None;
      var c := Current(data.argv, data.Pos());
      if c == '-' {
        NotSpaceIsInside(data.argv, data.Pos());
        var next := Peek(data.argv, data.Pos());
        if next == '-' {
          state := DoubleDashArgument;
          data.Advance();
          NotSpaceIsInside(data.argv, data.Pos());
          if IsSpace(Peek(data.argv, data.Pos())) {
            state := AfterFreestandingDoubleDash;
            data.Advance();
            data.Advance();
          } else {
            data.Advance();
          }
        } else if IsSpace(next) {
          var abbreviation := FirstUnseenOptionallyNamed(schema, found[..]);
          if abbreviation.None? {
            parseResult := ExcessUnnamedArguments;
            return false, state;
          }
          FirstUnseenIndex(schema, found[..]);
          var index := IndexOf(schema, abbreviation.value);
          var stored := TryStoreAt(index, "-");
          if !stored {
            return false, state;
          }
          data.Advance();
        } else {
          state := SingleDashArguments;
          data.Advance();
        }
      } else if !IsSpace(c) {
        ok := HandleUnnamedArgument(data, state);
        return ok, state;
      }
      return true, state;
    }

    /** `parse(argv)`. It ends in the state `Machine.Parse` describes. Where the source
        would repeat a pass that changes nothing forever, this method returns instead,
        with the result still `NothingParsedYet`: that is the `Diverges` outcome. */
    method Parse(argv: seq<CString>)
      requires Valid() && |argv| >= 1
      modifies this, found
      ensures Valid()
      ensures var r := Machine.Parse(schema, argv, old(parseResult), old(Snapshot()));
              Snapshot() == r.store &&
              parseResult == (if r.Finished? then r.result else NothingParsedYet)
    {
      if !parseResult.NothingParsedYet? {
        parseResult := CannotParseAgain;
        return;
      }
      var data := new ArgumentsView(argv);
      var state := ParserState.None;
      ghost var start := Start(Snapshot());
      while !Eof(data.argv, data.Pos())
        invariant Valid() && data.Valid() && data.argv == argv
        invariant parseResult == NothingParsedYet
        invariant Run(schema, argv, Config(state, data.Pos(), Snapshot())) == Run(schema, argv, start)
        decreases |argv| - data.argumentIndex, CharsLeft(argv, data.Pos())
      {
        ghost var cfg := Config(state, data.Pos(), Snapshot());
        var before := data.Pos();
        var ok;
        match state {
          case None =>
            ok, state := ClassifyToken(data);
          case SingleDashArguments =>
            ok, state := HandleSingleDashArguments(data);
          case DoubleDashArgument =>
            ok, state := HandleDoubleDashArgument(data);
          case AfterFreestandingDoubleDash =>
            ok := HandleUnnamedArgument(data, state);
        }
        RunUnfolds(schema, argv, cfg);
        if !ok {
          return;
        }
        if data.Pos() == before {
          // The source leaves this pass with nothing changed and the loop
          // condition still true, so it repeats it forever.
          return;
        }
        assert LoopBody(schema, argv, cfg) == Continue(Config(state, data.Pos(), Snapshot()));
      }
      parseResult := Okay;
    }
  }
}
