/**
 * The cursor `ArgumentsView`: a character-level reader over argv[1..argc-1].
 *
 * A position is an argument index and a character offset. Offset `|argv[i]|`
 * is the argument's NUL terminator, which every reader turns into a space.
 * Argument 0, the program name, is never read.
 */
module Cursor {
  import opened Wrappers

  /** The characters of a C string before its terminating NUL. */
  type CString = s: string | '\0' !in s

  datatype Position = Position(argumentIndex: nat, charOffset: nat)

  /** Positions the cursor can occupy: past argument 0, at most one past the last
      argument, and never beyond the terminator of the argument it is in. */
  predicate ValidPosition(argv: seq<CString>, p: Position)
  {
    1 <= p.argumentIndex <= |argv| &&
    (p.argumentIndex < |argv| ==> p.charOffset <= |argv[p.argumentIndex]|)
  }

  /** Strict lexicographic order on positions. */
  predicate Before(p: Position, q: Position)
  {
    p.argumentIndex < q.argumentIndex ||
    (p.argumentIndex == q.argumentIndex && p.charOffset < q.charOffset)
  }

  /** The character stored at `p`, the terminator reading as NUL (argv[i][o] in C). */
  function CharAt(argv: seq<CString>, p: Position): (c: char)
    requires ValidPosition(argv, p) && p.argumentIndex < |argv|
    ensures c == '\0' <==> p.charOffset == |argv[p.argumentIndex]|
  {
    var arg := argv[p.argumentIndex];
    if p.charOffset < |arg| then arg[p.charOffset] else '\0'
  }

  /** `next_position`: one character further in the same argument, or the start of the
      next argument from a terminator; nothing from the last argument's terminator or
      from past the end. */
  function NextPosition(argv: seq<CString>, p: Position): (r: Option<Position>)
    requires ValidPosition(argv, p)
    ensures r.None? <==>
              p.argumentIndex == |argv| ||
              (p.argumentIndex == |argv| - 1 && p.charOffset == |argv[p.argumentIndex]|)
    ensures r.Some? ==> ValidPosition(argv, r.value) && r.value.argumentIndex < |argv| && Before(p, r.value)
  {
    if p.argumentIndex >= |argv| then None
    else if CharAt(argv, p) == '\0' then
      if p.argumentIndex >= |argv| - 1 then None
      else Some(Position(p.argumentIndex + 1, 0))
    else Some(Position(p.argumentIndex, p.charOffset + 1))
  }

  /** `eof`: there is no next position. */
  predicate Eof(argv: seq<CString>, p: Position)
    requires ValidPosition(argv, p)
  {
    NextPosition(argv, p).None?
  }

  /** `current`: the character under the cursor, a terminator reading as a space. */
  function Current(argv: seq<CString>, p: Position): (c: char)
    requires ValidPosition(argv, p) && p.argumentIndex < |argv|
    ensures c != '\0'
    ensures p.charOffset == |argv[p.argumentIndex]| ==> c == ' '
    ensures p.charOffset < |argv[p.argumentIndex]| ==> c == argv[p.argumentIndex][p.charOffset]
  {
    var c := CharAt(argv, p);
    if c == '\0' then ' ' else c
  }

  /** `peek`: the character at the next position; the source asserts that one exists. */
  function Peek(argv: seq<CString>, p: Position): (c: char)
    requires ValidPosition(argv, p) && !Eof(argv, p)
    ensures c != '\0'
  {
    Current(argv, NextPosition(argv, p).value)
  }

  /** The position `advance` moves to: the next one, or nowhere at end of input. */
  function Advanced(argv: seq<CString>, p: Position): (q: Position)
    requires ValidPosition(argv, p)
    ensures ValidPosition(argv, q)
    ensures Eof(argv, p) <==> q == p
    ensures !Eof(argv, p) ==> Before(p, q)
  {
    if Eof(argv, p) then p else NextPosition(argv, p).value
  }

  /** `arg_tail`: the rest of the current argument from the cursor on. */
  function ArgTail(argv: seq<CString>, p: Position): (tail: string)
    requires ValidPosition(argv, p) && p.argumentIndex < |argv|
    ensures argv[p.argumentIndex] == argv[p.argumentIndex][..p.charOffset] + tail
    ensures tail == [] <==> p.charOffset == |argv[p.argumentIndex]|
  {
    argv[p.argumentIndex][p.charOffset..]
  }

  /** The position `next_arg` and `consume_arg` jump to. */
  function NextArgument(p: Position): (q: Position)
    ensures Before(p, q) && q.charOffset == 0
  {
    Position(p.argumentIndex + 1, 0)
  }

  /** A character that is not a space is a real character, so the cursor can move on
      from it within the same argument. */
  lemma NotSpaceIsInside(argv: seq<CString>, p: Position)
    requires ValidPosition(argv, p) && p.argumentIndex < |argv| && Current(argv, p) != ' '
    ensures p.charOffset < |argv[p.argumentIndex]|
    ensures !Eof(argv, p) && NextPosition(argv, p) == Some(Position(p.argumentIndex, p.charOffset + 1))
  {
  }

  /** The cursor itself: the two indices move, argv does not. */
  class ArgumentsView {
    var argumentIndex: nat
    var charOffset: nat
    const argv: seq<CString>

    function Pos(): Position
      reads this
    {
      Position(argumentIndex, charOffset)
    }

    ghost predicate Valid()
      reads this
    {
      ValidPosition(argv, Pos())
    }

    /** The view `parse` builds: it starts at argument 1, offset 0. */
    constructor (argv: seq<CString>)
      requires |argv| >= 1
      ensures this.argv == argv && Pos() == Position(1, 0) && Valid()
    {
      this.argv := argv;
      argumentIndex := 1;
      charOffset := 0;
    }

    method Advance()
      requires Valid()
      modifies this
      ensures Valid()
      ensures Pos() == Advanced(argv, old(Pos()))
    {
      var next := NextPosition(argv, Pos());
      if next.None? {
        return;
      }
      argumentIndex := next.value.argumentIndex;
      charOffset := next.value.charOffset;
    }

    method NextArg()
      modifies this
      ensures Pos() == NextArgument(old(Pos()))
    {
      argumentIndex := argumentIndex + 1;
      charOffset := 0;
    }

    method Consume() returns (c: char)
      requires Valid() && argumentIndex < |argv|
      modifies this
      ensures Valid()
      ensures c == Current(argv, old(Pos())) && Pos() == Advanced(argv, old(Pos()))
    {
      c := Current(argv, Pos());
      Advance();
    }

    method ConsumeArg() returns (tail: string)
      requires Valid() && argumentIndex < |argv|
      modifies this
      ensures Valid()
      ensures tail == ArgTail(argv, old(Pos())) && Pos() == NextArgument(old(Pos()))
    {
      tail := ArgTail(argv, Pos());
      argumentIndex := argumentIndex + 1;
      charOffset := 0;
    }
  }
}
