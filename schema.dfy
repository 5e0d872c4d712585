/**
 * The schema: the ordered list of argument specifications the builder collects,
 * its well-formedness check, and the lookups the parser makes in it.
 */
module Schema {
  import opened Wrappers

  /** The value types a parameter may have: `std::string` and `int`. */
  datatype ParamType = Text | Integer

  /** A flag holds a bool; the two parameter kinds hold a value of their type. */
  datatype Kind = Flag | Named(valueType: ParamType) | OptionallyNamed(valueType: ParamType)

  datatype Spec = Spec(abbreviation: char, name: string, description: string, kind: Kind)

  /** `check_duplicate<Argument, Rest...>`: the first spec avoids the reserved `h` and
      `help` and differs in abbreviation and in name from every later spec; then the
      rest is checked the same way. */
  predicate CheckDuplicate(schema: seq<Spec>)
  {
    |schema| == 0 ||
    (schema[0].abbreviation != 'h' && schema[0].name != "help" &&
     (forall j :: 1 <= j < |schema| ==> schema[0].abbreviation != schema[j].abbreviation) &&
     (forall j :: 1 <= j < |schema| ==> schema[0].name != schema[j].name) &&
     CheckDuplicate(schema[1..]))
  }

  /** The schema invariant stated directly: no reserved key, no two specs share an
      abbreviation or a name. */
  predicate WellFormed(schema: seq<Spec>)
  {
    (forall i :: 0 <= i < |schema| ==> schema[i].abbreviation != 'h' && schema[i].name != "help") &&
    (forall i, j :: 0 <= i < j < |schema| ==>
       schema[i].abbreviation != schema[j].abbreviation && schema[i].name != schema[j].name)
  }

  /** The recursive check accepts exactly the well-formed schemas. */
  lemma {:induction false} CheckDuplicateIsWellFormed(schema: seq<Spec>)
    ensures CheckDuplicate(schema) <==> WellFormed(schema)
  {
    if |schema| > 0 {
      CheckDuplicateIsWellFormed(schema[1..]);
      if WellFormed(schema) {
        assert WellFormed(schema[1..]) by {
          forall i, j | 0 <= i < j < |schema| - 1
            ensures schema[1..][i].abbreviation != schema[1..][j].abbreviation
            ensures schema[1..][i].name != schema[1..][j].name
          {
            assert schema[1..][i] == schema[i + 1] && schema[1..][j] == schema[j + 1];
          }
        }
      }
      if CheckDuplicate(schema) {
        forall i, j | 0 <= i < j < |schema|
          ensures schema[i].abbreviation != schema[j].abbreviation && schema[i].name != schema[j].name
        {
          if i > 0 {
            assert schema[i] == schema[1..][i - 1] && schema[j] == schema[1..][j - 1];
          }
        }
        forall i | 0 <= i < |schema|
          ensures schema[i].abbreviation != 'h' && schema[i].name != "help"
        {
          if i > 0 {
            assert schema[i] == schema[1..][i - 1];
          }
        }
      }
    }
  }

  predicate HasAbbreviation(schema: seq<Spec>, abbreviation: char)
  {
    exists i :: 0 <= i < |schema| && schema[i].abbreviation == abbreviation
  }

  /** `index_of_impl<Offset, ...>(abbreviation)`: the first index from `offset` on whose
      spec has this abbreviation (the source throws if there is none). */
  function IndexOfFrom(schema: seq<Spec>, abbreviation: char, offset: nat): (i: nat)
    requires offset <= |schema|
    requires exists k :: offset <= k < |schema| && schema[k].abbreviation == abbreviation
    ensures offset <= i < |schema| && schema[i].abbreviation == abbreviation
    ensures forall k :: offset <= k < i ==> schema[k].abbreviation != abbreviation
    decreases |schema| - offset
  {
    if schema[offset].abbreviation == abbreviation then offset
    else IndexOfFrom(schema, abbreviation, offset + 1)
  }

  /** `index_of(abbreviation)`. */
  function IndexOf(schema: seq<Spec>, abbreviation: char): (i: nat)
    requires HasAbbreviation(schema, abbreviation)
    ensures i < |schema| && schema[i].abbreviation == abbreviation
    ensures forall k :: 0 <= k < i ==> schema[k].abbreviation != abbreviation
  {
    IndexOfFrom(schema, abbreviation, 0)
  }

  /** In a well-formed schema the index of an abbreviation is the one spec carrying it. */
  lemma IndexOfUnique(schema: seq<Spec>, abbreviation: char, k: nat)
    requires WellFormed(schema) && k < |schema| && schema[k].abbreviation == abbreviation
    ensures HasAbbreviation(schema, abbreviation) && IndexOf(schema, abbreviation) == k
  {
  }

  /** `get_abbreviation_of_name_impl`: the abbreviation of the first spec with this
      name, if any. */
  function AbbreviationOfNameFrom(schema: seq<Spec>, name: string, offset: nat): (r: Option<char>)
    requires offset <= |schema|
    ensures r.None? <==> forall k :: offset <= k < |schema| ==> schema[k].name != name
    ensures r.Some? ==> exists k :: offset <= k < |schema| && schema[k].name == name &&
                                    schema[k].abbreviation == r.value
    decreases |schema| - offset
  {
    if offset == |schema| then None
    else if schema[offset].name == name then Some(schema[offset].abbreviation)
    else AbbreviationOfNameFrom(schema, name, offset + 1)
  }

  function AbbreviationOfName(schema: seq<Spec>, name: string): (r: Option<char>)
  {
    AbbreviationOfNameFrom(schema, name, 0)
  }

  /** In a well-formed schema a name resolves to the spec that carries it, and
      a name no spec carries resolves to nothing. */
  lemma AbbreviationOfNameResolves(schema: seq<Spec>, name: string)
    requires WellFormed(schema)
    ensures AbbreviationOfName(schema, name).None? <==> forall k :: 0 <= k < |schema| ==> schema[k].name != name
    ensures AbbreviationOfName(schema, name).Some? ==>
              var a := AbbreviationOfName(schema, name).value;
              HasAbbreviation(schema, a) && schema[IndexOf(schema, a)].name == name
  {
    var r := AbbreviationOfName(schema, name);
    if r.Some? {
      var k :| 0 <= k < |schema| && schema[k].name == name && schema[k].abbreviation == r.value;
      IndexOfUnique(schema, r.value, k);
    }
  }

  /** `is_flag_impl`, `is_named_parameter_impl`, `is_optionally_named_parameter_impl`:
      some spec of that kind carries the abbreviation. */
  predicate IsFlag(schema: seq<Spec>, abbreviation: char)
  {
    exists i :: 0 <= i < |schema| && schema[i].kind.Flag? && schema[i].abbreviation == abbreviation
  }

  predicate IsNamedParameter(schema: seq<Spec>, abbreviation: char)
  {
    exists i :: 0 <= i < |schema| && schema[i].kind.Named? && schema[i].abbreviation == abbreviation
  }

  predicate IsOptionallyNamedParameter(schema: seq<Spec>, abbreviation: char)
  {
    exists i :: 0 <= i < |schema| && schema[i].kind.OptionallyNamed? && schema[i].abbreviation == abbreviation
  }

  /** In a well-formed schema the three kind tests ask about the kind of the one spec
      `index_of` finds, so exactly one holds for a known abbreviation and none for an
      unknown one. */
  lemma KindTestsAgreeWithIndexOf(schema: seq<Spec>, abbreviation: char)
    requires WellFormed(schema)
    ensures (IsFlag(schema, abbreviation) || IsNamedParameter(schema, abbreviation) ||
             IsOptionallyNamedParameter(schema, abbreviation)) <==> HasAbbreviation(schema, abbreviation)
    ensures HasAbbreviation(schema, abbreviation) ==>
              var kind := schema[IndexOf(schema, abbreviation)].kind;
              (IsFlag(schema, abbreviation) <==> kind.Flag?) &&
              (IsNamedParameter(schema, abbreviation) <==> kind.Named?) &&
              (IsOptionallyNamedParameter(schema, abbreviation) <==> kind.OptionallyNamed?)
  {
    if HasAbbreviation(schema, abbreviation) {
      var i := IndexOf(schema, abbreviation);
      forall k | 0 <= k < |schema| && schema[k].abbreviation == abbreviation
        ensures k == i
      {
        IndexOfUnique(schema, abbreviation, k);
      }
    }
  }

  /** `abbreviation_of_first_unseen_optionally_named<Offset, ...>`: the abbreviation
      of the first optionally-named spec from `offset` on that has not been found. */
  function FirstUnseenOptionallyNamedFrom(schema: seq<Spec>, found: seq<bool>, offset: nat): (r: Option<char>)
    requires |found| == |schema| && offset <= |schema|
    ensures r.None? <==>
              forall k :: offset <= k < |schema| ==> found[k] || !schema[k].kind.OptionallyNamed?
    ensures r.Some? ==>
              exists k :: offset <= k < |schema| && !found[k] && schema[k].kind.OptionallyNamed? &&
                          schema[k].abbreviation == r.value &&
                          forall j :: offset <= j < k ==> found[j] || !schema[j].kind.OptionallyNamed?
    decreases |schema| - offset
  {
    if offset == |schema| then None
    else if !found[offset] && schema[offset].kind.OptionallyNamed? then Some(schema[offset].abbreviation)
    else FirstUnseenOptionallyNamedFrom(schema, found, offset + 1)
  }

  function FirstUnseenOptionallyNamed(schema: seq<Spec>, found: seq<bool>): Option<char>
    requires |found| == |schema|
  {
    FirstUnseenOptionallyNamedFrom(schema, found, 0)
  }

  /** In a well-formed schema the abbreviation found leads `index_of` back to the first
      unseen optionally-named spec in schema order; there is none exactly when every
      optionally-named spec has been found. */
  lemma FirstUnseenIndex(schema: seq<Spec>, found: seq<bool>)
    requires WellFormed(schema) && |found| == |schema|
    ensures FirstUnseenOptionallyNamed(schema, found).None? <==>
              forall k :: 0 <= k < |schema| && schema[k].kind.OptionallyNamed? ==> found[k]
    ensures FirstUnseenOptionallyNamed(schema, found).Some? ==>
              var a := FirstUnseenOptionallyNamed(schema, found).value;
              HasAbbreviation(schema, a) &&
              var i := IndexOf(schema, a);
              !found[i] && schema[i].kind.OptionallyNamed? &&
              forall j :: 0 <= j < i && schema[j].kind.OptionallyNamed? ==> found[j]
  {
    var r := FirstUnseenOptionallyNamed(schema, found);
    if r.Some? {
      var k :| 0 <= k < |schema| && !found[k] && schema[k].kind.OptionallyNamed? &&
               schema[k].abbreviation == r.value &&
               forall j :: 0 <= j < k ==> found[j] || !schema[j].kind.OptionallyNamed?;
      IndexOfUnique(schema, r.value, k);
    }
  }
}
