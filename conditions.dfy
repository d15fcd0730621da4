/** The condition table (`DataTool.CONDITIONS` in datatool/datatool.py): eight
    named binary predicates over the value found in a row and the clause's value. */
module Conditions {
  import opened Errors
  import opened Text

  /** A value a predicate looks at: a string as decoded, or a date (an ordinal
      standing for a `datetime`) once the date parser has accepted it. */
  datatype Value = Str(s: string) | Date(ordinal: int)

  datatype Condition = Contains | Equals | Greater | Less | Before | After | Between | Not

  /** The table's keys as the source spells them. */
  function Name(c: Condition): string {
    match c
    case Contains => "CONTAINS"
    case Equals => "EQUALS"
    case Greater => "GREATER"
    case Less => "LESS"
    case Before => "BEFORE"
    case After => "AFTER"
    case Between => "BETWEEN"
    case Not => "NOT"
  }

  /** The table's keys in the order the source declares them. */
  const Names: seq<string> := ["CONTAINS", "EQUALS", "GREATER", "LESS", "BEFORE", "AFTER", "BETWEEN", "NOT"]

  /** `CONDITIONS.get(name)`: the condition a name selects, if it is a key;
      names are matched exactly, so only the upper-case spellings are keys. */
  function Lookup(name: string): (r: Option<Condition>)
    ensures r.Some? ==> Name(r.value) == name
    ensures r.None? <==> forall c: Condition :: Name(c) != name
    ensures r.Some? <==> name in Names
  {
    if name == "CONTAINS" then Some(Contains)
    else if name == "EQUALS" then Some(Equals)
    else if name == "GREATER" then Some(Greater)
    else if name == "LESS" then Some(Less)
    else if name == "BEFORE" then Some(Before)
    else if name == "AFTER" then Some(After)
    else if name == "BETWEEN" then Some(Between)
    else if name == "NOT" then Some(Not)
    else None
  }

  /** Every condition is found again under its own name. */
  lemma LookupName(c: Condition)
    ensures Lookup(Name(c)) == Some(c)
  {
  }

  /** Where `Names` lists each condition. */
  function Position(c: Condition): (k: nat)
    ensures k < |Names| && Names[k] == Name(c)
  {
    match c
    case Contains => 0
    case Equals => 1
    case Greater => 2
    case Less => 3
    case Before => 4
    case After => 5
    case Between => 6
    case Not => 7
  }

  /** The ValueError message for an unknown condition as datatool.py builds it:
      the template has no replacement field, so `format` hands it back unchanged
      and the joined key list is dropped. */
  function UnknownConditionMessageAsWritten(): string {
    "condition must be one of "
  }

  /** Every condition name starts with a capital letter. */
  lemma NameStartsUpper(c: Condition)
    ensures |Name(c)| > 0 && 'A' <= Name(c)[0] <= 'Z'
  {
  }

  /** The message as written has no capital letter. */
  lemma AsWrittenMessageLowerCase()
    ensures forall k :: 0 <= k < |UnknownConditionMessageAsWritten()| ==> !('A' <= UnknownConditionMessageAsWritten()[k] <= 'Z')
  {
  }

  /** The message as written names no condition at all. */
  lemma {:induction false} AsWrittenMessageNamesNoCondition(c: Condition, i: int)
    ensures !OccursAt(UnknownConditionMessageAsWritten(), Name(c), i)
  {
    var m := UnknownConditionMessageAsWritten();
    if OccursAt(m, Name(c), i) {
      NameStartsUpper(c);
      AsWrittenMessageLowerCase();
      assert false;
    }
  }

  /** The message with the key list filled in, as the template evidently intends. */
  function UnknownConditionMessage(): string {
    "condition must be one of " + Join(Names, ", ")
  }

  /** The intended message names every condition. */
  lemma {:induction false} MessageNamesEveryCondition(c: Condition)
    ensures exists i :: OccursAt(UnknownConditionMessage(), Name(c), i)
  {
    var k := Position(c);
    JoinedAfterContains("condition must be one of ", Names, ", ", k);
    var i :| OccursAt("condition must be one of " + Join(Names, ", "), Names[k], i);
    assert OccursAt(UnknownConditionMessage(), Name(c), i);
  }

  /** Python's `x < y` on two values: strings lexicographically, dates by time;
      a string against a date raises TypeError. */
  function Below(x: Value, y: Value): (r: Result<bool>)
    ensures r.Err? <==> x.Str? != y.Str?
    ensures r.Err? ==> r.error == TypeError
  {
    match (x, y)
    case (Str(a), Str(b)) => Ok(LexLess(a, b))
    case (Date(a), Date(b)) => Ok(a < b)
    case _ => Err(TypeError)
  }

  /** The conditions that compare with Python's `<`. */
  predicate Ordering(c: Condition) {
    c == Greater || c == Less || c == Before || c == After
  }

  /** `CONDITIONS[c](value, match_value)`. `value.rfind(match_value)` needs a string
      `value` (AttributeError otherwise) and a string `match_value` (TypeError
      otherwise). EQUALS and NOT never raise: a string never equals a date. */
  function Apply(c: Condition, value: Value, matchValue: Value): (r: Result<bool>)
    ensures r.Err? <==> ((c == Contains && (value.Date? || matchValue.Date?))
                         || (Ordering(c) && value.Str? != matchValue.Str?))
    ensures r.Err? && c == Contains ==> r.error == (if value.Date? then AttributeError else TypeError)
    ensures r.Err? && c != Contains ==> r.error == TypeError
    ensures c == Contains && r.Ok? ==> (r.value <==> exists i :: OccursAt(value.s, matchValue.s, i))
    ensures c == Between ==> r == Ok(true)
  {
    match c
    case Contains =>
      if value.Date? then Err(AttributeError)
      else if matchValue.Date? then Err(TypeError)
      else Ok(RFind(value.s, matchValue.s) != -1)
    case Equals => Ok(value == matchValue)
    case Greater => Below(matchValue, value)
    case Less => Below(value, matchValue)
    case Before => Below(value, matchValue)
    case After => Below(matchValue, value)
    case Between => Ok(true)
    case Not => Ok(value != matchValue)
  }

  /** CONTAINS holds exactly when the clause value occurs somewhere in the row value. */
  lemma ContainsIffSubstring(a: string, b: string)
    ensures Apply(Contains, Str(a), Str(b)) == Ok(exists i :: OccursAt(a, b, i))
  {
    if RFind(a, b) != -1 {
      assert OccursAt(a, b, RFind(a, b));
    }
  }

  /** NOT is the negation of EQUALS, and neither raises. */
  lemma NotNegatesEquals(x: Value, y: Value)
    ensures Apply(Equals, x, y).Ok? && Apply(Not, x, y) == Ok(!Apply(Equals, x, y).value)
  {
  }

  /** BETWEEN accepts everything. */
  lemma BetweenAlwaysTrue(x: Value, y: Value)
    ensures Apply(Between, x, y) == Ok(true)
  {
  }

  /** BEFORE is LESS and AFTER is GREATER; GREATER is LESS with the operands swapped. */
  lemma DateOrderIsValueOrder(x: Value, y: Value)
    ensures Apply(Before, x, y) == Apply(Less, x, y)
    ensures Apply(After, x, y) == Apply(Greater, x, y)
    ensures Apply(Greater, x, y) == Apply(Less, y, x)
  {
  }

  /** GREATER and LESS never both hold of the same pair. */
  lemma {:induction false} OrderAsymmetric(x: Value, y: Value)
    ensures !(Apply(Greater, x, y) == Ok(true) && Apply(Less, x, y) == Ok(true))
  {
    if x.Str? && y.Str? {
      LexLessAsymmetric(x.s, y.s);
    }
  }

  /** On two different strings exactly one of GREATER and LESS holds. */
  lemma {:induction false} OrderTotalOnStrings(a: string, b: string)
    requires a != b
    ensures Apply(Greater, Str(a), Str(b)).Ok? && Apply(Less, Str(a), Str(b)).Ok?
    ensures Apply(Greater, Str(a), Str(b)).value != Apply(Less, Str(a), Str(b)).value
  {
    LexLessTotal(a, b);
    LexLessAsymmetric(a, b);
  }

  /** GREATER on strings is the lexicographic order, also on a field whose values the
      validator classes as numeric: "9" is GREATER than "10". */
  lemma GreaterIsLexicographic()
    ensures Apply(Greater, Str("9"), Str("10")) == Ok(true)
  {
    assert LexLess("10", "9");
  }
}
