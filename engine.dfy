/** The query engine of datatool/datatool.py: clause normalisation and validation,
    per-row clause evaluation, the `DataTool` object with its one-shot validating
    line processor, `query` and the tally of `statistics`. */
module Engine {
  import opened Errors
  import opened Text
  import opened Converter
  import opened Conditions
  import CsvLine

  /** One where-clause: `{'field': …, 'condition': …, 'value': …}`. */
  datatype Clause = Clause(field: string, condition: string, value: Value)

  /** The `where` argument: a single clause dict or a list of them. */
  datatype Where = Single(clause: Clause) | Many(clauses: seq<Clause>)

  /** `if isinstance(where, dict): where = [where]`. */
  function Clauses(w: Where): seq<Clause> {
    match w
    case Single(c) => [c]
    case Many(cs) => cs
  }

  /** The boolean reducer handed to the evaluator: `all` or `any`. */
  datatype Combinator = All | Any

  /** `all(results)` / `any(results)`. */
  function Combine(comb: Combinator, results: seq<bool>): (b: bool)
    ensures comb == All ==> (b <==> forall i :: 0 <= i < |results| ==> results[i])
    ensures comb == Any ==> (b <==> exists i :: 0 <= i < |results| && results[i])
  {
    if results == [] then comb == All
    else
      var rest := Combine(comb, results[1..]);
      assert forall i :: 1 <= i < |results| ==> results[i] == results[1..][i - 1];
      if comb == All then results[0] && rest else results[0] || rest
  }

  // ---------------------------------------------------------------- normalising

  /** What `query` does to each clause before anything else: the condition is
      upper-cased and a value the date parser accepts becomes a date (a value that
      is already a date makes the parser raise, which is swallowed). */
  function Normalize(c: Clause, f: Foreign): Clause {
    var value := if c.value.Str? && f.parseDate(c.value.s).Some? then Date(f.parseDate(c.value.s).value) else c.value;
    Clause(c.field, Upper(c.condition), value)
  }

  /** Normalising keeps the field, upper-cases the condition, turns a parseable string
      value into its date, and leaves every other value alone; normalising twice is
      normalising once (the caller's clauses are normalised in place, so a second
      query over them sees the same clauses). */
  lemma {:induction false} NormalizeSpec(c: Clause, f: Foreign)
    ensures Normalize(c, f).field == c.field
    ensures Normalize(c, f).condition == Upper(c.condition)
    ensures c.value.Str? && f.parseDate(c.value.s).Some? ==> Normalize(c, f).value == Date(f.parseDate(c.value.s).value)
    ensures !(c.value.Str? && f.parseDate(c.value.s).Some?) ==> Normalize(c, f).value == c.value
    ensures Normalize(Normalize(c, f), f) == Normalize(c, f)
  {
    var n := Normalize(c, f);
    assert Upper(n.condition) == n.condition by {
      assert forall k :: 0 <= k < |n.condition| ==> UpperChar(n.condition[k]) == n.condition[k];
    }
  }

  function NormalizeAll(cs: seq<Clause>, f: Foreign): (ns: seq<Clause>)
    ensures |ns| == |cs|
  {
    seq(|cs|, i requires 0 <= i < |cs| => Normalize(cs[i], f))
  }

  /** The fields the clauses name, in order (`query_fields`). */
  function FieldsOf(cs: seq<Clause>): (fs: seq<string>)
    ensures |fs| == |cs|
  {
    seq(|cs|, i requires 0 <= i < |cs| => cs[i].field)
  }

  /** `set(xs).issubset(keys)`. */
  predicate AllIn(xs: seq<string>, keys: set<string>) {
    forall x :: x in xs ==> x in keys
  }

  // ---------------------------------------------------------------- validating

  /** A clause the validator lets through: its condition is a table key, GREATER and
      LESS only on a field typed numeric, BEFORE and AFTER only on a field typed date. */
  predicate Admissible(types: map<string, TypeTag>, c: Clause) {
    && Lookup(c.condition).Some?
    && (c.condition in ["GREATER", "LESS"] ==> c.field in types && types[c.field] == NumericTag)
    && (c.condition in ["BEFORE", "AFTER"] ==> c.field in types && types[c.field] == DateTag)
  }

  /** `__validate_query`: True for an admissible clause; otherwise the first rule it
      breaks, in the source's order (unknown condition, then numeric, then date). */
  function Validate(types: map<string, TypeTag>, c: Clause): (r: Result<bool>)
    ensures r.Ok? <==> Admissible(types, c)
    ensures r.Ok? ==> r.value
    ensures Lookup(c.condition).None? <==> r == Err(ValueError(UnknownCondition(UnknownConditionMessageAsWritten())))
    ensures r.Err? && Lookup(c.condition).Some? && c.condition in ["GREATER", "LESS"]
      ==> r == Err(ConditionTypeError("numeric", ["GREATER", "LESS"]))
    ensures r.Err? && Lookup(c.condition).Some? && c.condition in ["BEFORE", "AFTER"]
      ==> r == Err(ConditionTypeError("datetime", ["BEFORE", "AFTER"]))
  {
    if Lookup(c.condition).None? then
      Err(ValueError(UnknownCondition(UnknownConditionMessageAsWritten())))
    else if c.condition in ["GREATER", "LESS"] && !(c.field in types && types[c.field] == NumericTag) then
      Err(ConditionTypeError("numeric", ["GREATER", "LESS"]))
    else if c.condition in ["BEFORE", "AFTER"] && !(c.field in types && types[c.field] == DateTag) then
      Err(ConditionTypeError("datetime", ["BEFORE", "AFTER"]))
    else
      Ok(true)
  }

  /** The validation loop of `__process_line`: every clause in turn, stopping at the
      first one that is refused. */
  function ValidateEach(types: map<string, TypeTag>, cs: seq<Clause>): (r: Result<bool>)
    ensures r.Ok? <==> forall i :: 0 <= i < |cs| ==> Admissible(types, cs[i])
    ensures r.Err? ==> exists i :: (0 <= i < |cs| && r == Validate(types, cs[i])
      && forall j :: 0 <= j < i ==> Admissible(types, cs[j]))
  {
    if cs == [] then Ok(true)
    else
      var first := Validate(types, cs[0]);
      if first.Err? then
        assert 0 <= 0 < |cs| && first == Validate(types, cs[0]);
        first
      else
        var rest := ValidateEach(types, cs[1..]);
        if rest.Err? then
          var i :| 0 <= i < |cs[1..]| && rest == Validate(types, cs[1..][i])
            && forall j :: 0 <= j < i ==> Admissible(types, cs[1..][j]);
          assert cs[1..][i] == cs[i + 1];
          assert forall j :: 0 <= j < i + 1 ==> Admissible(types, cs[j]) by {
            forall j | 0 <= j < i + 1 ensures Admissible(types, cs[j]) {
              if j > 0 { assert cs[j] == cs[1..][j - 1]; }
            }
          }
          assert 0 <= i + 1 < |cs| && rest == Validate(types, cs[i + 1]);
          rest
        else
          assert forall i :: 0 <= i < |cs| ==> Admissible(types, cs[i]) by {
            forall i | 0 <= i < |cs| ensures Admissible(types, cs[i]) {
              if i > 0 { assert cs[i] == cs[1..][i - 1]; }
            }
          }
          Ok(true)
  }

  // ---------------------------------------------------------------- evaluating

  /** A row as the evaluator sees it: date conversion replaces strings by dates. */
  type ValueRow = map<string, Value>

  /** The decoded row before any conversion. */
  function Lift(row: Row): (v: ValueRow)
    ensures v.Keys == row.Keys
    ensures forall k :: k in row ==> v[k] == Str(row[k])
  {
    map k | k in row :: Str(row[k])
  }

  /** `row[field] = parse(row[field])`: the field's string is replaced by its date; a
      missing field is a KeyError, a string the parser refuses a ValueError, and a
      field already converted to a date makes the parser raise TypeError. */
  function ParseFieldAsWritten(row: ValueRow, field: string, f: Foreign): (r: Result<ValueRow>)
    ensures field !in row ==> r == Err(KeyError)
    ensures field in row && row[field].Date? ==> r == Err(TypeError)
    ensures field in row && row[field].Str? && f.parseDate(row[field].s).None? ==> r == Err(ValueError(DateParse))
    ensures r.Ok? ==> (field in row && row[field].Str? && f.parseDate(row[field].s).Some?
      && r.value == row[field := Date(f.parseDate(row[field].s).value)])
  {
    if field !in row then Err(KeyError)
    else match row[field]
      case Date(_) => Err(TypeError)
      case Str(s) =>
        match f.parseDate(s)
        case None => Err(ValueError(DateParse))
        case Some(d) => Ok(row[field := Date(d)])
  }

  /** As written, a second BEFORE/AFTER clause on a field converts it again and fails:
      a date range (AFTER one day, BEFORE another, on the same field) always raises. */
  lemma DateRangeAsWrittenFails(row: ValueRow, field: string, f: Foreign)
    requires ParseFieldAsWritten(row, field, f).Ok?
    ensures ParseFieldAsWritten(ParseFieldAsWritten(row, field, f).value, field, f) == Err(TypeError)
  {
  }

  /** The clause's predicate on the row as it stands: the table entry applied to the
      field's value and the clause's value; a name outside the table or a missing
      field is a KeyError. */
  function Holds(row: ValueRow, c: Clause): Result<bool> {
    var cond := Lookup(c.condition);
    if cond.None? || c.field !in row then Err(KeyError)
    else Apply(cond.value, row[c.field], c.value)
  }

  /** A clause whose evaluation leaves the row alone. */
  predicate Plain(c: Clause) {
    c.condition != "BEFORE" && c.condition != "AFTER"
  }

  /** One iteration of the loop in `__process_query`: a BEFORE/AFTER field is converted
      to a date in the row first (as written, so a field converted by an earlier
      clause raises TypeError), then the clause's predicate is taken. */
  function EvalClause(row: ValueRow, c: Clause, f: Foreign): (r: Result<(bool, ValueRow)>)
    ensures r.Ok? ==> r.value.1.Keys == row.Keys
    ensures Plain(c) ==> r == (if Holds(row, c).Ok? then Ok((Holds(row, c).value, row)) else Err(Holds(row, c).error))
    ensures !Plain(c) && c.field !in row ==> r == Err(KeyError)
    ensures !Plain(c) && c.field in row && row[c.field].Date? ==> r == Err(TypeError)
    ensures !Plain(c) && c.field in row && row[c.field].Str? && f.parseDate(row[c.field].s).None?
      ==> r == Err(ValueError(DateParse))
    ensures !Plain(c) && c.field in row && row[c.field].Str? && f.parseDate(row[c.field].s).Some? ==>
      var d := f.parseDate(row[c.field].s).value;
      r == (if c.value.Str? then Err(TypeError)
            else if c.condition == "BEFORE" then Ok((d < c.value.ordinal, row[c.field := Date(d)]))
            else Ok((c.value.ordinal < d, row[c.field := Date(d)])))
  {
    var row1 :- if Plain(c) then Ok(row) else ParseFieldAsWritten(row, c.field, f);
    var b :- Holds(row1, c);
    Ok((b, row1))
  }

  /** A BEFORE clause on a parseable field compares the parsed date with the clause's
      date, and leaves the date in the row; against a clause value that did not
      parse as a date it raises TypeError. */
  lemma BeforeComparesDates(row: ValueRow, field: string, s: string, value: Value, f: Foreign)
    requires field in row && row[field] == Str(s) && f.parseDate(s).Some?
    ensures var d := f.parseDate(s).value;
      && (value.Date? ==> EvalClause(row, Clause(field, "BEFORE", value), f) == Ok((d < value.ordinal, row[field := Date(d)])))
      && (value.Str? ==> EvalClause(row, Clause(field, "BEFORE", value), f) == Err(TypeError))
  {
  }

  /** The results of every clause in order, and the row as the conversions leave it:
      one result per clause, and no field added or dropped. */
  function Evaluate(row: ValueRow, cs: seq<Clause>, f: Foreign): (r: Result<(seq<bool>, ValueRow)>)
    ensures r.Ok? ==> |r.value.0| == |cs| && r.value.1.Keys == row.Keys
    decreases |cs|
  {
    if cs == [] then Ok(([], row))
    else
      var first :- EvalClause(row, cs[0], f);
      var rest :- Evaluate(first.1, cs[1..], f);
      Ok(([first.0] + rest.0, rest.1))
  }

  /** Evaluation as written: evaluating one more clause continues from the results and
      the row the earlier clauses leave. */
  lemma {:induction false} EvaluateAppend(row: ValueRow, cs: seq<Clause>, c: Clause, f: Foreign)
    ensures Evaluate(row, cs + [c], f) == match Evaluate(row, cs, f)
      case Err(e) => Err(e)
      case Ok(p) => match EvalClause(p.1, c, f)
        case Err(e) => Err(e)
        case Ok(q) => Ok((p.0 + [q.0], q.1))
    decreases |cs|
  {
    if cs == [] {
      assert [] + [c] == [c] && [c][1..] == [];
      match EvalClause(row, c, f)
      case Err(_) =>
      case Ok(q) =>
        assert Evaluate(q.1, [], f) == Ok(([], q.1));
        assert [q.0] + [] == [] + [q.0];
    } else {
      assert (cs + [c])[0] == cs[0] && (cs + [c])[1..] == cs[1..] + [c];
      match EvalClause(row, cs[0], f)
      case Err(_) =>
      case Ok(first) =>
        EvaluateAppend(first.1, cs[1..], c, f);
        match Evaluate(first.1, cs[1..], f)
        case Err(_) =>
        case Ok(p) =>
          match EvalClause(p.1, c, f)
          case Err(_) =>
          case Ok(q) =>
            assert [first.0] + (p.0 + [q.0]) == ([first.0] + p.0) + [q.0];
    }
  }

  /** Evaluation as written: on success, result `i` is clause `i` evaluated on the row as
      the clauses before it leave it. */
  lemma {:induction false} EvaluateEach(row: ValueRow, cs: seq<Clause>, f: Foreign, i: nat)
    requires i < |cs| && Evaluate(row, cs, f).Ok?
    ensures Evaluate(row, cs[..i], f).Ok? && Evaluate(row, cs[..i + 1], f).Ok?
    ensures EvalClause(Evaluate(row, cs[..i], f).value.1, cs[i], f)
      == Ok((Evaluate(row, cs, f).value.0[i], Evaluate(row, cs[..i + 1], f).value.1))
    decreases |cs|
  {
    var n := |cs| - 1;
    var init := cs[..n];
    assert cs == init + [cs[n]];
    EvaluateAppend(row, init, cs[n], f);
    if i < n {
      assert init[..i] == cs[..i] && init[..i + 1] == cs[..i + 1] && init[i] == cs[i];
      EvaluateEach(row, init, f, i);
    } else {
      assert cs[..i] == init && cs[..i + 1] == cs;
    }
  }

  /** Evaluation as written: an error is that of the first clause that fails, evaluated on
      the row as the clauses before it leave it. */
  lemma {:induction false} EvaluateFirstError(row: ValueRow, cs: seq<Clause>, f: Foreign)
    requires Evaluate(row, cs, f).Err?
    ensures exists i :: (0 <= i < |cs| && Evaluate(row, cs[..i], f).Ok?
                         && EvalClause(Evaluate(row, cs[..i], f).value.1, cs[i], f) == Err(Evaluate(row, cs, f).error))
    decreases |cs|
  {
    var n := |cs| - 1;
    var init := cs[..n];
    assert cs == init + [cs[n]];
    EvaluateAppend(row, init, cs[n], f);
    if Evaluate(row, init, f).Err? {
      EvaluateFirstError(row, init, f);
      var i :| 0 <= i < |init| && Evaluate(row, init[..i], f).Ok?
        && EvalClause(Evaluate(row, init[..i], f).value.1, init[i], f) == Err(Evaluate(row, init, f).error);
      assert init[..i] == cs[..i] && init[i] == cs[i];
    } else {
      assert cs[..n] == init;
    }
  }

  /** Without date clauses, evaluation succeeds exactly when every clause's predicate
      does, leaves the row unchanged, and yields each clause's own result. */
  lemma {:induction false} EvaluatePlain(row: ValueRow, cs: seq<Clause>, f: Foreign)
    requires forall i :: 0 <= i < |cs| ==> Plain(cs[i])
    ensures Evaluate(row, cs, f).Ok? <==> forall i :: 0 <= i < |cs| ==> Holds(row, cs[i]).Ok?
    ensures Evaluate(row, cs, f).Ok? ==>
      && Evaluate(row, cs, f).value.1 == row
      && |Evaluate(row, cs, f).value.0| == |cs|
      && forall i :: 0 <= i < |cs| ==> Evaluate(row, cs, f).value.0[i] == Holds(row, cs[i]).value
    decreases |cs|
  {
    if cs != [] {
      assert forall i :: 1 <= i < |cs| ==> cs[i] == cs[1..][i - 1];
      EvaluatePlain(row, cs[1..], f);
    }
  }

  /** As written, a date range on one field (AFTER one date, BEFORE another) raises
      TypeError on its second clause, whatever the dates. */
  lemma DateRangeQueryAsWritten(row: ValueRow, field: string, s: string, lo: int, hi: int, f: Foreign)
    requires field in row && row[field] == Str(s) && f.parseDate(s).Some?
    ensures Evaluate(row, [Clause(field, "AFTER", Date(lo)), Clause(field, "BEFORE", Date(hi))], f) == Err(TypeError)
  {
    var d := f.parseDate(s).value;
    var cs := [Clause(field, "AFTER", Date(lo)), Clause(field, "BEFORE", Date(hi))];
    var row' := row[field := Date(d)];
    assert EvalClause(row, cs[0], f) == Ok((lo < d, row'));
    assert EvalClause(row', cs[1], f) == Err(TypeError);
    assert cs[1..][0] == cs[1];
    assert Evaluate(row', cs[1..], f) == Err(TypeError);
  }

  // ---- the date conversion as evidently intended

  /** The conversion as evidently intended: parse a string, keep a date. */
  function ParseField(row: ValueRow, field: string, f: Foreign): (r: Result<ValueRow>)
    ensures r.Err? <==> field !in row || (row[field].Str? && f.parseDate(row[field].s).None?)
    ensures r.Err? ==> r.error == (if field in row then ValueError(DateParse) else KeyError)
    ensures r.Ok? ==> (r.value.Keys == row.Keys && r.value[field].Date?
      && forall k :: k in row && k != field ==> r.value[k] == row[k])
    ensures r.Ok? && row[field].Str? ==> r.value[field] == Date(f.parseDate(row[field].s).value)
    ensures r.Ok? && row[field].Date? ==> r.value == row
  {
    if field !in row then Err(KeyError)
    else match row[field]
      case Date(_) => Ok(row)
      case Str(s) =>
        match f.parseDate(s)
        case None => Err(ValueError(DateParse))
        case Some(d) => Ok(row[field := Date(d)])
  }

  /** One clause with the intended conversion: it differs from `EvalClause` only on a
      BEFORE/AFTER clause whose field an earlier clause has converted. */
  function EvalClauseIntended(row: ValueRow, c: Clause, f: Foreign): (r: Result<(bool, ValueRow)>)
    ensures !(!Plain(c) && c.field in row && row[c.field].Date?) ==> r == EvalClause(row, c, f)
    ensures !Plain(c) && c.field in row && row[c.field].Date? ==>
      r == (if Holds(row, c).Ok? then Ok((Holds(row, c).value, row)) else Err(Holds(row, c).error))
  {
    var row1 :- if Plain(c) then Ok(row) else ParseField(row, c.field, f);
    var b :- Holds(row1, c);
    Ok((b, row1))
  }

  /** `Evaluate` with the intended conversion. */
  function EvaluateIntended(row: ValueRow, cs: seq<Clause>, f: Foreign): (r: Result<(seq<bool>, ValueRow)>)
    ensures r.Ok? ==> |r.value.0| == |cs| && r.value.1.Keys == row.Keys
    decreases |cs|
  {
    if cs == [] then Ok(([], row))
    else
      var first :- EvalClauseIntended(row, cs[0], f);
      assert first.1.Keys == row.Keys by {
        if !Plain(cs[0]) && cs[0].field in row && row[cs[0].field].Date? {
        } else {
          assert EvalClause(row, cs[0], f) == Ok(first);
        }
      }
      var rest :- EvaluateIntended(first.1, cs[1..], f);
      Ok(([first.0] + rest.0, rest.1))
  }

  /** Evaluation with the intended conversion: evaluating one more clause continues from the results and
      the row the earlier clauses leave. */
  lemma {:induction false} EvaluateIntendedAppend(row: ValueRow, cs: seq<Clause>, c: Clause, f: Foreign)
    ensures EvaluateIntended(row, cs + [c], f) == match EvaluateIntended(row, cs, f)
      case Err(e) => Err(e)
      case Ok(p) => match EvalClauseIntended(p.1, c, f)
        case Err(e) => Err(e)
        case Ok(q) => Ok((p.0 + [q.0], q.1))
    decreases |cs|
  {
    if cs == [] {
      assert [] + [c] == [c] && [c][1..] == [];
      match EvalClauseIntended(row, c, f)
      case Err(_) =>
      case Ok(q) =>
        assert EvaluateIntended(q.1, [], f) == Ok(([], q.1));
        assert [q.0] + [] == [] + [q.0];
    } else {
      assert (cs + [c])[0] == cs[0] && (cs + [c])[1..] == cs[1..] + [c];
      match EvalClauseIntended(row, cs[0], f)
      case Err(_) =>
      case Ok(first) =>
        EvaluateIntendedAppend(first.1, cs[1..], c, f);
        match EvaluateIntended(first.1, cs[1..], f)
        case Err(_) =>
        case Ok(p) =>
          match EvalClauseIntended(p.1, c, f)
          case Err(_) =>
          case Ok(q) =>
            assert [first.0] + (p.0 + [q.0]) == ([first.0] + p.0) + [q.0];
    }
  }

  /** Evaluation with the intended conversion: on success, result `i` is clause `i` evaluated on the row as
      the clauses before it leave it. */
  lemma {:induction false} EvaluateIntendedEach(row: ValueRow, cs: seq<Clause>, f: Foreign, i: nat)
    requires i < |cs| && EvaluateIntended(row, cs, f).Ok?
    ensures EvaluateIntended(row, cs[..i], f).Ok? && EvaluateIntended(row, cs[..i + 1], f).Ok?
    ensures EvalClauseIntended(EvaluateIntended(row, cs[..i], f).value.1, cs[i], f)
      == Ok((EvaluateIntended(row, cs, f).value.0[i], EvaluateIntended(row, cs[..i + 1], f).value.1))
    decreases |cs|
  {
    var n := |cs| - 1;
    var init := cs[..n];
    assert cs == init + [cs[n]];
    EvaluateIntendedAppend(row, init, cs[n], f);
    if i < n {
      assert init[..i] == cs[..i] && init[..i + 1] == cs[..i + 1] && init[i] == cs[i];
      EvaluateIntendedEach(row, init, f, i);
    } else {
      assert cs[..i] == init && cs[..i + 1] == cs;
    }
  }

  /** Evaluation with the intended conversion: an error is that of the first clause that fails, evaluated on
      the row as the clauses before it leave it. */
  lemma {:induction false} EvaluateIntendedFirstError(row: ValueRow, cs: seq<Clause>, f: Foreign)
    requires EvaluateIntended(row, cs, f).Err?
    ensures exists i :: (0 <= i < |cs| && EvaluateIntended(row, cs[..i], f).Ok?
                         && EvalClauseIntended(EvaluateIntended(row, cs[..i], f).value.1, cs[i], f) == Err(EvaluateIntended(row, cs, f).error))
    decreases |cs|
  {
    var n := |cs| - 1;
    var init := cs[..n];
    assert cs == init + [cs[n]];
    EvaluateIntendedAppend(row, init, cs[n], f);
    if EvaluateIntended(row, init, f).Err? {
      EvaluateIntendedFirstError(row, init, f);
      var i :| 0 <= i < |init| && EvaluateIntended(row, init[..i], f).Ok?
        && EvalClauseIntended(EvaluateIntended(row, init[..i], f).value.1, init[i], f) == Err(EvaluateIntended(row, init, f).error);
      assert init[..i] == cs[..i] && init[i] == cs[i];
    } else {
      assert cs[..n] == init;
    }
  }

  /** With the intended conversion a date range on one field works: AFTER one date and
      BEFORE another both compare the field's date, parsed once. */
  lemma DateRangeQuery(row: ValueRow, field: string, s: string, lo: int, hi: int, f: Foreign)
    requires field in row && row[field] == Str(s) && f.parseDate(s).Some?
    ensures var d := f.parseDate(s).value;
      EvaluateIntended(row, [Clause(field, "AFTER", Date(lo)), Clause(field, "BEFORE", Date(hi))], f)
        == Ok(([lo < d, d < hi], row[field := Date(d)]))
  {
    var d := f.parseDate(s).value;
    var cs := [Clause(field, "AFTER", Date(lo)), Clause(field, "BEFORE", Date(hi))];
    var row' := row[field := Date(d)];
    assert EvalClauseIntended(row, cs[0], f) == Ok((lo < d, row'));
    assert EvalClauseIntended(row', cs[1], f) == Ok((d < hi, row'));
    assert cs[1..][0] == cs[1] && cs[1..][1..] == [];
    assert EvaluateIntended(row', [], f) == Ok(([], row'));
    assert EvaluateIntended(row', [cs[1]], f) == Ok(([d < hi] + [], row'));
    assert cs[1..] == [cs[1]] && [d < hi] + [] == [d < hi];
    assert EvaluateIntended(row, cs, f) == Ok(([lo < d] + [d < hi], row'));
    assert [lo < d] + [d < hi] == [lo < d, d < hi];
  }

  /** What `__process_query` returns for a row, with the row as it leaves it. */
  function Process(row: ValueRow, cs: seq<Clause>, comb: Combinator, f: Foreign): (r: Result<(bool, ValueRow)>)
    ensures r.Err? <==> Evaluate(row, cs, f).Err?
    ensures r.Err? ==> r.error == Evaluate(row, cs, f).error
    ensures r.Ok? ==> r.value.1 == Evaluate(row, cs, f).value.1 && r.value.1.Keys == row.Keys
    ensures r.Ok? && comb == All ==> (r.value.0 <==> forall i :: 0 <= i < |cs| ==> Evaluate(row, cs, f).value.0[i])
    ensures r.Ok? && comb == Any ==> (r.value.0 <==> exists i :: 0 <= i < |cs| && Evaluate(row, cs, f).value.0[i])
  {
    var e :- Evaluate(row, cs, f);
    Ok((Combine(comb, e.0), e.1))
  }

  /** Without date clauses, a row matches under `all` exactly when every clause holds
      and under `any` exactly when some clause holds. */
  lemma {:induction false} ProcessPlain(row: ValueRow, cs: seq<Clause>, comb: Combinator, f: Foreign)
    requires forall i :: 0 <= i < |cs| ==> Plain(cs[i])
    requires forall i :: 0 <= i < |cs| ==> Holds(row, cs[i]).Ok?
    ensures Process(row, cs, comb, f).Ok?
    ensures comb == All ==> (Process(row, cs, comb, f).value.0 <==> forall i :: 0 <= i < |cs| ==> Holds(row, cs[i]).value)
    ensures comb == Any ==> (Process(row, cs, comb, f).value.0 <==> exists i :: 0 <= i < |cs| && Holds(row, cs[i]).value)
  {
    EvaluatePlain(row, cs, f);
    var e := Evaluate(row, cs, f).value;
    assert forall i :: 0 <= i < |cs| ==> e.0[i] == Holds(row, cs[i]).value;
  }

  /** An empty where matches every row under `all` and none under `any`. */
  lemma EmptyWhere(row: ValueRow, f: Foreign)
    ensures Process(row, [], All, f) == Ok((true, row))
    ensures Process(row, [], Any, f) == Ok((false, row))
  {
  }

  /** `r` and `row'` are what the specification `p` describes. */
  predicate Outcome(p: Result<(bool, ValueRow)>, r: Result<bool>, row': ValueRow) {
    (p.Err? ==> r == Err(p.error)) && (p.Ok? ==> r == Ok(p.value.0) && row' == p.value.1)
  }

  // ---------------------------------------------------------------- one query

  /** The data file's lines after the header line, newlines kept. */
  function DataLines(lines: seq<string>): (data: seq<string>)
    ensures |lines| > 0 ==> lines == [lines[0]] + data
    ensures lines == [] ==> data == []
  {
    if lines == [] then [] else lines[1..]
  }

  /** `f.readline()` on the opened file: the first line, or "" for an empty file. */
  function FirstLine(lines: seq<string>): string {
    if lines == [] then "" else lines[0]
  }

  /** The displayed text of a value: a date is shown by the date formatter. */
  function Render(v: Value, f: Foreign): string {
    match v
    case Str(s) => s
    case Date(d) => f.showDate(d)
  }

  /** `{field: row[field] for field in fields}`: one item per distinct field, in order
      of first mention; a field the row lacks is a KeyError. */
  function Project(row: ValueRow, fields: seq<string>, f: Foreign): (r: Result<seq<(string, string)>>)
    ensures r.Ok? <==> forall x :: x in fields ==> x in row
    ensures r.Ok? ==> (|r.value| == |Dedup(fields)|
      && forall i :: 0 <= i < |r.value| ==>
        Dedup(fields)[i] in row && r.value[i] == (Dedup(fields)[i], Render(row[Dedup(fields)[i]], f)))
  {
    var keys := Dedup(fields);
    if forall x :: x in keys ==> x in row then
      Ok(seq(|keys|, i requires 0 <= i < |keys| => (keys[i], Render(row[keys[i]], f))))
    else
      Err(KeyError)
  }

  /** The source a query reads: the header index and the reader's dialect. */
  datatype Source = Source(headers: map<string, int>, terminator: char, encloser: char)

  /** A normalised query: the fields to return, the clauses and the reducer. */
  datatype Request = Request(fields: seq<string>, clauses: seq<Clause>, comb: Combinator)

  /** What one data line contributes: nothing, or the line written to the output file.
      `validate` says whether the line goes through `__process_line`'s validating
      first call. */
  ghost function ScanLine(src: Source, req: Request, f: Foreign, line: string, validate: bool): (r: Result<Option<string>>)
    ensures var d := Decode(line, src.terminator, src.encloser, src.headers);
      d.Err? ==> r == Err(d.error)
    ensures var d := Decode(line, src.terminator, src.encloser, src.headers);
      validate && d.Ok? && ValidateEach(TypeMap(d.value, f), req.clauses).Err? ==>
        r == Err(ValidateEach(TypeMap(d.value, f), req.clauses).error)
    ensures var d := Decode(line, src.terminator, src.encloser, src.headers);
      Admitted(src, req, f, line, validate) && Process(Lift(d.value), req.clauses, req.comb, f).Err? ==>
        r == Err(Process(Lift(d.value), req.clauses, req.comb, f).error)
    ensures var d := Decode(line, src.terminator, src.encloser, src.headers);
      Admitted(src, req, f, line, validate) && Process(Lift(d.value), req.clauses, req.comb, f).Ok? ==>
        var p := Process(Lift(d.value), req.clauses, req.comb, f).value;
        && (!p.0 ==> r == Ok(None))
        && (p.0 && Emit(p.1, req.fields, f).Err? ==> r == Err(Emit(p.1, req.fields, f).error))
        && (p.0 && Emit(p.1, req.fields, f).Ok? ==> r == Ok(Some(Emit(p.1, req.fields, f).value)))
    ensures r.Ok? <==> CleanLine(src, req, f, line, validate)
  {
    var row :- Decode(line, src.terminator, src.encloser, src.headers);
    var valid :- if validate then ValidateEach(TypeMap(row, f), req.clauses) else Ok(true);
    var p :- Process(Lift(row), req.clauses, req.comb, f);
    if !p.0 then Ok(None)
    else
      var out :- Emit(p.1, req.fields, f);
      Ok(Some(out))
  }

  /** The line decodes and, when it is the validating line, its clauses pass. */
  ghost predicate Admitted(src: Source, req: Request, f: Foreign, line: string, validate: bool) {
    var d := Decode(line, src.terminator, src.encloser, src.headers);
    d.Ok? && (validate ==> ValidateEach(TypeMap(d.value, f), req.clauses).Ok?)
  }

  /** The line is admitted, its row is evaluated without error and, if it matches,
      its requested fields are written without error. */
  ghost predicate CleanLine(src: Source, req: Request, f: Foreign, line: string, validate: bool) {
    && Admitted(src, req, f, line, validate)
    && var p := Process(Lift(Decode(line, src.terminator, src.encloser, src.headers).value), req.clauses, req.comb, f);
    && p.Ok?
    && (p.value.0 ==> Emit(p.value.1, req.fields, f).Ok?)
  }

  /** The output line of a matching row: its requested fields, encoded with a comma
      and a double quote whatever the file's own dialect, and a newline. */
  function Emit(row: ValueRow, fields: seq<string>, f: Foreign): (r: Result<string>)
    ensures r.Err? <==> fields == [] || exists x :: x in fields && x !in row
    ensures r.Err? ==> r.error == (if exists x :: x in fields && x !in row then KeyError else AttributeError)
    ensures r.Ok? ==> |r.value| > 0 && r.value[|r.value| - 1] == '\n'
    ensures r.Ok? ==> (Project(row, fields, f).Ok?
      && r.value == ConvertToString(Project(row, fields, f).value, ',', '"').value + "\n")
  {
    var items :- Project(row, fields, f);
    var out :- ConvertToString(items, ',', '"');
    Ok(out + "\n")
  }

  /** Every requested field of a matching row appears on its output line, as the
      writer encodes its displayed value (enclosed in quotes exactly when it holds a
      comma, a double quote or a line break). */
  lemma EmitShowsField(row: ValueRow, fields: seq<string>, f: Foreign, x: string)
    requires x in fields && forall y :: y in fields ==> y in row
    requires IsStripped(Render(row[x], f))
    ensures Emit(row, fields, f).Ok?
    ensures exists i :: OccursAt(Emit(row, fields, f).value, CsvLine.EncodeField(Render(row[x], f), ',', '"'), i)
  {
    var items := Project(row, fields, f).value;
    var keys := Dedup(fields);
    var k :| 0 <= k < |keys| && keys[k] == x;
    assert items[k] == (x, Render(row[x], f));
    ConvertToStringEncloses(items, ',', '"', k);
    var e := CsvLine.EncodeField(Render(row[x], f), ',', '"');
    var i :| OccursAt(ConvertToString(items, ',', '"').value, e, i);
    OccursBefore(ConvertToString(items, ',', '"').value, "\n", e, i);
  }

  /** `ScanLine` for one query, as the step the scan takes per line. */
  ghost function LineStep(src: Source, req: Request, f: Foreign): (string, bool) -> Result<Option<string>> {
    (line, validate) => ScanLine(src, req, f, line, validate)
  }

  /** The loop over the data lines, given what each line contributes: the lines
      written, in input order, and the error that stopped it, if any. Only the
      first line is validated (`validate` says whether it is). */
  function Scan(step: (string, bool) -> Result<Option<string>>, data: seq<string>, validate: bool): (r: (seq<string>, Option<Error>))
    ensures |r.0| <= |data|
    ensures r.1.None? <==> forall i :: 0 <= i < |data| ==> step(data[i], validate && i == 0).Ok?
    ensures r.1.Some? ==> exists i :: (0 <= i < |data| && step(data[i], validate && i == 0) == Err(r.1.value)
                                       && forall k :: 0 <= k < i ==> step(data[k], validate && k == 0).Ok?)
    decreases |data|
  {
    if data == [] then ([], None)
    else match step(data[0], validate)
      case Err(e) => ([], Some(e))
      case Ok(o) =>
        var rest := Scan(step, data[1..], false);
        ((if o.Some? then [o.value] else []) + rest.0, rest.1)
  }

  /** The first data line decodes and its clauses are all admissible. */
  ghost predicate FirstLineValidates(src: Source, req: Request, f: Foreign, data: seq<string>) {
    && data != []
    && Decode(data[0], src.terminator, src.encloser, src.headers).Ok?
    && ValidateEach(TypeMap(Decode(data[0], src.terminator, src.encloser, src.headers).value, f), req.clauses).Ok?
  }

  /** `out` followed by what the rest of the scan produces. */
  function Prepend(out: seq<string>, s: (seq<string>, Option<Error>)): (seq<string>, Option<Error>) {
    (out + s.0, s.1)
  }

  /** Every line written is what some data line contributed, at most one per data
      line, and in the order of the data lines. */
  lemma {:induction false} ScanWritesMatches(step: (string, bool) -> Result<Option<string>>, data: seq<string>, validate: bool)
    ensures |Scan(step, data, validate).0| <= |data|
    ensures forall j :: 0 <= j < |Scan(step, data, validate).0| ==>
      exists i :: 0 <= i < |data| && step(data[i], validate && i == 0) == Ok(Some(Scan(step, data, validate).0[j]))
    decreases |data|
  {
    if data != [] && step(data[0], validate).Ok? {
      var o := step(data[0], validate).value;
      var rest := Scan(step, data[1..], false);
      ScanWritesMatches(step, data[1..], false);
      var out := Scan(step, data, validate).0;
      var head := if o.Some? then [o.value] else [];
      assert out == head + rest.0;
      forall j | 0 <= j < |out|
        ensures exists i :: 0 <= i < |data| && step(data[i], validate && i == 0) == Ok(Some(out[j]))
      {
        if j < |head| {
          assert step(data[0], validate && 0 == 0) == Ok(Some(out[j]));
        } else {
          var i :| 0 <= i < |data[1..]| && step(data[1..][i], false && i == 0) == Ok(Some(rest.0[j - |head|]));
          assert step(data[i + 1], validate && i + 1 == 0) == Ok(Some(out[j]));
        }
      }
    }
  }

  /** A data line's contribution is an output line. */
  predicate Yields(o: Result<Option<string>>) {
    o.Ok? && o.value.Some?
  }

  /** Data line `i` contributes an output line (only line 0 may be validated). */
  predicate YieldsAt(step: (string, bool) -> Result<Option<string>>, data: seq<string>, validate: bool, i: int)
    requires 0 <= i < |data|
  {
    Yields(step(data[i], validate && i == 0))
  }

  /** Past the first data line, the scan of the rest sees the same lines, unvalidated. */
  lemma YieldsAtRest(step: (string, bool) -> Result<Option<string>>, data: seq<string>, validate: bool, i: int)
    requires 0 < i < |data|
    ensures YieldsAt(step, data, validate, i) == YieldsAt(step, data[1..], false, i - 1)
    ensures step(data[i], validate && i == 0) == step(data[1..][i - 1], false && i - 1 == 0)
  {
    assert data[1..][i - 1] == data[i];
  }

  /** Every position one further on. */
  function Shift(idx: seq<nat>): (r: seq<nat>)
    ensures |r| == |idx| && forall j :: 0 <= j < |idx| ==> r[j] == idx[j] + 1
  {
    seq(|idx|, j requires 0 <= j < |idx| => idx[j] + 1)
  }

  /** Strictly increasing positions. */
  predicate Increasing(idx: seq<nat>) {
    forall j, k :: 0 <= j < k < |idx| ==> idx[j] < idx[k]
  }

  /** The positions of the data lines that contribute an output line, in increasing
      order: exactly those lines, each once. */
  function MatchIndices(step: (string, bool) -> Result<Option<string>>, data: seq<string>, validate: bool): (idx: seq<nat>)
    ensures forall j :: 0 <= j < |idx| ==> idx[j] < |data| && YieldsAt(step, data, validate, idx[j])
    ensures Increasing(idx)
    ensures forall i :: 0 <= i < |data| && YieldsAt(step, data, validate, i) ==> i in idx
    decreases |data|
  {
    if data == [] then []
    else
      var rest := MatchIndices(step, data[1..], false);
      var shifted := Shift(rest);
      var first := YieldsAt(step, data, validate, 0);
      var head: seq<nat> := if first then [0] else [];
      var idx := head + shifted;
      MatchIndicesStep(step, data, validate, rest, first, idx);
      idx
  }

  /** The positions of the whole data are the first line's, if it yields, and those
      of the rest, shifted. */
  lemma MatchIndicesStep(step: (string, bool) -> Result<Option<string>>, data: seq<string>, validate: bool,
                         rest: seq<nat>, first: bool, idx: seq<nat>)
    requires data != [] && first == YieldsAt(step, data, validate, 0)
    requires forall j :: 0 <= j < |rest| ==> rest[j] < |data[1..]| && YieldsAt(step, data[1..], false, rest[j])
    requires Increasing(rest)
    requires forall i :: 0 <= i < |data[1..]| && YieldsAt(step, data[1..], false, i) ==> i in rest
    requires idx == (if first then [0] else []) + Shift(rest)
    ensures forall j :: 0 <= j < |idx| ==> idx[j] < |data| && YieldsAt(step, data, validate, idx[j])
    ensures Increasing(idx)
    ensures forall i :: 0 <= i < |data| && YieldsAt(step, data, validate, i) ==> i in idx
  {
    MatchIndicesYield(step, data, validate, rest, first, idx);
    MatchIndicesIncrease(rest, first, idx);
    MatchIndicesComplete(step, data, validate, rest, first, idx);
  }

  lemma MatchIndicesYield(step: (string, bool) -> Result<Option<string>>, data: seq<string>, validate: bool,
                         rest: seq<nat>, first: bool, idx: seq<nat>)
    requires data != [] && first == YieldsAt(step, data, validate, 0)
    requires forall j :: 0 <= j < |rest| ==> rest[j] < |data[1..]| && YieldsAt(step, data[1..], false, rest[j])
    requires idx == (if first then [0] else []) + Shift(rest)
    ensures forall j :: 0 <= j < |idx| ==> idx[j] < |data| && YieldsAt(step, data, validate, idx[j])
  {
    var h := if first then 1 else 0;
    forall j | 0 <= j < |idx| ensures idx[j] < |data| && YieldsAt(step, data, validate, idx[j]) {
      if j >= h {
        assert idx[j] == rest[j - h] + 1;
        YieldsAtRest(step, data, validate, rest[j - h] + 1);
      }
    }
  }

  lemma MatchIndicesIncrease(rest: seq<nat>, first: bool, idx: seq<nat>)
    requires Increasing(rest)
    requires idx == (if first then [0] else []) + Shift(rest)
    ensures Increasing(idx)
  {
    var h := if first then 1 else 0;
    forall j, k | 0 <= j < k < |idx| ensures idx[j] < idx[k] {
      assert idx[k] == rest[k - h] + 1;
      if j >= h {
        assert idx[j] == rest[j - h] + 1;
      }
    }
  }

  lemma MatchIndicesComplete(step: (string, bool) -> Result<Option<string>>, data: seq<string>, validate: bool,
                         rest: seq<nat>, first: bool, idx: seq<nat>)
    requires data != [] && first == YieldsAt(step, data, validate, 0)
    requires forall i :: 0 <= i < |data[1..]| && YieldsAt(step, data[1..], false, i) ==> i in rest
    requires idx == (if first then [0] else []) + Shift(rest)
    ensures forall i :: 0 <= i < |data| && YieldsAt(step, data, validate, i) ==> i in idx
  {
    var h := if first then 1 else 0;
    forall i | 0 <= i < |data| && YieldsAt(step, data, validate, i) ensures i in idx {
      if i > 0 {
        YieldsAtRest(step, data, validate, i);
        var j :| 0 <= j < |rest| && rest[j] == i - 1;
        assert idx[h + j] == i;
      } else {
        assert idx[0] == 0;
      }
    }
  }

  /** A scan that meets no error writes, as its `j`-th line, the line contributed by
      the `j`-th matching data line: the lines written are the matching lines' output,
      one each, in input order. */
  lemma {:induction false} ScanWritesMatchesInOrder(step: (string, bool) -> Result<Option<string>>, data: seq<string>, validate: bool)
    requires Scan(step, data, validate).1 == None
    ensures var out := Scan(step, data, validate).0; var idx := MatchIndices(step, data, validate);
      |out| == |idx| && forall j :: 0 <= j < |out| ==> step(data[idx[j]], validate && idx[j] == 0) == Ok(Some(out[j]))
    decreases |data|
  {
    if data != [] {
      var o := step(data[0], validate);
      var rest := Scan(step, data[1..], false);
      var head := if o.value.Some? then [o.value.value] else [];
      assert Scan(step, data, validate) == Prepend(head, rest);
      ScanWritesMatchesInOrder(step, data[1..], false);
      var ridx := MatchIndices(step, data[1..], false);
      assert MatchIndices(step, data, validate) == (if YieldsAt(step, data, validate, 0) then [0] else []) + Shift(ridx);
      InOrderCons(step, data, validate, head, rest.0, ridx);
    }
  }

  /** The in-order property for a scan whose first line contributes `head`, given it
      for the rest of the data. */
  lemma InOrderCons(step: (string, bool) -> Result<Option<string>>, data: seq<string>, validate: bool,
                    head: seq<string>, restOut: seq<string>, ridx: seq<nat>)
    requires data != [] && step(data[0], validate).Ok?
    requires head == (if step(data[0], validate).value.Some? then [step(data[0], validate).value.value] else [])
    requires |restOut| == |ridx|
    requires forall j :: 0 <= j < |ridx| ==> ridx[j] < |data[1..]| && step(data[1..][ridx[j]], false && ridx[j] == 0) == Ok(Some(restOut[j]))
    ensures var out := head + restOut; var idx := (if YieldsAt(step, data, validate, 0) then [0] else []) + Shift(ridx);
      |out| == |idx| && forall j :: 0 <= j < |out| ==> idx[j] < |data| && step(data[idx[j]], validate && idx[j] == 0) == Ok(Some(out[j]))
  {
    var out := head + restOut;
    var idx: seq<nat> := (if YieldsAt(step, data, validate, 0) then [0] else []) + Shift(ridx);
    var h := |head|;
    assert YieldsAt(step, data, validate, 0) <==> h == 1;
    forall j | 0 <= j < |out| ensures idx[j] < |data| && step(data[idx[j]], validate && idx[j] == 0) == Ok(Some(out[j])) {
      if j >= h {
        var m := ridx[j - h];
        assert idx[j] == m + 1 && out[j] == restOut[j - h];
        YieldsAtRest(step, data, validate, m + 1);
      } else {
        assert idx[j] == 0 && out[j] == head[0];
      }
    }
  }

  /** The values in a sequence of positions. */
  function Elems(idx: seq<nat>): set<nat> {
    set x | x in idx
  }

  /** A strictly increasing sequence has as many values as elements. */
  lemma {:induction false} IncreasingCard(idx: seq<nat>)
    requires Increasing(idx)
    ensures |Elems(idx)| == |idx|
  {
    if idx == [] {
      assert Elems(idx) == {};
    } else {
      var tail := idx[1..];
      IncreasingCard(tail);
      assert idx[0] !in Elems(tail) by {
        forall k | 0 <= k < |tail| ensures tail[k] != idx[0] {
          assert tail[k] == idx[k + 1];
        }
      }
      assert Elems(idx) == Elems(tail) + {idx[0]} by {
        assert idx == [idx[0]] + tail;
      }
    }
  }

  /** A scan that meets no error writes as many lines as there are data lines that
      contribute one (for `query`: the lines whose row satisfies the combinator). */
  lemma ScanCountsMatches(step: (string, bool) -> Result<Option<string>>, data: seq<string>, validate: bool)
    requires Scan(step, data, validate).1 == None
    ensures |Scan(step, data, validate).0| == |set i | 0 <= i < |data| && YieldsAt(step, data, validate, i)|
  {
    var idx := MatchIndices(step, data, validate);
    ScanWritesMatchesInOrder(step, data, validate);
    IncreasingCard(idx);
    assert Elems(idx) == set i | 0 <= i < |data| && YieldsAt(step, data, validate, i);
  }

  /** A query's scan raises nothing exactly when every data line is clean: it decodes,
      the first line's clauses pass when it is validated, its row is evaluated without
      error, and a matching row's fields are written without error. */
  lemma ScanRaisesNothing(src: Source, req: Request, f: Foreign, data: seq<string>, validate: bool)
    ensures Scan(LineStep(src, req, f), data, validate).1 == None <==>
      forall i :: 0 <= i < |data| ==> CleanLine(src, req, f, data[i], validate && i == 0)
  {
    var step := LineStep(src, req, f);
    forall i | 0 <= i < |data|
      ensures step(data[i], validate && i == 0).Ok? <==> CleanLine(src, req, f, data[i], validate && i == 0)
    {
      assert step(data[i], validate && i == 0) == ScanLine(src, req, f, data[i], validate && i == 0);
    }
  }

  /** One step of the scan, after the lines `out` already written. */
  lemma ScanResume(step: (string, bool) -> Result<Option<string>>, data: seq<string>, i: nat, validate: bool, out: seq<string>)
    requires i < |data|
    ensures step(data[i], validate).Err? ==>
      Prepend(out, Scan(step, data[i..], validate)) == (out, Some(step(data[i], validate).error))
    ensures step(data[i], validate) == Ok(None) ==>
      Prepend(out, Scan(step, data[i..], validate)) == Prepend(out, Scan(step, data[i + 1..], false))
    ensures step(data[i], validate).Ok? && step(data[i], validate).value.Some? ==>
      Prepend(out, Scan(step, data[i..], validate)) == Prepend(out + [step(data[i], validate).value.value], Scan(step, data[i + 1..], false))
  {
    assert data[i..][0] == data[i] && data[i..][1..] == data[i + 1..];
    var rest := Scan(step, data[i + 1..], false);
    if step(data[i], validate) == Ok(None) {
      assert [] + rest.0 == rest.0;
    } else if step(data[i], validate).Ok? {
      var x := step(data[i], validate).value.value;
      assert out + ([x] + rest.0) == (out + [x]) + rest.0;
    } else {
      assert out + [] == out;
    }
  }

  /** When every line contributes an output line, the scan writes them all, in order. */
  lemma {:induction false} ScanWritesEvery(step: (string, bool) -> Result<Option<string>>, data: seq<string>, validate: bool)
    requires forall i :: 0 <= i < |data| ==> step(data[i], validate && i == 0).Ok? && step(data[i], validate && i == 0).value.Some?
    ensures Scan(step, data, validate).1 == None
    ensures |Scan(step, data, validate).0| == |data|
    ensures forall i :: 0 <= i < |data| ==> Scan(step, data, validate).0[i] == step(data[i], validate && i == 0).value.value
    decreases |data|
  {
    if data != [] {
      assert step(data[0], validate && 0 == 0).Ok?;
      forall i | 0 <= i < |data[1..]|
        ensures step(data[1..][i], false && i == 0).Ok? && step(data[1..][i], false && i == 0).value.Some?
      {
        assert data[1..][i] == data[i + 1] && (validate && i + 1 == 0) == (false && i == 0);
      }
      ScanWritesEvery(step, data[1..], false);
      var rest := Scan(step, data[1..], false).0;
      forall i | 0 <= i < |data|
        ensures Scan(step, data, validate).0[i] == step(data[i], validate && i == 0).value.value
      {
        if i > 0 {
          assert Scan(step, data, validate).0[i] == rest[i - 1];
          assert data[1..][i - 1] == data[i] && (validate && i == 0) == (false && i - 1 == 0);
        }
      }
    }
  }

  /** When no line contributes anything nor fails, the scan writes nothing. */
  lemma {:induction false} ScanWritesNothing(step: (string, bool) -> Result<Option<string>>, data: seq<string>, validate: bool)
    requires forall i :: 0 <= i < |data| ==> step(data[i], validate && i == 0) == Ok(None)
    ensures Scan(step, data, validate) == ([], None)
    decreases |data|
  {
    if data != [] {
      assert step(data[0], validate && 0 == 0) == Ok(None);
      forall i | 0 <= i < |data[1..]| ensures step(data[1..][i], false && i == 0) == Ok(None) {
        assert data[1..][i] == data[i + 1] && (validate && i + 1 == 0) == (false && i == 0);
      }
      ScanWritesNothing(step, data[1..], false);
      var rest := Scan(step, data[1..], false);
      assert rest == ([], None);
      assert Scan(step, data, validate) == ([] + rest.0, rest.1);
      assert [] + rest.0 == [];
    }
  }

  /** A line whose clauses are all admissible is treated alike whether or not it is
      validated. */
  lemma ScanLineValidated(src: Source, req: Request, f: Foreign, line: string)
    requires Decode(line, src.terminator, src.encloser, src.headers).Ok?
    requires ValidateEach(TypeMap(Decode(line, src.terminator, src.encloser, src.headers).value, f), req.clauses).Ok?
    ensures ScanLine(src, req, f, line, true) == ScanLine(src, req, f, line, false)
  {
  }

  /** Validation changes nothing but the error raised: once the first line's clauses
      are admissible, a validating scan is a non-validating one. */
  lemma ValidationAdmitsSameScan(src: Source, req: Request, f: Foreign, data: seq<string>)
    requires FirstLineValidates(src, req, f, data)
    ensures Scan(LineStep(src, req, f), data, true) == Scan(LineStep(src, req, f), data, false)
  {
    var step := LineStep(src, req, f);
    ScanLineValidated(src, req, f, data[0]);
    assert step(data[0], true) == step(data[0], false);
    ScanFirstStep(step, data, true);
    ScanFirstStep(step, data, false);
  }

  /** The scan after its first step depends on the first line's contribution only. */
  lemma ScanFirstStep(step: (string, bool) -> Result<Option<string>>, data: seq<string>, validate: bool)
    requires data != []
    ensures Scan(step, data, validate) == match step(data[0], validate)
      case Err(e) => ([], Some(e))
      case Ok(o) => Prepend(if o.Some? then [o.value] else [], Scan(step, data[1..], false))
  {
  }

  /** An unknown condition is reported as a ValueError by a validating scan, but as a
      KeyError once the object has validated an earlier query. */
  lemma UnknownConditionReported(src: Source, req: Request, f: Foreign, data: seq<string>)
    requires |req.clauses| == 1
    requires Lookup(req.clauses[0].condition).None?
    requires data != [] && Decode(data[0], src.terminator, src.encloser, src.headers).Ok?
    ensures Scan(LineStep(src, req, f), data, true).1 == Some(ValueError(UnknownCondition(UnknownConditionMessageAsWritten())))
    ensures Scan(LineStep(src, req, f), data, false).1 == Some(KeyError)
  {
    var row := Decode(data[0], src.terminator, src.encloser, src.headers).value;
    assert ValidateEach(TypeMap(row, f), req.clauses) == Validate(TypeMap(row, f), req.clauses[0]);
    assert Evaluate(Lift(row), req.clauses, f) == Err(KeyError);
    assert ScanLine(src, req, f, data[0], true) == Err(ValueError(UnknownCondition(UnknownConditionMessageAsWritten())));
    assert ScanLine(src, req, f, data[0], false) == Err(KeyError);
  }

  /** Without clauses a line is treated alike whether or not it is validated, and under
      `any` a decodable line is never written. */
  lemma ScanLineNoClauses(src: Source, req: Request, f: Foreign, line: string, validate: bool)
    requires req.clauses == []
    ensures ScanLine(src, req, f, line, validate) == ScanLine(src, req, f, line, false)
    ensures req.comb == Any && Decode(line, src.terminator, src.encloser, src.headers).Ok? ==>
      ScanLine(src, req, f, line, validate) == Ok(None)
    ensures req.comb == All && ScanLine(src, req, f, line, validate).Ok? ==>
      ScanLine(src, req, f, line, validate).value.Some?
  {
    var row := Decode(line, src.terminator, src.encloser, src.headers);
    if row.Ok? {
      assert ValidateEach(TypeMap(row.value, f), req.clauses) == Ok(true);
      var p := Process(Lift(row.value), req.clauses, req.comb, f);
      assert p == Ok((req.comb == All, Lift(row.value)));
      if req.comb == All {
        var e := Emit(Lift(row.value), req.fields, f);
        assert ScanLine(src, req, f, line, validate) == (if e.Err? then Err(e.error) else Ok(Some(e.value)));
      }
    }
  }

  /** With no clauses under `all`, every data line is written, in order. */
  lemma EmptyAllWritesEveryRow(src: Source, req: Request, f: Foreign, data: seq<string>, validate: bool)
    requires req.clauses == [] && req.comb == All
    requires forall i :: 0 <= i < |data| ==> ScanLine(src, req, f, data[i], false).Ok?
    ensures Scan(LineStep(src, req, f), data, validate).1 == None
    ensures |Scan(LineStep(src, req, f), data, validate).0| == |data|
    ensures forall i :: 0 <= i < |data| ==>
      ScanLine(src, req, f, data[i], false) == Ok(Some(Scan(LineStep(src, req, f), data, validate).0[i]))
  {
    var step := LineStep(src, req, f);
    forall i | 0 <= i < |data|
      ensures step(data[i], validate && i == 0) == ScanLine(src, req, f, data[i], false)
      ensures step(data[i], validate && i == 0).Ok? && step(data[i], validate && i == 0).value.Some?
    {
      var v := validate && i == 0;
      assert step(data[i], v) == ScanLine(src, req, f, data[i], v);
      ScanLineNoClauses(src, req, f, data[i], v);
    }
    ScanWritesEvery(step, data, validate);
  }

  /** With no clauses under `any`, a scan of decodable lines writes nothing. */
  lemma EmptyAnyWritesNothing(src: Source, req: Request, f: Foreign, data: seq<string>, validate: bool)
    requires req.clauses == [] && req.comb == Any
    requires forall i :: 0 <= i < |data| ==> Decode(data[i], src.terminator, src.encloser, src.headers).Ok?
    ensures Scan(LineStep(src, req, f), data, validate) == ([], None)
  {
    var step := LineStep(src, req, f);
    forall i | 0 <= i < |data| ensures step(data[i], validate && i == 0) == Ok(None) {
      ScanLineNoClauses(src, req, f, data[i], validate && i == 0);
    }
    ScanWritesNothing(step, data, validate);
  }

  // ---------------------------------------------------------------- statistics

  /** The key `statistics` extracts from each data line (None when the search finds
      nothing), or the error that stops it: a decoding error, or a FieldHeaderError
      for a field the row lacks. */
  ghost function Extracted(src: Source, field: string, extract: string -> Option<string>, data: seq<string>): Result<seq<Option<string>>>
    decreases |data|
  {
    if data == [] then Ok([])
    else
      var row :- Decode(data[0], src.terminator, src.encloser, src.headers);
      if field !in row then Err(FieldHeaderError([field], row.Keys))
      else
        var rest :- Extracted(src, field, extract, data[1..]);
        Ok([extract(row[field])] + rest)
  }

  /** How many of the extracted keys are `k`. */
  function Count(ks: seq<Option<string>>, k: string): nat {
    if ks == [] then 0
    else Count(ks[..|ks| - 1], k) + (if ks[|ks| - 1] == Some(k) then 1 else 0)
  }

  /** The tally of a file split in two is the sum of the tallies of the parts. */
  lemma {:induction false} CountAppend(a: seq<Option<string>>, b: seq<Option<string>>, k: string)
    ensures Count(a + b, k) == Count(a, k) + Count(b, k)
    decreases |b|
  {
    if b != [] {
      assert (a + b)[..|a + b| - 1] == a + b[..|b| - 1];
      assert (a + b)[|a + b| - 1] == b[|b| - 1];
      CountAppend(a, b[..|b| - 1], k);
    } else {
      assert a + b == a;
    }
  }

  /** A key that never comes up has no count. */
  lemma {:induction false} CountZero(ks: seq<Option<string>>, k: string)
    ensures Count(ks, k) == 0 <==> forall i :: 0 <= i < |ks| ==> ks[i] != Some(k)
    decreases |ks|
  {
    if ks != [] {
      CountZero(ks[..|ks| - 1], k);
    }
  }

  /** `ks` followed by what the rest of the file yields. */
  function PrependKeys(ks: seq<Option<string>>, r: Result<seq<Option<string>>>): Result<seq<Option<string>>> {
    if r.Err? then r else Ok(ks + r.value)
  }

  /** `stats` holds exactly the keys seen so far, each with its count. */
  ghost predicate Tallies(stats: map<string, nat>, ks: seq<Option<string>>) {
    forall k :: (k in stats <==> Count(ks, k) > 0) && (k in stats ==> stats[k] == Count(ks, k))
  }

  /** The tally after one more line, which yields `key`. */
  function Bump(stats: map<string, nat>, key: Option<string>): map<string, nat> {
    if key.None? then stats
    else stats[key.value := if key.value in stats then stats[key.value] + 1 else 1]
  }

  /** Counting one more line keeps the tally exact. */
  lemma TalliesStep(stats: map<string, nat>, ks: seq<Option<string>>, key: Option<string>)
    requires Tallies(stats, ks)
    ensures Tallies(Bump(stats, key), ks + [key])
  {
    assert (ks + [key])[..|ks + [key]| - 1] == ks;
    forall k
      ensures (k in Bump(stats, key) <==> Count(ks + [key], k) > 0)
      ensures k in Bump(stats, key) ==> Bump(stats, key)[k] == Count(ks + [key], k)
    {
      assert Count(ks + [key], k) == Count(ks, k) + (if key == Some(k) then 1 else 0);
    }
  }

  /** One step of `Extracted`: the first line's key, or the error it raises. */
  lemma ExtractedStep(src: Source, field: string, extract: string -> Option<string>, data: seq<string>)
    requires data != []
    ensures var row := Decode(data[0], src.terminator, src.encloser, src.headers);
      Extracted(src, field, extract, data) ==
        if row.Err? then Err(row.error)
        else if field !in row.value then Err(FieldHeaderError([field], row.value.Keys))
        else PrependKeys([extract(row.value[field])], Extracted(src, field, extract, data[1..]))
  {
  }

  /** Prepending in two steps is prepending the concatenation. */
  lemma PrependKeysTwice(a: seq<Option<string>>, b: seq<Option<string>>, r: Result<seq<Option<string>>>)
    ensures PrependKeys(a, PrependKeys(b, r)) == PrependKeys(a + b, r)
  {
    if r.Ok? {
      assert a + (b + r.value) == (a + b) + r.value;
    }
  }

  // ---------------------------------------------------------------- the object

  /** The `{'data': {'filename': …, 'records': …}}` that `query` returns. */
  datatype QueryResult = QueryResult(filename: string, records: nat)

  /** `` `sep`.join(fields) `` followed by a newline: the output file's header line. */
  function HeaderLine(fields: seq<string>): string {
    Join(fields, ", ") + "\n"
  }

  class DataTool {
    const filename: string
    const terminator: char
    const encloser: char
    /** Header name to column position, read from the file's first line. */
    const headers: map<string, int>
    /** Whether `__process_line` has already rebound itself to `__process_query`:
        from then on, for the object's whole life, lines are no longer validated. */
    var validated: bool

    /** The object over a file whose header line has been indexed. */
    constructor (filename: string, terminator: char, encloser: char, headers: map<string, int>)
      ensures this.filename == filename && this.terminator == terminator && this.encloser == encloser
      ensures this.headers == headers
      ensures !validated
    {
      this.filename := filename;
      this.terminator := terminator;
      this.encloser := encloser;
      this.headers := headers;
      validated := false;
    }

    /** `DataTool(filename=…, terminator=…, encloser=…)`: the file system is the map
        from existing paths to their lines; a path not in it is an AttributeError.
        The index is built from the stripped first line (empty for an empty file). */
    static method Open(fs: map<string, seq<string>>, filename: string, terminator: char, encloser: char)
      returns (r: Result<DataTool>)
      ensures r.Err? <==> filename !in fs
      ensures r.Err? ==> r.error == AttributeError
      ensures r.Ok? ==> (fresh(r.value) && !r.value.validated
        && r.value.filename == filename && r.value.terminator == terminator && r.value.encloser == encloser
        && r.value.headers == GetIndexes(Strip(FirstLine(fs[filename])), terminator, encloser))
    {
      if filename !in fs {
        return Err(AttributeError);
      }
      var headerString := Strip(FirstLine(fs[filename]));
      var tool := new DataTool(filename, terminator, encloser, GetIndexes(headerString, terminator, encloser));
      r := Ok(tool);
    }

    /** The index and dialect this object reads with. */
    function Src(): Source {
      Source(headers, terminator, encloser)
    }

    /** `__process_query`: evaluates every clause on the row, converting BEFORE/AFTER
        fields as it goes, then reduces the results. */
    method ProcessQuery(row: ValueRow, cs: seq<Clause>, comb: Combinator, f: Foreign)
      returns (r: Result<bool>, row': ValueRow)
      ensures Outcome(Process(row, cs, comb, f), r, row')
    {
      var results: seq<bool> := [];
      row' := row;
      assert cs[0..] == cs;
      ghost var e0 := Evaluate(row, cs, f);
      if e0.Ok? {
        assert [] + e0.value.0 == e0.value.0;
      }
      for i := 0 to |cs|
        invariant Evaluate(row, cs, f) == (
          var rest := Evaluate(row', cs[i..], f);
          if rest.Err? then rest else Ok((results + rest.value.0, rest.value.1)))
      {
        assert cs[i..][0] == cs[i] && cs[i..][1..] == cs[i + 1..];
        var step := EvalClause(row', cs[i], f);
        if step.Err? {
          return Err(step.error), row';
        }
        ghost var rest := Evaluate(step.value.1, cs[i + 1..], f);
        assert Evaluate(row', cs[i..], f) == (if rest.Err? then rest else Ok(([step.value.0] + rest.value.0, rest.value.1)));
        if rest.Ok? {
          assert results + ([step.value.0] + rest.value.0) == (results + [step.value.0]) + rest.value.0;
        }
        results := results + [step.value.0];
        row' := step.value.1;
      }
      assert cs[|cs|..] == [] && results + [] == results;
      r := Ok(Combine(comb, results));
    }

    /** `__process_line`: on this object's first call the row's value types are
        inferred and every clause validated, after which the object stops validating;
        then the row is evaluated. */
    method ProcessLine(row: Row, cs: seq<Clause>, comb: Combinator, f: Foreign)
      returns (r: Result<bool>, row': ValueRow)
      modifies this
      ensures validated == (old(validated) || ValidateEach(TypeMap(row, f), cs).Ok?)
      ensures !old(validated) && ValidateEach(TypeMap(row, f), cs).Err? ==> r == Err(ValidateEach(TypeMap(row, f), cs).error)
      ensures validated ==> Outcome(Process(Lift(row), cs, comb, f), r, row')
    {
      if !validated {
        var types := ConvertToTypes(row, f);
        for i := 0 to |cs|
          invariant ValidateEach(types, cs) == ValidateEach(types, cs[i..])
        {
          assert cs[i..][1..] == cs[i + 1..];
          var v := Validate(types, cs[i]);
          if v.Err? {
            return Err(v.error), Lift(row);
          }
        }
        assert cs[|cs|..] == [];
        validated := true;
      }
      r, row' := ProcessQuery(Lift(row), cs, comb, f);
    }

    /** `query`: normalises the clauses (the caller's clauses are changed in place,
        returned here as `normalized`), checks that every requested and every queried
        field is a header, writes the header line, then scans the data lines of the
        file `lines`, writing each matching row's requested fields as a CSV line.
        The lines written before an error stay written. */
    method Query(lines: seq<string>, fields: seq<string>, where: Where, matchAll: bool, outfile: string, f: Foreign)
      returns (r: Result<QueryResult>, written: seq<string>, normalized: seq<Clause>)
      modifies this
      ensures normalized == NormalizeAll(Clauses(where), f)
      ensures !AllIn(fields, headers.Keys) ==>
        r == Err(FieldHeaderError(fields, headers.Keys)) && written == [] && validated == old(validated)
      ensures AllIn(fields, headers.Keys) && !AllIn(FieldsOf(normalized), headers.Keys) ==>
        r == Err(FieldHeaderError(FieldsOf(normalized), headers.Keys)) && written == [] && validated == old(validated)
      ensures AllIn(fields, headers.Keys) && AllIn(FieldsOf(normalized), headers.Keys) ==>
        var req := Request(fields, normalized, if matchAll then All else Any);
        var s := Scan(LineStep(Src(), req, f), DataLines(lines), !old(validated));
        && written == [HeaderLine(fields)] + s.0
        && validated == (old(validated) || FirstLineValidates(Src(), req, f, DataLines(lines)))
        && (s.1.Some? ==> r == Err(s.1.value))
        && (s.1.None? ==> r == Ok(QueryResult(outfile, |s.0|)))
    {
      var cs := Clauses(where);
      normalized := [];
      var queryFields: seq<string> := [];
      for i := 0 to |cs|
        invariant normalized == NormalizeAll(cs[..i], f)
        invariant queryFields == FieldsOf(normalized)
      {
        normalized := normalized + [Normalize(cs[i], f)];
        queryFields := queryFields + [Normalize(cs[i], f).field];
      }
      assert cs[..|cs|] == cs;
      if !AllIn(fields, headers.Keys) {
        return Err(FieldHeaderError(fields, headers.Keys)), [], normalized;
      }
      if !AllIn(queryFields, headers.Keys) {
        return Err(FieldHeaderError(queryFields, headers.Keys)), [], normalized;
      }
      var comb := if matchAll then All else Any;
      var req := Request(fields, normalized, comb);
      var out, failure := ScanLines(DataLines(lines), req, f);
      written := [HeaderLine(fields)] + out;
      if failure.Some? {
        return Err(failure.value), written, normalized;
      }
      r := Ok(QueryResult(outfile, |out|));
    }

    /** The loop of `query` over the data lines: the lines written, and the error that
        stopped it, if any. */
    method ScanLines(data: seq<string>, req: Request, f: Foreign) returns (out: seq<string>, failure: Option<Error>)
      modifies this
      ensures (out, failure) == Scan(LineStep(Src(), req, f), data, !old(validated))
      ensures validated == (old(validated) || FirstLineValidates(Src(), req, f, data))
    {
      ghost var v0 := !validated;
      out := [];
      assert data[0..] == data;
      ghost var s0 := Scan(LineStep(Src(), req, f), data, v0);
      assert [] + s0.0 == s0.0;
      for i := 0 to |data|
        invariant Scan(LineStep(Src(), req, f), data, v0) == Prepend(out, Scan(LineStep(Src(), req, f), data[i..], !validated))
        invariant validated == (old(validated) || (i > 0 && FirstLineValidates(Src(), req, f, data)))
        invariant i > 0 ==> validated
      {
        ghost var validate := !validated;
        var o := QueryLine(data[i], req, f);
        ScanResume(LineStep(Src(), req, f), data, i, validate, out);
        if o.Err? {
          return out, Some(o.error);
        }
        if o.value.Some? {
          out := out + [o.value.value];
        }
      }
      assert data[|data|..] == [] && out + [] == out;
      failure := None;
    }

    /** One pass of the loop in `query`: the line is decoded and processed and, when
        it matches, its requested fields are encoded as an output line. */
    method QueryLine(line: string, req: Request, f: Foreign) returns (o: Result<Option<string>>)
      modifies this
      ensures o == ScanLine(Src(), req, f, line, !old(validated))
      ensures validated == (old(validated) || (Decode(line, terminator, encloser, headers).Ok?
        && ValidateEach(TypeMap(Decode(line, terminator, encloser, headers).value, f), req.clauses).Ok?))
      ensures o.Ok? ==> validated
    {
      var row := ConvertToDict(line, terminator, encloser, headers);
      if row.Err? {
        return Err(row.error);
      }
      var ok, row' := ProcessLine(row.value, req.clauses, req.comb, f);
      if ok.Err? {
        return Err(ok.error);
      }
      if !ok.value {
        return Ok(None);
      }
      var items := Project(row', req.fields, f);
      if items.Err? {
        return Err(items.error);
      }
      var out := ConvertToString(items.value, ',', '"');
      if out.Err? {
        return Err(out.error);
      }
      o := Ok(Some(out.value + "\n"));
    }

    /** The `#` tally of `statistics`: for each data line, the field's value is looked
        up (a missing field is a FieldHeaderError naming the row's keys) and handed to
        `extract` (the compiled search with its group selection); each key extracted
        is counted once per line that yields it. */
    method Statistics(lines: seq<string>, field: string, extract: string -> Option<string>)
      returns (r: Result<map<string, nat>>)
      ensures var e := Extracted(Src(), field, extract, DataLines(lines));
        && (e.Err? ==> r == Err(e.error))
        && (e.Ok? ==> r.Ok? && Tallies(r.value, e.value))
    {
      var data := DataLines(lines);
      var stats: map<string, nat> := map[];
      ghost var seen: seq<Option<string>> := [];
      assert data[0..] == data;
      ghost var e0 := Extracted(Src(), field, extract, data);
      if e0.Ok? {
        assert [] + e0.value == e0.value;
      }
      for i := 0 to |data|
        invariant Extracted(Src(), field, extract, data) == PrependKeys(seen, Extracted(Src(), field, extract, data[i..]))
        invariant Tallies(stats, seen)
      {
        ExtractedStep(Src(), field, extract, data[i..]);
        assert data[i..][0] == data[i] && data[i..][1..] == data[i + 1..];
        var row := ConvertToDict(data[i], terminator, encloser, headers);
        if row.Err? {
          return Err(row.error);
        }
        if field !in row.value {
          return Err(FieldHeaderError([field], row.value.Keys));
        }
        var key := extract(row.value[field]);
        PrependKeysTwice(seen, [key], Extracted(Src(), field, extract, data[i + 1..]));
        TalliesStep(stats, seen, key);
        stats := Bump(stats, key);
        seen := seen + [key];
      }
      assert data[|data|..] == [];
      assert seen + [] == seen;
      r := Ok(stats);
    }
  }
}
