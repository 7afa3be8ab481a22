/**
 * The survey filter: the criteria become a list of equality predicates on
 * numeric columns, and the table is narrowed to the rows that satisfy all of
 * them. `Filter` and `FilterSpec` are the specification; `FilterData` is the
 * step-by-step procedure that applies one predicate at a time.
 */
module SurveyFilter {
  import opened Wrappers
  import opened Numbers
  import opened Survey

  /** One equality predicate `table[column] == target`. */
  datatype Constraint = Constraint(column: string, target: Decimal)

  /** A NaN cell (a column missing from the row) equals nothing. */
  predicate Holds(r: Row, c: Constraint) {
    c.column in r.numeric && EqualsInt(c.target, r.numeric[c.column])
  }

  predicate Satisfies(r: Row, cs: seq<Constraint>) {
    forall c :: c in cs ==> Holds(r, c)
  }

  /** The rows that satisfy every constraint, in table order, each row unchanged. */
  function Filter(rows: Table, cs: seq<Constraint>): (kept: Table)
    ensures |kept| <= |rows|
  {
    if rows == [] then []
    else (if Satisfies(rows[0], cs) then [rows[0]] else []) + Filter(rows[1..], cs)
  }

  /** The predicates of the categorical selectors that decoded to a code. */
  function CodeConstraints(fs: seq<ColumnFilter>): seq<Constraint> {
    if fs == [] then []
    else
      var init := CodeConstraints(fs[..|fs| - 1]);
      var f := fs[|fs| - 1];
      match f.code
      case None => init
      case Some(code) => init + [Constraint(f.column, Decimal(code, 0))]
  }

  /** An answer other than "Any" on which float() raises. */
  predicate AnswerInvalid(ch: LikertChoice) {
    ch.answer != Any && ParseFloat(ch.answer).None?
  }

  /**
   * The predicates of one Likert group, in dictionary order; the first answer
   * on which float() raises stops the filter with that error.
   */
  function LikertConstraints(choices: seq<LikertChoice>): Result<seq<Constraint>, FilterError> {
    if choices == [] then Ok([])
    else
      var ch := choices[|choices| - 1];
      match LikertConstraints(choices[..|choices| - 1])
      case Err(e) => Err(e)
      case Ok(cs) =>
        if ch.answer == Any then Ok(cs)
        else match ParseFloat(ch.answer)
          case None => Err(InvalidLikert(ch.question, ch.answer))
          case Some(d) => Ok(cs + [Constraint(ch.question, d)])
  }

  /** All predicates of the criteria: categorical ones, then Q7, then Q9. */
  function Constraints(c: Criteria): Result<seq<Constraint>, FilterError> {
    match LikertConstraints(c.q7Values)
    case Err(e) => Err(e)
    case Ok(cs7) =>
      match LikertConstraints(c.q9Values)
      case Err(e) => Err(e)
      case Ok(cs9) => Ok(CodeConstraints(CategoricalFilters(c)) + cs7 + cs9)
  }

  /** What the filter returns for the given table and criteria. */
  function FilterSpec(data: Table, c: Criteria): Result<Table, FilterError> {
    match Constraints(c)
    case Err(e) => Err(e)
    case Ok(cs) => Ok(Filter(data, cs))
  }

  /**
   * The filter as the source runs it: start from a copy of the table, then
   * narrow it by each decoded categorical code, each Q7 answer and each Q9
   * answer other than "Any", one boolean mask at a time.
   */
  method FilterData(data: Table, gender: string, age: string, certArea: string,
                    gradDate: string, research: string,
                    q7Values: seq<LikertChoice>, q9Values: seq<LikertChoice>)
    returns (result: Result<Table, FilterError>)
    ensures result == FilterSpec(data, Criteria(gender, age, certArea, gradDate, research, q7Values, q9Values))
  {
    var c := Criteria(gender, age, certArea, gradDate, research, q7Values, q9Values);
    var filtered := data;
    FilterNoConstraints(data);

    var filters := CategoricalFilters(c);
    ghost var codes: seq<Constraint> := [];
    for i := 0 to |filters|
      invariant codes == CodeConstraints(filters[..i])
      invariant filtered == Filter(data, codes)
    {
      CodeConstraintsStep(filters, i);
      var f := filters[i];
      if f.code.Some? {
        var cons := Constraint(f.column, Decimal(f.code.value, 0));
        FilterCompose(data, codes, [cons]);
        filtered := Filter(filtered, [cons]);
        codes := codes + [cons];
      }
    }
    assert filters[..|filters|] == filters;

    ghost var cs7: seq<Constraint> := [];
    assert codes + cs7 == codes;
    for j := 0 to |q7Values|
      invariant LikertConstraints(q7Values[..j]) == Ok(cs7)
      invariant filtered == Filter(data, codes + cs7)
    {
      LikertConstraintsStep(q7Values, j);
      var ch := q7Values[j];
      if ch.answer != Any {
        var d := ParseFloat(ch.answer);
        if d.None? {
          return Err(InvalidLikert(ch.question, ch.answer));
        }
        var cons := Constraint(ch.question, d.value);
        FilterCompose(data, codes + cs7, [cons]);
        assert codes + (cs7 + [cons]) == codes + cs7 + [cons];
        filtered := Filter(filtered, [cons]);
        cs7 := cs7 + [cons];
      }
    }
    assert q7Values[..|q7Values|] == q7Values;

    ghost var cs9: seq<Constraint> := [];
    assert codes + cs7 + cs9 == codes + cs7;
    for j := 0 to |q9Values|
      invariant LikertConstraints(q9Values[..j]) == Ok(cs9)
      invariant filtered == Filter(data, codes + cs7 + cs9)
    {
      LikertConstraintsStep(q9Values, j);
      var ch := q9Values[j];
      if ch.answer != Any {
        var d := ParseFloat(ch.answer);
        if d.None? {
          return Err(InvalidLikert(ch.question, ch.answer));
        }
        var cons := Constraint(ch.question, d.value);
        FilterCompose(data, codes + cs7 + cs9, [cons]);
        assert codes + cs7 + (cs9 + [cons]) == codes + cs7 + cs9 + [cons];
        filtered := Filter(filtered, [cons]);
        cs9 := cs9 + [cons];
      }
    }
    assert q9Values[..|q9Values|] == q9Values;
    result := Ok(filtered);
  }

  /** One more categorical selector adds its predicate, if it decoded to a code. */
  lemma CodeConstraintsStep(fs: seq<ColumnFilter>, i: nat)
    requires i < |fs|
    ensures CodeConstraints(fs[..i + 1]) == CodeConstraints(fs[..i]) +
      match fs[i].code
      case None => []
      case Some(code) => [Constraint(fs[i].column, Decimal(code, 0))]
  {
    assert fs[..i + 1][..i] == fs[..i];
  }

  /**
   * One more Likert answer: "Any" adds nothing, a number adds its predicate,
   * and anything else fails the whole group with that answer's error.
   */
  lemma LikertConstraintsStep(s: seq<LikertChoice>, j: nat)
    requires j < |s| && LikertConstraints(s[..j]).Ok?
    ensures s[j].answer == Any ==> LikertConstraints(s[..j + 1]) == LikertConstraints(s[..j])
    ensures s[j].answer != Any && ParseFloat(s[j].answer).Some? ==>
      LikertConstraints(s[..j + 1]) ==
        Ok(LikertConstraints(s[..j]).value + [Constraint(s[j].question, ParseFloat(s[j].answer).value)])
    ensures AnswerInvalid(s[j]) ==> LikertConstraints(s) == Err(InvalidLikert(s[j].question, s[j].answer))
  {
    var t := s[..j + 1];
    assert t[..|t| - 1] == s[..j] && t[|t| - 1] == s[j];
    if s[j].answer != Any && ParseFloat(s[j].answer).None? {
      assert LikertConstraints(t) == Err(InvalidLikert(s[j].question, s[j].answer));
      LikertErrorPersists(s, j + 1);
    }
  }

  // ---------------------------------------------------------------------------
  // Properties of Filter

  /** With no constraint the whole table comes back. */
  lemma {:induction false} FilterNoConstraints(rows: Table)
    ensures Filter(rows, []) == rows
  {
    if rows != [] {
      FilterNoConstraints(rows[1..]);
    }
  }

  /** Filtering distributes over concatenation of tables. */
  lemma {:induction false} FilterConcat(xs: Table, ys: Table, cs: seq<Constraint>)
    ensures Filter(xs + ys, cs) == Filter(xs, cs) + Filter(ys, cs)
  {
    if xs != [] {
      var head := if Satisfies(xs[0], cs) then [xs[0]] else [];
      assert (xs + ys)[0] == xs[0];
      assert (xs + ys)[1..] == xs[1..] + ys;
      FilterConcat(xs[1..], ys, cs);
      calc {
        Filter(xs + ys, cs);
        head + Filter(xs[1..] + ys, cs);
        head + (Filter(xs[1..], cs) + Filter(ys, cs));
        (head + Filter(xs[1..], cs)) + Filter(ys, cs);
        Filter(xs, cs) + Filter(ys, cs);
      }
    } else {
      assert xs + ys == ys;
    }
  }

  /** Applying one set of constraints after another is applying both at once. */
  lemma {:induction false} FilterCompose(rows: Table, a: seq<Constraint>, b: seq<Constraint>)
    ensures Filter(Filter(rows, a), b) == Filter(rows, a + b)
  {
    if rows != [] {
      var head := if Satisfies(rows[0], a) then [rows[0]] else [];
      FilterConcat(head, Filter(rows[1..], a), b);
      FilterCompose(rows[1..], a, b);
      if head != [] {
        assert head[1..] == [];
      }
    }
  }

  /** A row is in the result iff it is in the table and satisfies every constraint. */
  lemma {:induction false} FilterMembership(rows: Table, cs: seq<Constraint>, r: Row)
    ensures r in Filter(rows, cs) <==> r in rows && Satisfies(r, cs)
  {
    if rows != [] {
      FilterMembership(rows[1..], cs, r);
      assert rows == [rows[0]] + rows[1..];
    }
  }

  /** The positions of the rows that satisfy every constraint, ascending. */
  function Positions(rows: Table, cs: seq<Constraint>): seq<nat> {
    if rows == [] then []
    else
      var rest := Positions(rows[1..], cs);
      var shifted := seq(|rest|, k requires 0 <= k < |rest| => rest[k] + 1);
      if Satisfies(rows[0], cs) then [0] + shifted else shifted
  }

  lemma {:induction false} PositionsSelect(rows: Table, cs: seq<Constraint>)
    ensures |Positions(rows, cs)| == |Filter(rows, cs)|
    ensures forall k :: 0 <= k < |Positions(rows, cs)| ==>
      Positions(rows, cs)[k] < |rows| && Filter(rows, cs)[k] == rows[Positions(rows, cs)[k]]
  {
    if rows != [] {
      PositionsSelect(rows[1..], cs);
    }
  }

  lemma {:induction false} PositionsIncrease(rows: Table, cs: seq<Constraint>)
    ensures forall k, l :: 0 <= k < l < |Positions(rows, cs)| ==>
      Positions(rows, cs)[k] < Positions(rows, cs)[l]
  {
    if rows != [] {
      PositionsIncrease(rows[1..], cs);
    }
  }

  lemma {:induction false} PositionsExact(rows: Table, cs: seq<Constraint>)
    ensures forall i :: 0 <= i < |rows| ==> (i in Positions(rows, cs) <==> Satisfies(rows[i], cs))
  {
    if rows != [] {
      var rest := Positions(rows[1..], cs);
      var shifted := seq(|rest|, k requires 0 <= k < |rest| => rest[k] + 1);
      PositionsExact(rows[1..], cs);
      forall i | 1 <= i < |rows|
        ensures i in shifted <==> Satisfies(rows[i], cs)
      {
        assert rows[1..][i - 1] == rows[i];
        if i - 1 in rest {
          var k :| 0 <= k < |rest| && rest[k] == i - 1;
          assert shifted[k] == i;
        }
      }
    }
  }

  /**
   * The result is the subsequence of the table at the positions of the rows
   * that satisfy every constraint: nothing invented, nothing reordered,
   * nothing that satisfies them left out.
   */
  lemma FilterPositions(rows: Table, cs: seq<Constraint>) returns (pos: seq<nat>)
    ensures |pos| == |Filter(rows, cs)|
    ensures forall k :: 0 <= k < |pos| ==> pos[k] < |rows| && Filter(rows, cs)[k] == rows[pos[k]]
    ensures forall k, l :: 0 <= k < l < |pos| ==> pos[k] < pos[l]
    ensures forall i :: 0 <= i < |rows| ==> (i in pos <==> Satisfies(rows[i], cs))
  {
    pos := Positions(rows, cs);
    PositionsSelect(rows, cs);
    PositionsIncrease(rows, cs);
    PositionsExact(rows, cs);
  }

  /** The order in which constraints are applied does not matter, nor do repeats. */
  lemma {:induction false} FilterSameConstraints(rows: Table, a: seq<Constraint>, b: seq<Constraint>)
    requires forall c :: c in a <==> c in b
    ensures Filter(rows, a) == Filter(rows, b)
  {
    if rows != [] {
      FilterSameConstraints(rows[1..], a, b);
    }
  }

  /** Filtering by a then by b gives what filtering by b then by a gives. */
  lemma FilterCommutes(rows: Table, a: seq<Constraint>, b: seq<Constraint>)
    ensures Filter(Filter(rows, a), b) == Filter(Filter(rows, b), a)
  {
    FilterCompose(rows, a, b);
    FilterCompose(rows, b, a);
    FilterSameConstraints(rows, a + b, b + a);
  }

  /** Filtering the result again with the same constraints changes nothing. */
  lemma FilterIdempotent(rows: Table, cs: seq<Constraint>)
    ensures Filter(Filter(rows, cs), cs) == Filter(rows, cs)
  {
    FilterCompose(rows, cs, cs);
    FilterSameConstraints(rows, cs + cs, cs);
  }

  /** Constraints combine by conjunction: the result for a and b is the intersection. */
  lemma FilterConjunction(rows: Table, a: seq<Constraint>, b: seq<Constraint>, r: Row)
    ensures r in Filter(rows, a + b) <==> r in Filter(rows, a) && r in Filter(rows, b)
  {
    FilterMembership(rows, a + b, r);
    FilterMembership(rows, a, r);
    FilterMembership(rows, b, r);
  }

  /** A row whose cell in a constrained column is NaN is never kept. */
  lemma NeverKeepsMissing(rows: Table, cs: seq<Constraint>, r: Row, c: Constraint)
    requires c in cs && c.column !in r.numeric
    ensures r !in Filter(rows, cs)
  {
    FilterMembership(rows, cs, r);
  }

  // ---------------------------------------------------------------------------
  // What the criteria mean

  /** A decoded categorical code, if any, equals the row's cell. */
  predicate CodeHolds(r: Row, column: string, code: Option<int>) {
    code.Some? ==> column in r.numeric && r.numeric[column] == code.value
  }

  /** A Likert answer is "Any", or a number equal to the row's cell. */
  predicate AnswerHolds(r: Row, ch: LikertChoice) {
    || ch.answer == Any
    || (&& ParseFloat(ch.answer).Some?
        && ch.question in r.numeric
        && EqualsInt(ParseFloat(ch.answer).value, r.numeric[ch.question]))
  }

  /** The reference meaning of the criteria for one row: every selector holds. */
  predicate MeetsCriteria(r: Row, c: Criteria) {
    && CodeHolds(r, "gender", Decode(GenderCodes, c.gender))
    && CodeHolds(r, "age", Decode(AgeCodes, c.age))
    && CodeHolds(r, "certification_area", Decode(CertAreaCodes, c.certArea))
    && CodeHolds(r, "grad_date", Decode(GradDateCodes, c.gradDate))
    && CodeHolds(r, "Q14", Decode(ResearchCodes, c.research))
    && (forall k :: 0 <= k < |c.q7Values| ==> AnswerHolds(r, c.q7Values[k]))
    && (forall k :: 0 <= k < |c.q9Values| ==> AnswerHolds(r, c.q9Values[k]))
  }

  /** The answer at position k is the first one on which float() raises. */
  predicate FirstInvalid(s: seq<LikertChoice>, k: int) {
    && 0 <= k < |s|
    && AnswerInvalid(s[k])
    && forall j :: 0 <= j < k ==> !AnswerInvalid(s[j])
  }

  /** Once a prefix of a group has failed, the whole group fails with the same error. */
  lemma {:induction false} LikertErrorPersists(s: seq<LikertChoice>, n: nat)
    requires n <= |s| && LikertConstraints(s[..n]).Err?
    ensures LikertConstraints(s) == LikertConstraints(s[..n])
  {
    if n < |s| {
      var init := s[..|s| - 1];
      assert init[..n] == s[..n];
      LikertErrorPersists(init, n);
    } else {
      assert s[..n] == s;
    }
  }

  /** The categorical predicates hold of a row iff every decoded code equals its cell. */
  lemma {:induction false} CodeConstraintsMeaning(fs: seq<ColumnFilter>, r: Row)
    ensures Satisfies(r, CodeConstraints(fs)) <==>
      forall k :: 0 <= k < |fs| ==> CodeHolds(r, fs[k].column, fs[k].code)
  {
    if fs != [] {
      var init := fs[..|fs| - 1];
      CodeConstraintsMeaning(init, r);
      assert forall k :: 0 <= k < |init| ==> fs[k] == init[k];
      var f := fs[|fs| - 1];
      if f.code.Some? {
        var cons := Constraint(f.column, Decimal(f.code.value, 0));
        assert Holds(r, cons) <==> CodeHolds(r, f.column, f.code);
      }
    }
  }

  /** A group's predicates are built iff no answer in it makes float() raise. */
  lemma {:induction false} LikertConstraintsOk(s: seq<LikertChoice>)
    ensures LikertConstraints(s).Ok? <==> forall k :: 0 <= k < |s| ==> !AnswerInvalid(s[k])
  {
    if s != [] {
      var init := s[..|s| - 1];
      LikertConstraintsOk(init);
      assert forall k :: 0 <= k < |init| ==> s[k] == init[k];
    }
  }

  /** A group's predicates hold of a row iff every answer of the group holds of it. */
  lemma {:induction false} LikertConstraintsMeaning(s: seq<LikertChoice>, r: Row)
    requires LikertConstraints(s).Ok?
    ensures Satisfies(r, LikertConstraints(s).value) <==>
      forall k :: 0 <= k < |s| ==> AnswerHolds(r, s[k])
  {
    if s != [] {
      var init := s[..|s| - 1];
      var ch := s[|s| - 1];
      LikertConstraintsMeaning(init, r);
      var cs := LikertConstraints(init).value;
      assert (forall k :: 0 <= k < |s| ==> AnswerHolds(r, s[k])) <==>
        (forall k :: 0 <= k < |init| ==> AnswerHolds(r, init[k])) && AnswerHolds(r, ch) by {
        assert forall k :: 0 <= k < |init| ==> s[k] == init[k];
      }
      if ch.answer != Any {
        var c := Constraint(ch.question, ParseFloat(ch.answer).value);
        assert LikertConstraints(s).value == cs + [c];
        assert Satisfies(r, cs + [c]) <==> Satisfies(r, cs) && Holds(r, c);
      }
    }
  }

  /** When a group fails, the error names its first answer on which float() raises. */
  lemma {:induction false} LikertConstraintsError(s: seq<LikertChoice>)
    requires LikertConstraints(s).Err?
    ensures exists k ::
      FirstInvalid(s, k) && LikertConstraints(s).error == InvalidLikert(s[k].question, s[k].answer)
  {
    var init := s[..|s| - 1];
    assert forall k :: 0 <= k < |init| ==> s[k] == init[k];
    if LikertConstraints(init).Err? {
      LikertConstraintsError(init);
      var k :| FirstInvalid(init, k) &&
        LikertConstraints(init).error == InvalidLikert(init[k].question, init[k].answer);
      assert FirstInvalid(s, k);
    } else {
      LikertConstraintsOk(init);
      assert FirstInvalid(s, |s| - 1);
    }
  }

  /** A group fails iff one of its answers is neither "Any" nor a number. */
  predicate HasInvalid(s: seq<LikertChoice>) {
    exists k :: 0 <= k < |s| && AnswerInvalid(s[k])
  }

  /**
   * The filter raises iff some Q7 or Q9 answer is neither "Any" nor a number,
   * whatever the table; the error names the first such answer, Q7 before Q9.
   */
  lemma FilterSpecFails(data: Table, c: Criteria)
    ensures FilterSpec(data, c).Err? <==> HasInvalid(c.q7Values) || HasInvalid(c.q9Values)
    ensures FilterSpec(data, c).Err? && HasInvalid(c.q7Values) ==>
      exists k :: FirstInvalid(c.q7Values, k) &&
        FilterSpec(data, c).error == InvalidLikert(c.q7Values[k].question, c.q7Values[k].answer)
    ensures FilterSpec(data, c).Err? && !HasInvalid(c.q7Values) ==>
      exists k :: FirstInvalid(c.q9Values, k) &&
        FilterSpec(data, c).error == InvalidLikert(c.q9Values[k].question, c.q9Values[k].answer)
  {
    LikertConstraintsOk(c.q7Values);
    LikertConstraintsOk(c.q9Values);
    if LikertConstraints(c.q7Values).Err? {
      LikertConstraintsError(c.q7Values);
    } else if LikertConstraints(c.q9Values).Err? {
      LikertConstraintsError(c.q9Values);
    }
  }

  /** The predicates of the criteria hold of a row iff the row meets the criteria. */
  lemma ConstraintsMeaning(c: Criteria, r: Row)
    requires Constraints(c).Ok?
    ensures Satisfies(r, Constraints(c).value) <==> MeetsCriteria(r, c)
  {
    var fs := CategoricalFilters(c);
    CodeConstraintsMeaning(fs, r);
    LikertConstraintsMeaning(c.q7Values, r);
    LikertConstraintsMeaning(c.q9Values, r);
    var cs7, cs9 := LikertConstraints(c.q7Values).value, LikertConstraints(c.q9Values).value;
    assert Satisfies(r, CodeConstraints(fs) + cs7 + cs9) <==>
      Satisfies(r, CodeConstraints(fs)) && Satisfies(r, cs7) && Satisfies(r, cs9);
    assert (forall k :: 0 <= k < |fs| ==> CodeHolds(r, fs[k].column, fs[k].code)) <==>
      && CodeHolds(r, fs[0].column, fs[0].code)
      && CodeHolds(r, fs[1].column, fs[1].code)
      && CodeHolds(r, fs[2].column, fs[2].code)
      && CodeHolds(r, fs[3].column, fs[3].code)
      && CodeHolds(r, fs[4].column, fs[4].code);
  }

  /**
   * When the filter succeeds, its result is the subsequence of the table at
   * the positions of exactly the rows that meet the criteria, in table order
   * and with their index labels.
   */
  lemma FilterSpecSelects(data: Table, c: Criteria) returns (pos: seq<nat>)
    requires FilterSpec(data, c).Ok?
    ensures |pos| == |FilterSpec(data, c).value|
    ensures forall k :: 0 <= k < |pos| ==>
      pos[k] < |data| && FilterSpec(data, c).value[k] == data[pos[k]]
    ensures forall k, l :: 0 <= k < l < |pos| ==> pos[k] < pos[l]
    ensures forall i :: 0 <= i < |data| ==> (i in pos <==> MeetsCriteria(data[i], c))
  {
    pos := FilterPositions(data, Constraints(c).value);
    forall i | 0 <= i < |data|
      ensures Satisfies(data[i], Constraints(c).value) <==> MeetsCriteria(data[i], c)
    {
      ConstraintsMeaning(c, data[i]);
    }
  }

  /** Filtering the result again with the same criteria returns it unchanged. */
  lemma FilterSpecIdempotent(data: Table, c: Criteria)
    requires FilterSpec(data, c).Ok?
    ensures FilterSpec(FilterSpec(data, c).value, c) == FilterSpec(data, c)
  {
    FilterIdempotent(data, Constraints(c).value);
  }

  /** With no selector decoding to a code and every answer "Any", the whole table comes back. */
  lemma UnconstrainedKeepsAll(data: Table, c: Criteria)
    requires Decode(GenderCodes, c.gender) == None && Decode(AgeCodes, c.age) == None
    requires Decode(CertAreaCodes, c.certArea) == None
    requires Decode(GradDateCodes, c.gradDate) == None
    requires Decode(ResearchCodes, c.research) == None
    requires forall k :: 0 <= k < |c.q7Values| ==> c.q7Values[k].answer == Any
    requires forall k :: 0 <= k < |c.q9Values| ==> c.q9Values[k].answer == Any
    ensures FilterSpec(data, c) == Ok(data)
  {
    AnyAddsNothing(c.q7Values);
    AnyAddsNothing(c.q9Values);
    var fs := CategoricalFilters(c);
    assert fs[..5] == fs;
    assert fs[..0] == [];
    CodeConstraintsStep(fs, 0);
    CodeConstraintsStep(fs, 1);
    CodeConstraintsStep(fs, 2);
    CodeConstraintsStep(fs, 3);
    CodeConstraintsStep(fs, 4);
    FilterNoConstraints(data);
  }

  /** A group whose every answer is "Any" contributes no predicate. */
  lemma {:induction false} AnyAddsNothing(s: seq<LikertChoice>)
    requires forall k :: 0 <= k < |s| ==> s[k].answer == Any
    ensures LikertConstraints(s) == Ok([])
  {
    if s != [] {
      AnyAddsNothing(s[..|s| - 1]);
    }
  }

  /** An integer answer keeps exactly the rows whose cell holds that integer. */
  lemma IntegerAnswerHolds(r: Row, question: string, n: int)
    ensures AnswerHolds(r, LikertChoice(question, IntToString(n))) <==>
      question in r.numeric && r.numeric[question] == n
  {
    IntToStringParses(n);
    var s := IntToString(n);
    assert s[0] != 'A' by {
      if n < 0 { assert s[0] == '-'; } else { assert IsDigit(s[0]); }
    }
  }

  /** The answers the selectors offer never make the filter raise. */
  lemma OfferedChoicesNeverFail(data: Table, c: Criteria)
    requires OfferedChoices(c.q7Values, Q7Questions) && OfferedChoices(c.q9Values, Q9Questions)
    ensures FilterSpec(data, c).Ok?
  {
    forall n | 1 <= n <= 5 ensures ParseFloat(IntToString(n)).Some? {
      IntToStringParses(n);
    }
    assert LikertAnswers == [Any, IntToString(1), IntToString(2), IntToString(3), IntToString(4), IntToString(5)];
    FilterSpecFails(data, c);
  }
}
